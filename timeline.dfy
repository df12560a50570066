/** The planner's timeline (script.js): one timeslot per hour from 8 to 23,
    each headed by a 12-hour label such as "8:00 AM" and holding six
    placeholders, four for emojis and two for notes. */
module Timeline {
  import opened Seqs

  const FirstHour: nat := 8
  const LastHour: nat := 23
  const SlotCount: nat := 16
  const PlaceholdersPerSlot: nat := 6
  const EmojiPlaceholdersPerSlot: nat := 4

  /** The hour on a 12-hour clock (`hour > 12 ? hour - 12 : hour`). */
  function Hour12(hour: nat): (h: nat)
    ensures 1 <= hour <= 24 ==> 1 <= h <= 12
    ensures h == hour || h + 12 == hour
  {
    if hour > 12 then hour - 12 else hour
  }

  /** "PM" from noon on, "AM" before. */
  function Meridiem(hour: nat): (m: string)
    ensures m == "PM" <==> hour >= 12
    ensures m == "AM" <==> hour < 12
  {
    if hour >= 12 then "PM" else "AM"
  }

  predicate IsDigit(c: char) {
    '0' <= c <= '9'
  }

  function Digit(d: nat): (c: char)
    requires d < 10
    ensures IsDigit(c)
  {
    ('0' as int + d) as char
  }

  function DigitValue(c: char): nat
    requires IsDigit(c)
  {
    c as int - '0' as int
  }

  /** The decimal notation of `n`, as a template literal renders it. */
  function Decimal(n: nat): (s: string)
    ensures |s| >= 1
    ensures forall i :: 0 <= i < |s| ==> IsDigit(s[i])
    decreases n
  {
    if n < 10 then [Digit(n)] else Decimal(n / 10) + [Digit(n % 10)]
  }

  /** The number a non-empty string of digits denotes. */
  function ParseDecimal(s: string): nat
    requires |s| >= 1 && forall i :: 0 <= i < |s| ==> IsDigit(s[i])
    decreases |s|
  {
    if |s| == 1 then DigitValue(s[0])
    else ParseDecimal(s[..|s| - 1]) * 10 + DigitValue(s[|s| - 1])
  }

  lemma {:induction false} ParseDecimalOfDecimal(n: nat)
    ensures ParseDecimal(Decimal(n)) == n
    decreases n
  {
    if n >= 10 {
      ParseDecimalOfDecimal(n / 10);
      var s := Decimal(n);
      assert s[..|s| - 1] == Decimal(n / 10);
    }
  }

  /** The heading of the timeslot of `hour`: `${hour12}:00 ${amPm}`. */
  function TimeLabel(hour: nat): (heading: string)
    ensures |heading| >= 7
  {
    Decimal(Hour12(hour)) + ":00 " + Meridiem(hour)
  }

  /** Reads a 12-hour label back as an hour of the day. */
  function ParseLabel(heading: string): Option<nat> {
    var n := |heading|;
    if n < 7 || heading[n - 6..n - 2] != ":00 " then None
    else if !(forall i :: 0 <= i < n - 6 ==> IsDigit(heading[i])) then None
    else
      var h := ParseDecimal(heading[..n - 6]);
      if heading[n - 2..] == "AM" then Some(if h == 12 then 0 else h)
      else if heading[n - 2..] == "PM" then Some(if h == 12 then 12 else h + 12)
      else None
  }

  /** A heading is the hour's digits, then ":00 ", then "PM" from noon on
      and "AM" before. */
  lemma TimeLabelShape(hour: nat)
    ensures var heading := TimeLabel(hour);
      && heading[..|heading| - 6] == Decimal(Hour12(hour))
      && heading[|heading| - 6..|heading| - 2] == ":00 "
      && (heading[|heading| - 2..] == "PM" <==> hour >= 12)
      && (heading[|heading| - 2..] == "AM" <==> hour < 12)
  {
    var heading := TimeLabel(hour);
    assert heading == Decimal(Hour12(hour)) + ":00 " + Meridiem(hour);
  }

  /** Every timeslot label reads back as its own hour. */
  lemma TimeLabelRoundTrip(hour: nat)
    requires FirstHour <= hour <= LastHour
    ensures ParseLabel(TimeLabel(hour)) == Some(hour)
  {
    var digits, suffix := Decimal(Hour12(hour)), Meridiem(hour);
    var heading := TimeLabel(hour);
    assert heading == digits + ":00 " + suffix;
    var n := |heading|;
    assert n == |digits| + 6;
    assert heading[..n - 6] == digits;
    assert heading[n - 6..n - 2] == ":00 ";
    assert heading[n - 2..] == suffix;
    assert forall i :: 0 <= i < n - 6 ==> IsDigit(heading[i]);
    ParseDecimalOfDecimal(Hour12(hour));
  }

  /** No two timeslots share a label. */
  lemma TimeLabelsDistinct(h1: nat, h2: nat)
    requires FirstHour <= h1 <= LastHour && FirstHour <= h2 <= LastHour
    requires TimeLabel(h1) == TimeLabel(h2)
    ensures h1 == h2
  {
    TimeLabelRoundTrip(h1);
    TimeLabelRoundTrip(h2);
  }

  /** The labels of the first slot, of noon and of the last slot. */
  lemma TimeLabelExamples()
    ensures TimeLabel(8) == "8:00 AM"
    ensures TimeLabel(12) == "12:00 PM"
    ensures TimeLabel(23) == "11:00 PM"
  {
    assert Decimal(12) == Decimal(1) + [Digit(2)];
    assert Decimal(11) == Decimal(1) + [Digit(1)];
  }

  datatype Placeholder = EmojiPlaceholder | NotePlaceholder

  datatype Timeslot = Timeslot(heading: string, placeholders: seq<Placeholder>)

  /** The kind of the placeholder at position `i` of a timeslot. */
  function KindAt(i: nat): Placeholder {
    if i < EmojiPlaceholdersPerSlot then EmojiPlaceholder else NotePlaceholder
  }

  /** The inner loop of the timeline: six placeholders, the first four for
      emojis and the last two for notes. */
  method BuildPlaceholders() returns (placeholders: seq<Placeholder>)
    ensures |placeholders| == PlaceholdersPerSlot
    ensures forall i :: 0 <= i < |placeholders| ==> (placeholders[i] == EmojiPlaceholder <==> i < EmojiPlaceholdersPerSlot)
  {
    placeholders := [];
    var i := 0;
    while i < 6
      invariant 0 <= i <= 6
      invariant |placeholders| == i
      invariant forall j :: 0 <= j < i ==> (placeholders[j] == EmojiPlaceholder <==> j < 4)
    {
      if i < 4 {
        placeholders := placeholders + [EmojiPlaceholder];
      } else {
        placeholders := placeholders + [NotePlaceholder];
      }
      i := i + 1;
    }
  }

  /** The heading the loop computes for `hour` is its time label. */
  lemma HeadingIsTimeLabel(hour: nat, hour12: nat, amPm: string, heading: string)
    requires hour12 == (if hour > 12 then hour - 12 else hour)
    requires amPm == (if hour >= 12 then "PM" else "AM")
    requires heading == Decimal(hour12) + ":00 " + amPm
    ensures heading == TimeLabel(hour)
  {
  }

  /** The loop that generates the timeslots: one per hour from 8 to 23, each
      with its label and six placeholders, the first four for emojis. */
  method BuildTimeline() returns (timeline: seq<Timeslot>)
    ensures |timeline| == SlotCount
    ensures forall k :: 0 <= k < |timeline| ==> timeline[k].heading == TimeLabel(FirstHour + k)
    ensures forall k :: 0 <= k < |timeline| ==> |timeline[k].placeholders| == PlaceholdersPerSlot
    ensures forall k, i :: 0 <= k < |timeline| && 0 <= i < |timeline[k].placeholders| ==>
              (timeline[k].placeholders[i] == EmojiPlaceholder <==> i < EmojiPlaceholdersPerSlot)
  {
    timeline := [];
    var hour := 8;
    while hour <= 23
      invariant 8 <= hour <= 24
      invariant |timeline| == hour - 8
      invariant forall k :: 0 <= k < |timeline| ==> timeline[k].heading == TimeLabel(FirstHour + k)
      invariant forall k :: 0 <= k < |timeline| ==> |timeline[k].placeholders| == PlaceholdersPerSlot
      invariant forall k, i :: 0 <= k < |timeline| && 0 <= i < |timeline[k].placeholders| ==>
                  (timeline[k].placeholders[i] == EmojiPlaceholder <==> i < EmojiPlaceholdersPerSlot)
    {
      var hour12 := if hour > 12 then hour - 12 else hour;
      var amPm := if hour >= 12 then "PM" else "AM";
      var timeLabel := Decimal(hour12) + ":00 " + amPm;
      HeadingIsTimeLabel(hour, hour12, amPm, timeLabel);
      ghost var before := timeline;

      var placeholders := BuildPlaceholders();
      timeline := timeline + [Timeslot(timeLabel, placeholders)];
      forall k | 0 <= k < |timeline| ensures timeline[k].heading == TimeLabel(FirstHour + k) {
        if k < |before| {
          assert timeline[k] == before[k];
        }
      }
      hour := hour + 1;
    }
  }
}
