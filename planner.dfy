/** The planner's mutable state (script.js): the emoji placeholders of the
    timeline, the recent list, the drag gesture in progress and the
    long-press timers, with the event handlers that change them. */
module Planner {
  import opened Seqs
  import Timeline

  /** The recent list keeps at most this many glyphs. */
  const RecentCap: nat := 50

  /** One emoji placeholder for each of the first four positions of every
      timeslot. */
  const EmojiSlotCount: nat := Timeline.SlotCount * Timeline.EmojiPlaceholdersPerSlot

  predicate Distinct(s: seq<string>) {
    forall i, j :: 0 <= i < j < |s| ==> s[i] != s[j]
  }

  /** The recent list after `glyph` was dropped on a placeholder: a glyph
      already in the list leaves it as it is (it is not moved to the front);
      a new glyph is put in front, and the oldest entry is dropped when the
      list grows beyond the cap. */
  function Remember(recent: seq<string>, glyph: string): (r: seq<string>)
    ensures glyph in r
    ensures glyph in recent ==> r == recent
    ensures glyph !in recent ==> |r| == if |recent| < RecentCap then |recent| + 1 else |recent|
    ensures glyph !in recent ==> r[0] == glyph && r[1..] == recent[..|r| - 1]
    ensures |recent| <= RecentCap ==> |r| <= RecentCap
    ensures Distinct(recent) ==> Distinct(r)
  {
    if glyph in recent then recent
    else
      var pushed := [glyph] + recent;
      assert pushed[0] == glyph && pushed[1..] == recent;
      if |pushed| > RecentCap then
        assert pushed[..|pushed| - 1][0] == glyph;
        assert pushed[..|pushed| - 1][1..] == recent[..|recent| - 1];
        pushed[..|pushed| - 1]
      else pushed
  }

  /** Dropping the same glyph twice records it once. */
  lemma RememberTwice(recent: seq<string>, glyph: string)
    ensures Remember(Remember(recent, glyph), glyph) == Remember(recent, glyph)
  {
  }

  /** The recent list after the glyphs `drops` were dropped, in that order,
      starting from `recent`. */
  function Replay(recent: seq<string>, drops: seq<string>): seq<string>
    decreases |drops|
  {
    if drops == [] then recent
    else Remember(Replay(recent, drops[..|drops| - 1]), drops[|drops| - 1])
  }

  /** The last (at most) 50 of `drops`, most recent first. */
  function Newest(drops: seq<string>): (r: seq<string>)
    ensures |r| <= RecentCap
  {
    var n := if |drops| < RecentCap then |drops| else RecentCap;
    seq(n, i requires 0 <= i < n => drops[|drops| - 1 - i])
  }

  /** Remembering a new glyph puts it in front of the newest earlier drops. */
  lemma NewestAppend(earlier: seq<string>, glyph: string)
    requires glyph !in Newest(earlier)
    ensures Remember(Newest(earlier), glyph) == Newest(earlier + [glyph])
  {
    var before, drops := Newest(earlier), earlier + [glyph];
    var after := Remember(before, glyph);
    assert |after| == |Newest(drops)|;
    forall i | 0 <= i < |after| ensures after[i] == Newest(drops)[i] {
      if i > 0 {
        assert after[i] == after[1..][i - 1] == before[i - 1];
      }
    }
  }

  /** The last of distinct drops is not among the newest of those before it. */
  lemma LastNotNewest(drops: seq<string>)
    requires Distinct(drops) && drops != []
    ensures drops[|drops| - 1] !in Newest(drops[..|drops| - 1])
  {
    var earlier := drops[..|drops| - 1];
    var before := Newest(earlier);
    forall i | 0 <= i < |before| ensures before[i] != drops[|drops| - 1] {
      assert before[i] == drops[|earlier| - 1 - i];
    }
  }

  /** Starting from the empty list, distinct drops leave the most recent 50
      of them in the list, most recent first. */
  lemma {:induction false} ReplayDistinct(drops: seq<string>)
    requires Distinct(drops)
    ensures Replay([], drops) == Newest(drops)
    decreases |drops|
  {
    if drops != [] {
      var earlier, glyph := drops[..|drops| - 1], drops[|drops| - 1];
      assert Distinct(earlier);
      ReplayDistinct(earlier);
      LastNotNewest(drops);
      NewestAppend(earlier, glyph);
      assert drops == earlier + [glyph];
    }
  }

  /** After 51 distinct drops on an empty list the first one is gone, the
      last one is in front, and 50 glyphs remain. */
  lemma OldestEvicted(drops: seq<string>)
    requires Distinct(drops) && |drops| == RecentCap + 1
    ensures drops[0] !in Replay([], drops)
    ensures Replay([], drops)[0] == drops[RecentCap]
    ensures |Replay([], drops)| == RecentCap
  {
    ReplayDistinct(drops);
    var r := Newest(drops);
    forall i | 0 <= i < |r| ensures r[i] != drops[0] {
      assert r[i] == drops[RecentCap - i];
    }
  }

  /** The element under the release point of a drag: a placeholder of the
      timeline (timeslot index and position within the slot), or anything
      else, including nothing at all. */
  datatype Target = Placeholder(timeslot: nat, position: nat) | Elsewhere

  predicate ValidTarget(t: Target) {
    t.Placeholder? ==> t.timeslot < Timeline.SlotCount && t.position < Timeline.PlaceholdersPerSlot
  }

  /** The target carries the `emoji-placeholder` class. */
  predicate IsEmojiTarget(t: Target) {
    t.Placeholder? && Timeline.KindAt(t.position) == Timeline.EmojiPlaceholder
  }

  /** The index of an emoji placeholder among all emoji placeholders. */
  function SlotIndex(t: Target): (k: nat)
    requires ValidTarget(t) && IsEmojiTarget(t)
    ensures k < EmojiSlotCount
  {
    t.timeslot * Timeline.EmojiPlaceholdersPerSlot + t.position
  }

  /** Different emoji placeholders have different indices. */
  lemma SlotIndexInjective(t: Target, u: Target)
    requires ValidTarget(t) && IsEmojiTarget(t) && ValidTarget(u) && IsEmojiTarget(u)
    requires SlotIndex(t) == SlotIndex(u)
    ensures t == u
  {
  }

  class Planner {
    /** The text content of every emoji placeholder; "" when it is empty. */
    var slots: array<string>
    /** `recentEmojis`, as glyphs, most recent first. */
    var recent: seq<string>
    /** The glyph of the drag in progress: while it is `Some`, its floating
        proxy is in the page and its mousemove/mouseup listeners are attached. */
    var dragging: Option<string>
    /** The `timer` variable of every emoji placeholder's long-press handlers. */
    var timers: array<Option<nat>>
    /** The pending timeouts: handle to the emoji placeholder it clears. */
    var scheduled: map<nat, nat>
    /** The handle the next `setTimeout` returns. */
    var nextHandle: nat

    ghost predicate Valid()
      reads this, timers
    {
      && slots.Length == EmojiSlotCount
      && timers.Length == EmojiSlotCount
      && |recent| <= RecentCap
      && Distinct(recent)
      && (forall h :: h in scheduled ==> h < nextHandle && scheduled[h] < EmojiSlotCount)
      && (forall k :: 0 <= k < timers.Length && timers[k].Some? ==> timers[k].value < nextHandle)
    }

    /** The page as loaded: every placeholder empty, nothing recent, no
        gesture and no timer. */
    constructor ()
      ensures Valid() && fresh(slots) && fresh(timers)
      ensures forall k :: 0 <= k < slots.Length ==> slots[k] == ""
      ensures forall k :: 0 <= k < timers.Length ==> timers[k] == None
      ensures recent == [] && dragging == None && scheduled == map[]
    {
      slots := new string[EmojiSlotCount](_ => "");
      timers := new Option<nat>[EmojiSlotCount](_ => None);
      recent := [];
      dragging := None;
      scheduled := map[];
      nextHandle := 1;
    }

    /** Mousedown on a glyph of the picker: the proxy is created and the
        gesture's listeners are attached. */
    method Grab(glyph: string)
      requires dragging == None
      modifies this`dragging
      ensures dragging == Some(glyph)
    {
      dragging := Some(glyph);
    }

    /** Mouseup ending a drag: on an emoji placeholder the glyph replaces the
        placeholder's content and is recorded in the recent list; elsewhere
        nothing changes. Either way the proxy and the listeners go. */
    method Drop(target: Target)
      requires Valid() && dragging.Some? && ValidTarget(target)
      modifies this`recent, this`dragging, slots
      ensures Valid()
      ensures dragging == None
      ensures IsEmojiTarget(target) ==>
        slots[..] == old(slots[..])[SlotIndex(target) := old(dragging).value] &&
        recent == Remember(old(recent), old(dragging).value)
      ensures !IsEmojiTarget(target) ==> slots[..] == old(slots[..]) && recent == old(recent)
    {
      var glyph := dragging.value;
      if IsEmojiTarget(target) {
        slots[SlotIndex(target)] := glyph;
        if glyph !in recent {
          recent := [glyph] + recent;
          if |recent| > RecentCap {
            recent := recent[..|recent| - 1];
          }
        }
      }
      dragging := None;
    }

    /** Touchstart or mousedown on an emoji placeholder: a timeout that will
        clear it is scheduled only if it has content. */
    method Press(k: nat)
      requires Valid() && k < EmojiSlotCount
      modifies this`scheduled, this`nextHandle, timers
      ensures Valid()
      ensures old(slots[k]) != "" ==>
        scheduled == old(scheduled)[old(nextHandle) := k] &&
        timers[..] == old(timers[..])[k := Some(old(nextHandle))] &&
        nextHandle == old(nextHandle) + 1
      ensures old(slots[k]) == "" ==>
        scheduled == old(scheduled) && timers[..] == old(timers[..]) && nextHandle == old(nextHandle)
    {
      if slots[k] != "" {
        var handle := nextHandle;
        nextHandle := nextHandle + 1;
        scheduled := scheduled[handle := k];
        timers[k] := Some(handle);
      }
    }

    /** Touchend or mouseup on an emoji placeholder: `clearTimeout(timer)`
        cancels the timeout the placeholder last scheduled, if it is still
        pending; `timer` itself keeps its value. */
    method Release(k: nat)
      requires Valid() && k < EmojiSlotCount
      modifies this`scheduled
      ensures Valid()
      ensures timers[k].Some? ==> scheduled == old(scheduled) - {timers[k].value}
      ensures timers[k] == None ==> scheduled == old(scheduled)
    {
      if timers[k].Some? {
        scheduled := scheduled - {timers[k].value};
      }
    }

    /** The timeout `handle` elapses: if still pending it empties its
        placeholder, whatever the placeholder holds by then. */
    method Fire(handle: nat)
      requires Valid()
      modifies slots, this`scheduled
      ensures Valid()
      ensures handle in old(scheduled) ==>
        slots[..] == old(slots[..])[old(scheduled)[handle] := ""] &&
        scheduled == old(scheduled) - {handle}
      ensures handle !in old(scheduled) ==> slots[..] == old(slots[..]) && scheduled == old(scheduled)
    {
      if handle in scheduled {
        slots[scheduled[handle]] := "";
        scheduled := scheduled - {handle};
      }
    }
  }

  /** Dragging a glyph onto the first emoji placeholder of an empty planner
      puts it there and makes it the only recent glyph. */
  method DropOnEmptyPlanner(glyph: string) returns (placed: string, recent: seq<string>)
    ensures placed == glyph && recent == [glyph]
  {
    var planner := new Planner();
    planner.Grab(glyph);
    planner.Drop(Placeholder(0, 0));
    placed := planner.slots[0];
    recent := planner.recent;
  }

  /** A drop on a note placeholder changes no emoji placeholder and records
      nothing, and the gesture is over. */
  method DropOnNote(glyph: string) returns (kept: bool, recent: seq<string>, over: bool)
    ensures kept && recent == [] && over
  {
    var planner := new Planner();
    var before := planner.slots[..];
    planner.Grab(glyph);
    planner.Drop(Placeholder(0, 4));
    kept := planner.slots[..] == before;
    recent := planner.recent;
    over := planner.dragging == None;
  }

  /** Holding a placeholder that shows a glyph until the timeout fires clears
      it; releasing it first keeps the glyph even when the cancelled timeout
      would have fired. */
  method LongPress(glyph: string) returns (held: string, released: string)
    requires glyph != ""
    ensures held == "" && released == glyph
  {
    var planner := new Planner();
    planner.Grab(glyph);
    planner.Drop(Placeholder(0, 0));
    planner.Grab(glyph);
    planner.Drop(Placeholder(0, 1));

    planner.Press(0);
    var first := planner.timers[0].value;
    planner.Fire(first);
    held := planner.slots[0];

    planner.Press(1);
    var second := planner.timers[1].value;
    planner.Release(1);
    planner.Fire(second);
    released := planner.slots[1];
  }

  /** Pressing an empty placeholder schedules nothing. */
  method PressEmpty() returns (pending: map<nat, nat>)
    ensures pending == map[]
  {
    var planner := new Planner();
    planner.Press(0);
    pending := planner.scheduled;
  }
}
