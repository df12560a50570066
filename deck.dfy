/** The emoji deck panel (script.js): a toggle button flips its `open` and
    `closed` classes and relabels itself, and a horizontal swipe of more
    than 50 pixels anywhere on the page closes the deck. */
module Deck {
  import opened Seqs

  const OpenClass := "open"
  const ClosedClass := "closed"
  const CloseLabel := "Close Emoji Deck"
  const OpenLabel := "Open Emoji Deck"
  /** Horizontal travel, in pixels, that a swipe must exceed. */
  const SwipeThreshold: real := 50.0

  /** `classList.toggle(c)`: removes `c` when present, adds it otherwise. */
  function ToggleClass(cs: set<string>, c: string): (r: set<string>)
    ensures c in r <==> c !in cs
    ensures forall d :: d != c ==> (d in r <==> d in cs)
  {
    if c in cs then cs - {c} else cs + {c}
  }

  /** The class list after a click on the toggle button. */
  function Toggled(cs: set<string>): (r: set<string>)
    ensures OpenClass in r <==> OpenClass !in cs
    ensures ClosedClass in r <==> ClosedClass !in cs
    ensures forall c :: c != OpenClass && c != ClosedClass ==> (c in r <==> c in cs)
  {
    ToggleClass(ToggleClass(cs, OpenClass), ClosedClass)
  }

  /** The class list after `closeEmojiDeck`. */
  function Closed(cs: set<string>): (r: set<string>)
    ensures OpenClass !in r
    ensures OpenClass in cs ==> ClosedClass in r
    ensures OpenClass !in cs ==> r == cs
    ensures forall c :: c != OpenClass && c != ClosedClass ==> (c in r <==> c in cs)
  {
    if OpenClass in cs then cs - {OpenClass} + {ClosedClass} else cs
  }

  /** Exactly one of `open` and `closed` is set. */
  predicate OneState(cs: set<string>) {
    (OpenClass in cs) != (ClosedClass in cs)
  }

  /** The text the toggle button shows for a deck that is (not) open. */
  function LabelFor(open: bool): string {
    if open then CloseLabel else OpenLabel
  }

  /** The touchend test: a touch that started at `start` and ended at `end`
      is a swipe. Before any touchstart `start` is undefined, and every
      comparison with it is false. */
  function Swipe(start: Option<real>, end: real): (r: bool)
    ensures r <==> start.Some? && (if start.value >= end then start.value - end else end - start.value) > SwipeThreshold
  {
    start.Some? && (start.value > end + SwipeThreshold || start.value < end - SwipeThreshold)
  }

  /** A click flips an open deck to closed and a closed deck to open, and
      keeps exactly one of the two classes set; other classes are kept. */
  lemma ToggleFlips(cs: set<string>)
    requires OneState(cs)
    ensures OneState(Toggled(cs))
    ensures OpenClass in Toggled(cs) <==> OpenClass !in cs
    ensures forall c :: c != OpenClass && c != ClosedClass ==> (c in Toggled(cs) <==> c in cs)
  {
  }

  /** Two clicks restore the class list, whatever it was. */
  lemma ToggleTwice(cs: set<string>)
    ensures Toggled(Toggled(cs)) == cs
  {
  }

  /** Closing leaves the deck closed in exactly one state, and a deck that
      is not open is left as it is. */
  lemma CloseCloses(cs: set<string>)
    ensures OpenClass !in Closed(cs)
    ensures OneState(cs) ==> OneState(Closed(cs)) && ClosedClass in Closed(cs)
    ensures OpenClass !in cs ==> Closed(cs) == cs
  {
  }

  /** Closing twice is closing once. */
  lemma CloseIdempotent(cs: set<string>)
    ensures Closed(Closed(cs)) == Closed(cs)
  {
  }

  /** The deck element's class list, the toggle button's text, and the
      horizontal position of the last touchstart. */
  class Deck {
    var classes: set<string>
    var text: string
    var startX: Option<real>

    /** The deck as the page's markup presents it; no touch has started. */
    constructor(classes0: set<string>, text0: string)
      ensures classes == classes0 && text == text0 && startX == None
    {
      classes := classes0;
      text := text0;
      startX := None;
    }

    /** The deck is in a consistent state: one of the two classes is set
        and the button names the action a click performs. */
    predicate Consistent()
      reads this
    {
      OneState(classes) && text == LabelFor(OpenClass in classes)
    }

    /** The click handler of the toggle button. */
    method Toggle()
      modifies this
      ensures classes == Toggled(old(classes))
      ensures text == LabelFor(OpenClass in classes)
      ensures startX == old(startX)
      ensures old(OneState(classes)) ==> Consistent() && (OpenClass in classes <==> OpenClass !in old(classes))
    {
      classes := ToggleClass(classes, OpenClass);
      classes := ToggleClass(classes, ClosedClass);
      if OpenClass in classes {
        text := CloseLabel;
      } else {
        text := OpenLabel;
      }
      if OneState(old(classes)) {
        ToggleFlips(old(classes));
      }
    }

    /** `closeEmojiDeck`: only an open deck is changed. */
    method Close()
      modifies this
      ensures classes == Closed(old(classes))
      ensures text == if OpenClass in old(classes) then OpenLabel else old(text)
      ensures startX == old(startX)
      ensures old(Consistent()) ==> Consistent() && OpenClass !in classes
    {
      if OpenClass in classes {
        classes := classes - {OpenClass};
        classes := classes + {ClosedClass};
        text := OpenLabel;
      }
    }

    /** The touchstart handler records where the first touch began. */
    method TouchStart(x: real)
      modifies this
      ensures startX == Some(x)
      ensures classes == old(classes) && text == old(text)
    {
      startX := Some(x);
    }

    /** The touchend handler closes the deck on a swipe. The recorded start
        is not cleared, so a later touchend without a new touchstart is
        measured from the same point. */
    method TouchEnd(endX: real)
      modifies this
      ensures startX == old(startX)
      ensures Swipe(old(startX), endX) ==>
                classes == Closed(old(classes)) &&
                text == (if OpenClass in old(classes) then OpenLabel else old(text))
      ensures !Swipe(old(startX), endX) ==> classes == old(classes) && text == old(text)
      ensures old(Consistent()) ==> Consistent()
    {
      if Swipe(startX, endX) {
        Close();
      }
    }
  }

  /** A closed, consistent deck is opened by a click and closed again by a
      swipe of 60 pixels to the left. */
  method OpenThenSwipe() returns (afterClick: bool, afterSwipe: bool)
    ensures afterClick && !afterSwipe
  {
    var deck := new Deck({ClosedClass}, OpenLabel);
    deck.Toggle();
    afterClick := OpenClass in deck.classes;
    deck.TouchStart(200.0);
    deck.TouchEnd(140.0);
    afterSwipe := OpenClass in deck.classes;
  }

  /** A drag of exactly 50 pixels is not a swipe. */
  method ShortDrag() returns (open: bool)
    ensures open
  {
    var deck := new Deck({OpenClass}, CloseLabel);
    deck.TouchStart(100.0);
    deck.TouchEnd(50.0);
    open := OpenClass in deck.classes;
  }
}
