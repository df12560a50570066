/** Option and Result, and JavaScript's order-preserving `Array.prototype.filter`. */
module Seqs {

  datatype Option<+T> = None | Some(value: T)

  datatype Result<+T, +E> = Success(value: T) | Failure(error: E)

  /** `r` can be obtained from `s` by deleting elements (order is kept). */
  ghost predicate SubsequenceOf<T>(r: seq<T>, s: seq<T>)
    decreases |s|
  {
    if r == [] then true
    else if s == [] then false
    else if r[0] == s[0] then SubsequenceOf(r[1..], s[1..])
    else SubsequenceOf(r, s[1..])
  }

  /** `s.filter(p)`: the elements of `s` that satisfy `p`, each occurrence
      kept, in their original order. */
  function Keep<T(==,!new)>(s: seq<T>, p: T -> bool): (r: seq<T>)
    ensures forall x :: x in r <==> x in s && p(x)
    ensures SubsequenceOf(r, s)
  {
    if s == [] then []
    else
      assert s == [s[0]] + s[1..];
      var rest := Keep(s[1..], p);
      if p(s[0]) then [s[0]] + rest else rest
  }

  /** Filtering a sequence that starts with `x`. */
  lemma KeepCons<T(!new)>(x: T, s: seq<T>, p: T -> bool)
    ensures Keep([x] + s, p) == (if p(x) then [x] else []) + Keep(s, p)
  {
    assert ([x] + s)[1..] == s;
  }

  /** Filtering distributes over concatenation: together with `KeepCons`
      this determines `Keep` completely. */
  lemma {:induction false} KeepAppend<T(!new)>(a: seq<T>, b: seq<T>, p: T -> bool)
    ensures Keep(a + b, p) == Keep(a, p) + Keep(b, p)
  {
    if a == [] {
      assert a + b == b;
    } else {
      var x, rest := a[0], a[1..];
      var head := if p(x) then [x] else [];
      calc {
        Keep(a + b, p);
        { assert a + b == [x] + (rest + b); }
        Keep([x] + (rest + b), p);
        { KeepCons(x, rest + b, p); }
        head + Keep(rest + b, p);
        { KeepAppend(rest, b, p); }
        head + (Keep(rest, p) + Keep(b, p));
        (head + Keep(rest, p)) + Keep(b, p);
        { KeepCons(x, rest, p); assert a == [x] + rest; }
        Keep(a, p) + Keep(b, p);
      }
    }
  }

  /** Every occurrence of an element that passes is kept; none of one that
      fails. */
  lemma {:induction false} KeepCount<T(!new)>(s: seq<T>, p: T -> bool, x: T)
    ensures multiset(Keep(s, p))[x] == if p(x) then multiset(s)[x] else 0
  {
    if s != [] {
      KeepCount(s[1..], p, x);
      assert s == [s[0]] + s[1..];
      KeepCons(s[0], s[1..], p);
    }
  }

  /** Filtering twice is filtering once by both conditions. */
  lemma {:induction false} KeepKeep<T(!new)>(s: seq<T>, p: T -> bool, q: T -> bool, both: T -> bool)
    requires forall x :: both(x) == (p(x) && q(x))
    ensures Keep(Keep(s, p), q) == Keep(s, both)
  {
    if s != [] {
      KeepKeep(s[1..], p, q, both);
      assert s == [s[0]] + s[1..];
      KeepCons(s[0], s[1..], p);
      KeepCons(s[0], s[1..], both);
      if p(s[0]) {
        KeepCons(s[0], Keep(s[1..], p), q);
      }
    }
  }
}
