/** String helpers the planner script relies on: ASCII lower-casing,
    JavaScript's `String.prototype.includes`, and global replacement of a
    literal pattern (`s.replace(/pat/g, rep)`). Strings are `seq<char>`. */
module Strings {

  /** Lower-cases one character; only the ASCII letters A-Z are affected. */
  function LowerChar(c: char): char {
    if 'A' <= c <= 'Z' then (c as int + 32) as char else c
  }

  predicate IsUpper(c: char) {
    'A' <= c <= 'Z'
  }

  /** `s.toLowerCase()`, restricted to ASCII. */
  function Lower(s: string): (r: string)
    ensures |r| == |s|
  {
    seq(|s|, i requires 0 <= i < |s| => LowerChar(s[i]))
  }

  lemma {:induction false} LowerIdempotent(s: string)
    ensures Lower(Lower(s)) == Lower(s)
  {
    var once := Lower(s);
    forall i | 0 <= i < |once| ensures Lower(once)[i] == once[i] {
      assert !IsUpper(once[i]);
    }
  }

  /** Lower-casing works character by character. */
  lemma LowerAppend(a: string, b: string)
    ensures Lower(a + b) == Lower(a) + Lower(b)
  {
  }

  /** A string without upper-case letters is its own lower-case form. */
  lemma LowerOfLower(s: string)
    requires forall i :: 0 <= i < |s| ==> !IsUpper(s[i])
    ensures Lower(s) == s
  {
  }

  /** `t` occurs in `s` starting at position `i`. */
  ghost predicate OccursAt(s: string, t: string, i: int) {
    0 <= i && i + |t| <= |s| && s[i..i + |t|] == t
  }

  /** `s` begins with `p`. */
  function StartsWith(s: string, p: string): (r: bool)
    ensures r <==> OccursAt(s, p, 0)
  {
    |p| <= |s| && s[..|p|] == p
  }

  /** JavaScript's `s.includes(t)`: `t` is a contiguous substring of `s`
      (the empty string is contained in every string). */
  function Includes(s: string, t: string): (r: bool)
    ensures r <==> exists i :: OccursAt(s, t, i)
    decreases |s|
  {
    if StartsWith(s, t) then true
    else if s == [] then false
    else
      OccursInTail(s, t);
      Includes(s[1..], t)
  }

  /** A string contains only strings whose first character it contains. */
  lemma IncludesFirstChar(s: string, t: string)
    requires |t| > 0 && t[0] !in s
    ensures !Includes(s, t)
  {
    assert forall i :: OccursAt(s, t, i) ==> s[i] == t[0];
  }

  /** An occurrence of `t` in `s` is either at the front or an occurrence in
      `s[1..]` shifted by one. */
  lemma OccursInTail(s: string, t: string)
    requires s != [] && !OccursAt(s, t, 0)
    ensures (exists i :: OccursAt(s, t, i)) <==> (exists i :: OccursAt(s[1..], t, i))
  {
    forall i | OccursAt(s[1..], t, i) ensures OccursAt(s, t, i + 1) {
      assert s[1..][i..i + |t|] == s[i + 1..i + 1 + |t|];
    }
    forall i | OccursAt(s, t, i) ensures OccursAt(s[1..], t, i - 1) {
      assert s[1..][i - 1..i - 1 + |t|] == s[i..i + |t|];
    }
  }

  /** `s.replace(/pat/g, rep)` for a literal, non-empty pattern: occurrences
      are found from left to right and do not overlap. */
  function ReplaceAll(s: string, pat: string, rep: string): string
    requires |pat| > 0
    decreases |s|
  {
    if s == [] then []
    else if StartsWith(s, pat) then rep + ReplaceAll(s[|pat|..], pat, rep)
    else [s[0]] + ReplaceAll(s[1..], pat, rep)
  }

  /** Replacement never lengthens a string when the replacement is no longer
      than the pattern, and keeps its length when the two are equally long. */
  lemma {:induction false} ReplaceAllLength(s: string, pat: string, rep: string)
    requires |pat| > 0
    ensures |rep| <= |pat| ==> |ReplaceAll(s, pat, rep)| <= |s|
    ensures |rep| == |pat| ==> |ReplaceAll(s, pat, rep)| == |s|
    decreases |s|
  {
    if s != [] {
      if StartsWith(s, pat) {
        ReplaceAllLength(s[|pat|..], pat, rep);
      } else {
        ReplaceAllLength(s[1..], pat, rep);
      }
    }
  }

  /** Replacement introduces no character other than those of `rep`. */
  lemma {:induction false} ReplaceAllChars(s: string, pat: string, rep: string, c: char)
    requires |pat| > 0
    ensures c in ReplaceAll(s, pat, rep) ==> c in s || c in rep
    decreases |s|
  {
    if s != [] {
      if StartsWith(s, pat) {
        ReplaceAllChars(s[|pat|..], pat, rep, c);
        assert c in s[|pat|..] ==> c in s;
      } else {
        ReplaceAllChars(s[1..], pat, rep, c);
        assert c in s[1..] ==> c in s;
      }
    }
  }

  /** Replacing a pattern that begins with a character `s` does not contain
      leaves `s` as it is. */
  lemma {:induction false} ReplaceAllAbsent(s: string, pat: string, rep: string)
    requires |pat| > 0 && pat[0] !in s
    ensures ReplaceAll(s, pat, rep) == s
    decreases |s|
  {
    if s != [] {
      assert s[0] != pat[0];
      assert pat[0] !in s[1..];
      ReplaceAllAbsent(s[1..], pat, rep);
    }
  }

  /** Global replacement copies a first character that does not start an
      occurrence. */
  lemma ReplaceAllMiss(c: char, t: string, pat: string, rep: string)
    requires |pat| > 0 && c != pat[0]
    ensures ReplaceAll([c] + t, pat, rep) == [c] + ReplaceAll(t, pat, rep)
  {
    var s := [c] + t;
    assert !StartsWith(s, pat);
    assert s[1..] == t;
  }

  /** Global replacement replaces an occurrence at the front. */
  lemma ReplaceAllHit(pat: string, rep: string, y: string)
    requires |pat| > 0
    ensures ReplaceAll(pat + y, pat, rep) == rep + ReplaceAll(y, pat, rep)
  {
    var s := pat + y;
    assert StartsWith(s, pat);
    assert s[|pat|..] == y;
  }

  /** Global replacement passes over a prefix that cannot start an
      occurrence and then replaces the occurrence that follows it. */
  lemma {:induction false} ReplaceAllSkip(x: string, pat: string, rep: string, y: string)
    requires |pat| > 0 && pat[0] !in x
    ensures ReplaceAll(x + pat + y, pat, rep) == x + rep + ReplaceAll(y, pat, rep)
    decreases |x|
  {
    if x == [] {
      assert x + pat + y == pat + y;
      ReplaceAllHit(pat, rep, y);
    } else {
      var c, t := x[0], x[1..];
      assert x + pat + y == [c] + (t + pat + y);
      assert pat[0] !in t;
      ReplaceAllMiss(c, t + pat + y, pat, rep);
      ReplaceAllSkip(t, pat, rep, y);
      assert x == [c] + t;
      assert [c] + (t + rep + ReplaceAll(y, pat, rep)) == x + rep + ReplaceAll(y, pat, rep);
    }
  }

  /** `s.replace(/c/g, d)` for a single character `c`. */
  function ReplaceChar(s: string, c: char, d: char): (r: string)
    ensures |r| == |s|
    ensures c != d ==> c !in r
    ensures forall i :: 0 <= i < |s| ==> r[i] == (if s[i] == c then d else s[i])
  {
    seq(|s|, i requires 0 <= i < |s| => if s[i] == c then d else s[i])
  }

  /** `ReplaceChar` agrees with the general global replacement. */
  lemma {:induction false} ReplaceCharIsReplaceAll(s: string, c: char, d: char)
    ensures ReplaceChar(s, c, d) == ReplaceAll(s, [c], [d])
    decreases |s|
  {
    if s != [] {
      ReplaceCharIsReplaceAll(s[1..], c, d);
      assert ReplaceChar(s, c, d) == [if s[0] == c then d else s[0]] + ReplaceChar(s[1..], c, d);
      if s[0] == c {
        assert StartsWith(s, [c]);
        assert s[|[c]|..] == s[1..];
      } else {
        assert !StartsWith(s, [c]);
      }
    }
  }
}
