/** Aligned strings and their gap symbol, shared by the normaliser and the
    alignment pool. */
module Gaps {

  /** The gap symbol of an aligned string (`kGap` in normalize_gaps, `GAP` in CnsAln). */
  const Gap: char := '-'

  /** The characters of an aligned string with its gaps removed: the read it spells. */
  function Degap(s: seq<char>): (r: seq<char>)
    ensures |r| <= |s|
  {
    if s == [] then [] else (if s[0] == Gap then [] else [s[0]]) + Degap(s[1..])
  }

  /** Removing gaps distributes over concatenation. */
  lemma {:induction false} DegapAppend(a: seq<char>, b: seq<char>)
    ensures Degap(a + b) == Degap(a) + Degap(b)
  {
    if a == [] {
      assert a + b == b;
    } else {
      assert (a + b)[1..] == a[1..] + b;
      DegapAppend(a[1..], b);
    }
  }

  /** A run made only of gaps spells nothing. */
  lemma {:induction false} DegapOfGaps(s: seq<char>)
    requires forall k :: 0 <= k < |s| ==> s[k] == Gap
    ensures Degap(s) == []
  {
    if s != [] {
      DegapOfGaps(s[1..]);
    }
  }

  /** A slice grows by one element at its end. */
  lemma SliceSnoc(s: seq<char>, a: int, b: int)
    requires 0 <= a <= b < |s|
    ensures s[a..b + 1] == s[a..b] + [s[b]]
  {
  }
}
