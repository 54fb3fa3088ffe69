/** Masking of low-identity positions of an aligned pair (slide_window2): a
    window of width `k` slides along two equal-length strings, and a position
    whose window matches too rarely is overwritten in the copy of the first
    string with the sentinel `N`. */
module SlideWindow {

  /** The sentinel written over a position of low local identity. */
  const Mask: char := 'N'

  /** Number of positions `x` in `[lo, hi)` where `a[x] == b[x]`. */
  function MatchCount(a: seq<char>, b: seq<char>, lo: int, hi: int): (c: nat)
    requires 0 <= lo <= hi <= |a| && |a| == |b|
    ensures c <= hi - lo
    decreases hi - lo
  {
    if lo == hi then 0 else (if a[lo] == b[lo] then 1 else 0) + MatchCount(a, b, lo + 1, hi)
  }

  /** Extending a window on the right adds one if the new pair matches. */
  lemma {:induction false} MatchCountExtend(a: seq<char>, b: seq<char>, lo: int, hi: int)
    requires 0 <= lo <= hi < |a| && |a| == |b|
    ensures MatchCount(a, b, lo, hi + 1) == MatchCount(a, b, lo, hi) + (if a[hi] == b[hi] then 1 else 0)
    decreases hi - lo
  {
    if lo < hi {
      MatchCountExtend(a, b, lo + 1, hi);
    }
  }

  /** Every pair of a string with itself matches. */
  lemma {:induction false} MatchCountSelf(a: seq<char>, lo: int, hi: int)
    requires 0 <= lo <= hi <= |a|
    ensures MatchCount(a, a, lo, hi) == hi - lo
    decreases hi - lo
  {
    if lo < hi {
      MatchCountSelf(a, lo + 1, hi);
    }
  }

  /** Width of the window that starts at `i`: `k`, shrinking to `len - i` once
      fewer than `k` positions remain. */
  function WindowSize(len: int, k: int, i: int): int
  {
    if i + k <= len then k else len - i
  }

  /** The window of a position inside the string is never empty and never wider than `k`. */
  lemma WindowSizeBounds(len: int, k: int, i: int)
    requires 1 <= k && 0 <= i < len
    ensures 1 <= WindowSize(len, k, i) <= k && i + WindowSize(len, k, i) <= len
  {
  }

  /** The identity `same_base / w` of a window of width `w`, computed exactly. */
  function Identity(matches: int, w: int): real
    requires w > 0
  {
    matches as real / w as real
  }

  /** The window starting at `i` matches in a fraction below `tau` of its positions. */
  predicate LowIdentity(a: seq<char>, b: seq<char>, k: int, tau: real, i: int)
    requires |a| == |b| && 1 <= k && 0 <= i < |a|
  {
    var w := WindowSize(|a|, k, i);
    Identity(MatchCount(a, b, i, i + w), w) < tau
  }

  /** An identity lies between 0 and 1, so no window has low identity under a
      threshold of at most 0, and every window has under a threshold above 1. */
  lemma LowIdentityRange(a: seq<char>, b: seq<char>, k: int, tau: real, i: int)
    requires |a| == |b| && 1 <= k && 0 <= i < |a|
    ensures LowIdentity(a, b, k, tau, i) ==> tau > 0.0
    ensures tau > 1.0 ==> LowIdentity(a, b, k, tau, i)
  {
    var w := WindowSize(|a|, k, i);
    WindowSizeBounds(|a|, k, i);
    IdentityBounds(MatchCount(a, b, i, i + w), w);
  }

  /** The identity of a window lies between 0 and 1, and is 1 when every pair matches. */
  lemma IdentityBounds(matches: int, w: int)
    requires 0 <= matches <= w && w > 0
    ensures 0.0 <= Identity(matches, w) <= 1.0
    ensures matches == w ==> Identity(matches, w) == 1.0
  {
    var m, n := matches as real, w as real;
    assert Identity(matches, w) * n == m;
  }

  /** The masked copy of `a`: each position of low identity becomes `N`,
      every other position keeps its character. */
  function Masked(a: seq<char>, b: seq<char>, k: int, tau: real): seq<char>
    requires |a| == |b| && 1 <= k
  {
    seq(|a|, i requires 0 <= i < |a| => if LowIdentity(a, b, k, tau, i) then Mask else a[i])
  }

  /** The masked copy has the length of `a`, and a position differs from `a`
      exactly when its window has low identity and `a` did not already hold `N`. */
  lemma MaskedAt(a: seq<char>, b: seq<char>, k: int, tau: real, i: int)
    requires |a| == |b| && 1 <= k && 0 <= i < |a|
    ensures |Masked(a, b, k, tau)| == |a|
    ensures Masked(a, b, k, tau)[i] == Mask || Masked(a, b, k, tau)[i] == a[i]
    ensures Masked(a, b, k, tau)[i] == Mask <==> LowIdentity(a, b, k, tau, i) || a[i] == Mask
  {
  }

  /** Identical strings are never masked when the threshold is at most 1. */
  lemma MaskedIdentical(a: seq<char>, k: int, tau: real)
    requires 1 <= k && tau <= 1.0
    ensures Masked(a, a, k, tau) == a
  {
    forall i | 0 <= i < |a|
      ensures !LowIdentity(a, a, k, tau, i)
    {
      var w := WindowSize(|a|, k, i);
      WindowSizeBounds(|a|, k, i);
      MatchCountSelf(a, i, i + w);
      IdentityBounds(w, w);
    }
  }

  /** Raising the threshold only adds masked positions. */
  lemma MaskedMonotone(a: seq<char>, b: seq<char>, k: int, tau1: real, tau2: real, i: int)
    requires |a| == |b| && 1 <= k && tau1 <= tau2 && 0 <= i < |a|
    requires Masked(a, b, k, tau1)[i] == Mask
    ensures Masked(a, b, k, tau2)[i] == Mask
  {
  }

  /** A window without a single matching pair is masked under any positive threshold. */
  lemma NoMatchMasked(a: seq<char>, b: seq<char>, k: int, tau: real, i: int)
    requires |a| == |b| && 1 <= k && 0 <= i < |a| && 0.0 < tau
    requires forall x :: i <= x < i + WindowSize(|a|, k, i) ==> a[x] != b[x]
    ensures Masked(a, b, k, tau)[i] == Mask
  {
    var w := WindowSize(|a|, k, i);
    WindowSizeBounds(|a|, k, i);
    NoMatchCount(a, b, i, i + w);
  }

  /** A range without a matching pair counts zero matches. */
  lemma {:induction false} NoMatchCount(a: seq<char>, b: seq<char>, lo: int, hi: int)
    requires 0 <= lo <= hi <= |a| && |a| == |b|
    requires forall x :: lo <= x < hi ==> a[x] != b[x]
    ensures MatchCount(a, b, lo, hi) == 0
    decreases hi - lo
  {
    if lo < hi {
      NoMatchCount(a, b, lo + 1, hi);
    }
  }

  /** `r` is the masked copy of `a` on the positions before `n` and still `a`
      from `n` on. */
  predicate MaskedBefore(a: seq<char>, b: seq<char>, k: int, tau: real, r: seq<char>, n: int)
    requires |a| == |b| && 1 <= k
  {
    && |r| == |a| && 0 <= n <= |a|
    && (forall y :: 0 <= y < n ==> r[y] == Masked(a, b, k, tau)[y])
    && (forall y :: n <= y < |a| ==> r[y] == a[y])
  }

  /** Masking position `n` when its window has low identity extends the
      masked part by one position. */
  lemma MaskNext(a: seq<char>, b: seq<char>, k: int, tau: real, r: seq<char>, n: int)
    requires |a| == |b| && 1 <= k && n < |a| && MaskedBefore(a, b, k, tau, r, n)
    ensures MaskedBefore(a, b, k, tau, if LowIdentity(a, b, k, tau, n) then r[n := Mask] else r, n + 1)
  {
    MaskedAt(a, b, k, tau, n);
  }

  /** A fully masked-before copy is the masked copy. */
  lemma MaskedBeforeAll(a: seq<char>, b: seq<char>, k: int, tau: real, r: seq<char>)
    requires |a| == |b| && 1 <= k && MaskedBefore(a, b, k, tau, r, |a|)
    ensures r == Masked(a, b, k, tau)
  {
  }

  /** slide_window2. When the lengths differ it returns at once and `newstr1`
      keeps the value it came in with; otherwise `newstr1` becomes the masked
      copy of `str1`: the first window, then the full windows, then the
      shrinking windows of the tail. */
  method SlideWindow2(str1: seq<char>, str2: seq<char>, newstr1In: seq<char>, k: int, identityThreshold: real)
    returns (newstr1: seq<char>)
    requires |str1| == |str2| ==> 1 <= k <= |str1|
    ensures |str1| != |str2| ==> newstr1 == newstr1In
    ensures |str1| == |str2| ==> newstr1 == Masked(str1, str2, k, identityThreshold)
  {
    if |str1| != |str2| {
      return newstr1In;
    }
    newstr1 := str1;
    var sameBase := FirstWindowMatches(str1, str2, k);
    MaskNext(str1, str2, k, identityThreshold, newstr1, 0);
    if Identity(sameBase, k) < identityThreshold {
      newstr1 := newstr1[0 := Mask];
    }
    newstr1, sameBase := MaskFullWindows(str1, str2, k, identityThreshold, newstr1, sameBase);
    newstr1 := MaskTail(str1, str2, k, identityThreshold, newstr1, sameBase);
    MaskedBeforeAll(str1, str2, k, identityThreshold, newstr1);
  }

  /** The first loop of slide_window2: `same_base` over the window `[0, k)`. */
  method FirstWindowMatches(str1: seq<char>, str2: seq<char>, k: int) returns (sameBase: int)
    requires |str1| == |str2| && 0 <= k <= |str1|
    ensures sameBase == MatchCount(str1, str2, 0, k)
  {
    sameBase := 0;
    var x := 0;
    while x < k
      invariant 0 <= x <= k
      invariant sameBase == MatchCount(str1, str2, 0, x)
    {
      MatchCountExtend(str1, str2, 0, x);
      if str1[x] == str2[x] {
        sameBase := sameBase + 1;
      }
      x := x + 1;
    }
  }

  /** The second loop of slide_window2: the full windows `[index, index + k)`
      for `index` from 1 to `len - k`. The window's first and last pairs are
      compared directly where the source compares one-character substrings. */
  method MaskFullWindows(str1: seq<char>, str2: seq<char>, k: int, tau: real, r0: seq<char>, sameBase0: int)
    returns (newstr1: seq<char>, sameBase: int)
    requires |str1| == |str2| && 1 <= k <= |str1|
    requires sameBase0 == MatchCount(str1, str2, 0, k) && MaskedBefore(str1, str2, k, tau, r0, 1)
    ensures sameBase == MatchCount(str1, str2, |str1| - k, |str1|)
    ensures MaskedBefore(str1, str2, k, tau, newstr1, |str1| - k + 1)
  {
    newstr1, sameBase := r0, sameBase0;
    var index := 1;
    while index <= |str1| - k
      invariant 1 <= index <= |str1| - k + 1
      invariant sameBase == MatchCount(str1, str2, index - 1, index - 1 + k)
      invariant MaskedBefore(str1, str2, k, tau, newstr1, index)
    {
      if str1[index - 1] == str2[index - 1] {
        sameBase := sameBase - 1;
      }
      MatchCountExtend(str1, str2, index, index - 1 + k);
      if str1[index + k - 1] == str2[index + k - 1] {
        sameBase := sameBase + 1;
      }
      MaskNext(str1, str2, k, tau, newstr1, index);
      if Identity(sameBase, k) < tau {
        newstr1 := newstr1[index := Mask];
      }
      index := index + 1;
    }
  }

  /** The third loop of slide_window2: the tail, where the window
      `[index, len)` shrinks by one position per step. */
  method MaskTail(str1: seq<char>, str2: seq<char>, k: int, tau: real, r0: seq<char>, sameBase0: int)
    returns (newstr1: seq<char>)
    requires |str1| == |str2| && 1 <= k <= |str1|
    requires sameBase0 == MatchCount(str1, str2, |str1| - k, |str1|)
    requires MaskedBefore(str1, str2, k, tau, r0, |str1| - k + 1)
    ensures MaskedBefore(str1, str2, k, tau, newstr1, |str1|)
  {
    var len := |str1|;
    newstr1 := r0;
    var sameBase := sameBase0;
    var newk := k;
    var index := len - newk + 1;
    while index < len && newk > 0
      invariant len - k + 1 <= index <= len
      invariant newk == len - index + 1
      invariant sameBase == MatchCount(str1, str2, index - 1, len)
      invariant MaskedBefore(str1, str2, k, tau, newstr1, index)
    {
      if str1[index - 1] == str2[index - 1] {
        sameBase := sameBase - 1;
      }
      newk := newk - 1;
      MaskNext(str1, str2, k, tau, newstr1, index);
      if Identity(sameBase, newk) < tau {
        newstr1 := newstr1[index := Mask];
      }
      index := index + 1;
    }
  }
}
