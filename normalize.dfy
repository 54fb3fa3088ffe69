/** Gap normalisation of a pairwise alignment (normalize_gaps): every mismatch
    column becomes an insertion/deletion pair, and an optional pass pushes
    gaps to the right onto a matching base. */
module Normalize {
  import opened Gaps

  /** A pairwise alignment: the query-side and the target-side aligned strings. */
  datatype Aln = Aln(query: seq<char>, target: seq<char>)
  {
    predicate WellFormed() { |query| == |target| }

    /** No column holds two different bases. */
    predicate MismatchFree()
      requires WellFormed()
    {
      forall k :: 0 <= k < |query| ==> !IsMismatch(query[k], target[k])
    }
  }

  /** A column whose two characters are bases that differ. */
  predicate IsMismatch(qc: char, tc: char)
  {
    qc != tc && qc != Gap && tc != Gap
  }

  /** Number of mismatch columns of an alignment. */
  function MismatchCount(q: seq<char>, t: seq<char>): (n: nat)
    requires |q| == |t|
    ensures n <= |q|
  {
    if q == [] then 0
    else MismatchCount(q[..|q| - 1], t[..|t| - 1]) + (if IsMismatch(q[|q| - 1], t[|t| - 1]) then 1 else 0)
  }

  /** The output columns for one input column: a mismatch becomes `(-, qc)`
      followed by `(tc, -)`, any other column is copied. */
  function Column(qc: char, tc: char): (r: Aln)
    ensures r.WellFormed() && r.MismatchFree() && 1 <= |r.query| <= 2
  {
    if IsMismatch(qc, tc) then Aln([Gap, qc], [tc, Gap]) else Aln([qc], [tc])
  }

  /** The first pass of normalize_gaps over the whole alignment, column by
      column from the left. */
  function Expand(a: Aln): (r: Aln)
    requires a.WellFormed()
    ensures r.WellFormed() && |r.query| >= |a.query|
    decreases |a.query|
  {
    if a.query == [] then Aln([], [])
    else
      var n := |a.query| - 1;
      var front := Expand(Aln(a.query[..n], a.target[..n]));
      var col := Column(a.query[n], a.target[n]);
      Aln(front.query + col.query, front.target + col.target)
  }

  /** Both sides of the expansion have the input's length plus one per mismatch. */
  lemma {:induction false} ExpandLength(a: Aln)
    requires a.WellFormed()
    ensures |Expand(a).query| == |a.query| + MismatchCount(a.query, a.target)
    ensures |Expand(a).target| == |a.query| + MismatchCount(a.query, a.target)
    decreases |a.query|
  {
    if a.query != [] {
      var n := |a.query| - 1;
      ExpandLength(Aln(a.query[..n], a.target[..n]));
    }
  }

  /** A non-empty string is its front followed by its last character. */
  lemma DropLast(s: seq<char>)
    requires s != []
    ensures s == s[..|s| - 1] + [s[|s| - 1]]
  {
  }

  /** The output columns of one input column spell the same two reads as it. */
  lemma ColumnDegap(qc: char, tc: char)
    ensures Degap(Column(qc, tc).query) == Degap([qc])
    ensures Degap(Column(qc, tc).target) == Degap([tc])
  {
    if IsMismatch(qc, tc) {
      assert Column(qc, tc).query == [Gap] + [qc];
      assert Column(qc, tc).target == [tc] + [Gap];
      DegapAppend([Gap], [qc]);
      DegapAppend([tc], [Gap]);
    }
  }

  /** The expansion spells the same two reads as its input. */
  lemma {:induction false} ExpandDegap(a: Aln)
    requires a.WellFormed()
    ensures Degap(Expand(a).query) == Degap(a.query)
    ensures Degap(Expand(a).target) == Degap(a.target)
    decreases |a.query|
  {
    if a.query != [] {
      var n := |a.query| - 1;
      var front := Aln(a.query[..n], a.target[..n]);
      var col := Column(a.query[n], a.target[n]);
      var f := Expand(front);
      assert Expand(a) == Aln(f.query + col.query, f.target + col.target);
      ExpandDegap(front);
      ColumnDegap(a.query[n], a.target[n]);
      DegapAppend(f.query, col.query);
      DegapAppend(f.target, col.target);
      DropLast(a.query);
      DropLast(a.target);
      DegapAppend(front.query, [a.query[n]]);
      DegapAppend(front.target, [a.target[n]]);
    }
  }

  /** The expansion is well formed and holds no mismatch column. */
  lemma {:induction false} ExpandMismatchFree(a: Aln)
    requires a.WellFormed()
    ensures Expand(a).WellFormed() && Expand(a).MismatchFree()
    decreases |a.query|
  {
    ExpandLength(a);
    if a.query != [] {
      var n := |a.query| - 1;
      var front := Aln(a.query[..n], a.target[..n]);
      ExpandMismatchFree(front);
      var e := Expand(a);
      var f := Expand(front);
      var col := Column(a.query[n], a.target[n]);
      forall k | 0 <= k < |e.query|
        ensures !IsMismatch(e.query[k], e.target[k])
      {
        if k < |f.query| {
          assert e.query[k] == f.query[k] && e.target[k] == f.target[k];
        } else {
          assert e.query[k] == col.query[k - |f.query|] && e.target[k] == col.target[k - |f.query|];
        }
      }
    }
  }

  /** An alignment without mismatches is its own expansion, so the expansion
      is idempotent. */
  lemma {:induction false} ExpandMismatchFreeIdentity(a: Aln)
    requires a.WellFormed() && a.MismatchFree()
    ensures Expand(a) == a
    decreases |a.query|
  {
    if a.query != [] {
      var n := |a.query| - 1;
      var front := Aln(a.query[..n], a.target[..n]);
      assert !IsMismatch(a.query[n], a.target[n]);
      assert front.MismatchFree() by {
        forall k | 0 <= k < n ensures !IsMismatch(front.query[k], front.target[k]) {
          assert front.query[k] == a.query[k] && front.target[k] == a.target[k];
        }
      }
      ExpandMismatchFreeIdentity(front);
      DropLast(a.query);
      DropLast(a.target);
    }
  }

  /** The worked example: `ACGT`/`AGGT` becomes `A-CGT`/`AG-GT`. */
  lemma ExpandExample()
    ensures Expand(Aln("ACGT", "AGGT")) == Aln("A-CGT", "AG-GT")
  {
    assert "ACGT"[..3] == "ACG" && "AGGT"[..3] == "AGG";
    assert "ACG"[..2] == "AC" && "AGG"[..2] == "AG";
    assert "AC"[..1] == "A" && "AG"[..1] == "A";
    assert "A"[..0] == [];
  }

  /** The first index at or after `j` whose character is not a gap, or `|s|`
      when the rest of `s` is all gaps (the scan of .cpp:44-53 and .cpp:58-67). */
  function NextNonGap(s: seq<char>, j: nat): (k: nat)
    requires j <= |s|
    ensures j <= k <= |s|
    ensures k < |s| ==> s[k] != Gap
    ensures forall m :: j <= m < k ==> s[m] == Gap
    decreases |s| - j
  {
    if j == |s| || s[j] != Gap then j else NextNonGap(s, j + 1)
  }

  /** One push step on one side: a gap at `i` trades places with the first
      non-gap character to its right when that character equals `other[i]`.
      Reaching the end of the string makes no change. */
  function PushGap(s: seq<char>, other: seq<char>, i: nat): (r: seq<char>)
    requires i < |s| && i < |other|
    ensures |r| == |s|
  {
    if s[i] != Gap then s
    else
      var j := NextNonGap(s, i + 1);
      if j < |s| && s[j] == other[i] then s[i := s[j]][j := Gap] else s
  }

  /** Column `i` of the push pass: first the target side against the query,
      then the query side against the updated target. */
  function PushColumn(a: Aln, i: nat): (r: Aln)
    requires a.WellFormed() && i < |a.query|
    ensures r.WellFormed() && |r.query| == |a.query|
  {
    var t := PushGap(a.target, a.query, i);
    Aln(PushGap(a.query, t, i), t)
  }

  /** The push pass from column `i` up to, but excluding, the last column. */
  function PushFrom(a: Aln, i: nat): (r: Aln)
    requires a.WellFormed()
    ensures r.WellFormed() && |r.query| == |a.query|
    decreases |a.query| - i
  {
    if i + 1 < |a.query| then PushFrom(PushColumn(a, i), i + 1) else a
  }

  /** What normalize_gaps leaves in `qnorm`/`tnorm`. */
  function Normalized(a: Aln, push: bool): (r: Aln)
    requires a.WellFormed()
    ensures r.WellFormed() && r.MismatchFree()
  {
    ExpandMismatchFree(a);
    PushFromPreserves(Expand(a), 0);
    if push then PushFrom(Expand(a), 0) else Expand(a)
  }

  /** Moving a base leftwards across a run of gaps does not change the read spelled. */
  lemma SwapAcrossGaps(p: seq<char>, g: seq<char>, r: seq<char>, c: char)
    requires forall k :: 0 <= k < |g| ==> g[k] == Gap
    requires c != Gap
    ensures Degap(p + [Gap] + g + [c] + r) == Degap(p + [c] + g + [Gap] + r)
  {
    DegapOfGaps(g);
    assert Degap([Gap]) == [];
    assert Degap([c]) == [c];
    DegapAppend(p + [Gap] + g + [c], r);
    DegapAppend(p + [Gap] + g, [c]);
    DegapAppend(p + [Gap], g);
    DegapAppend(p, [Gap]);
    DegapAppend(p + [c] + g + [Gap], r);
    DegapAppend(p + [c] + g, [Gap]);
    DegapAppend(p + [c], g);
    DegapAppend(p, [c]);
  }

  /** The shape of a string around positions `i < j`, before and after the
      characters there are replaced by `x` and `y`. */
  lemma SwapShape(s: seq<char>, i: nat, j: nat)
    requires i < j < |s|
    ensures s == s[..i] + [s[i]] + s[i + 1..j] + [s[j]] + s[j + 1..]
    ensures s[i := s[j]][j := Gap] == s[..i] + [s[j]] + s[i + 1..j] + [Gap] + s[j + 1..]
  {
    Split(s, i, j, s[i], s[j]);
    Split(s, i, j, s[j], Gap);
  }

  /** Two point updates at `i < j`, written as concatenated pieces. */
  lemma Split(s: seq<char>, i: nat, j: nat, x: char, y: char)
    requires i < j < |s|
    ensures s[i := x][j := y] == s[..i] + [x] + s[i + 1..j] + [y] + s[j + 1..]
  {
    var r := s[i := x][j := y];
    var t := s[..i] + [x] + s[i + 1..j] + [y] + s[j + 1..];
    assert |r| == |t|;
    forall k | 0 <= k < |r| ensures r[k] == t[k] {
      if k < i {
      } else if k == i {
      } else if k < j {
        assert t[k] == s[i + 1..j][k - i - 1];
      } else if k == j {
      } else {
        assert t[k] == s[j + 1..][k - j - 1];
      }
    }
  }

  /** A push step swaps a gap with a later character across a run of gaps,
      so the read spelled by that side does not change. */
  lemma PushGapDegap(s: seq<char>, other: seq<char>, i: nat)
    requires i < |s| && i < |other|
    ensures Degap(PushGap(s, other, i)) == Degap(s)
  {
    if s[i] == Gap {
      var j := NextNonGap(s, i + 1);
      if j < |s| && s[j] == other[i] {
        var pre, gaps, c, post := s[..i], s[i + 1..j], s[j], s[j + 1..];
        SwapShape(s, i, j);
        SwapAcrossGaps(pre, gaps, post, c);
      }
    }
  }

  /** A push step on the target side never creates a mismatch: the character
      moved into column `i` equals the query's, and a gap is left behind. */
  lemma PushColumnMismatchFree(a: Aln, i: nat)
    requires a.WellFormed() && a.MismatchFree() && i < |a.query|
    ensures PushColumn(a, i).MismatchFree()
  {
    var t := PushGap(a.target, a.query, i);
    var q := PushGap(a.query, t, i);
    forall k | 0 <= k < |t| ensures !IsMismatch(a.query[k], t[k]) {
      if t[k] != a.target[k] {
        assert t[k] == Gap || t[k] == a.query[k];
      }
    }
    forall k | 0 <= k < |q| ensures !IsMismatch(q[k], t[k]) {
      if q[k] != a.query[k] {
        assert q[k] == Gap || q[k] == t[k];
      }
    }
  }

  /** The push pass keeps both lengths, both spelled reads and the absence
      of mismatch columns. */
  lemma {:induction false} PushFromPreserves(a: Aln, i: nat)
    requires a.WellFormed() && a.MismatchFree()
    ensures PushFrom(a, i).WellFormed() && PushFrom(a, i).MismatchFree()
    ensures |PushFrom(a, i).query| == |a.query|
    ensures Degap(PushFrom(a, i).query) == Degap(a.query)
    ensures Degap(PushFrom(a, i).target) == Degap(a.target)
    decreases |a.query| - i
  {
    if i + 1 < |a.query| {
      var b := PushColumn(a, i);
      var t := PushGap(a.target, a.query, i);
      PushGapDegap(a.target, a.query, i);
      PushGapDegap(a.query, t, i);
      PushColumnMismatchFree(a, i);
      PushFromPreserves(b, i + 1);
    }
  }

  /** The promises of normalize_gaps: equal output lengths, the same number of
      non-gap characters on each side (indeed the same spelled reads), no
      mismatch column left, and without push exactly one extra column per
      mismatch. */
  lemma NormalizedProperties(a: Aln, push: bool)
    requires a.WellFormed()
    ensures Normalized(a, push).WellFormed() && Normalized(a, push).MismatchFree()
    ensures Degap(Normalized(a, push).query) == Degap(a.query)
    ensures Degap(Normalized(a, push).target) == Degap(a.target)
    ensures |Normalized(a, push).query| == |a.query| + MismatchCount(a.query, a.target)
  {
    ExpandLength(a);
    ExpandDegap(a);
    ExpandMismatchFree(a);
    if push {
      PushFromPreserves(Expand(a), 0);
    }
  }

  /** The scan-and-swap of one side at column `i`, as written twice in the
      source (.cpp:42-54 for the target, .cpp:56-68 for the query). */
  method PushGapAt(s: seq<char>, other: seq<char>, i: nat) returns (r: seq<char>)
    requires i < |s| && i < |other|
    ensures r == PushGap(s, other, i)
  {
    r := s;
    if s[i] == Gap {
      var j := i + 1;
      while j < |s| && s[j] == Gap
        invariant i + 1 <= j <= |s|
        invariant NextNonGap(s, j) == NextNonGap(s, i + 1)
        decreases |s| - j
      {
        j := j + 1;
      }
      // at j == |s| the source reads the string's terminating NUL, which
      // never equals a base, so nothing is swapped
      if j < |s| && s[j] == other[i] {
        r := s[i := s[j]][j := Gap];
      }
    }
  }

  /** The first loop of normalize_gaps (.cpp:21-32): output columns are
      appended to strings that start empty. */
  method ExpandColumns(qstr: seq<char>, tstr: seq<char>) returns (qnorm: seq<char>, tnorm: seq<char>)
    requires |qstr| == |tstr|
    ensures Aln(qnorm, tnorm) == Expand(Aln(qstr, tstr))
  {
    qnorm, tnorm := [], [];
    var i := 0;
    while i < |qstr|
      invariant 0 <= i <= |qstr|
      invariant Aln(qnorm, tnorm) == Expand(Aln(qstr[..i], tstr[..i]))
    {
      var qc, tc := qstr[i], tstr[i];
      if qc != tc && qc != Gap && tc != Gap {
        qnorm := qnorm + [Gap, qc];
        tnorm := tnorm + [tc, Gap];
      } else {
        qnorm := qnorm + [qc];
        tnorm := tnorm + [tc];
      }
      assert qstr[..i + 1][..i] == qstr[..i] && tstr[..i + 1][..i] == tstr[..i];
      i := i + 1;
    }
    assert qstr[..i] == qstr && tstr[..i] == tstr;
  }

  /** The push loop of normalize_gaps (.cpp:35-70): columns `0` to `len - 2`,
      each pushing the target gap and then the query gap. */
  method PushGaps(qIn: seq<char>, tIn: seq<char>) returns (qnorm: seq<char>, tnorm: seq<char>)
    requires |qIn| == |tIn|
    ensures Aln(qnorm, tnorm) == PushFrom(Aln(qIn, tIn), 0)
  {
    qnorm, tnorm := qIn, tIn;
    var len := |qnorm|;
    var k := 0;
    while k + 1 < len
      invariant |qnorm| == |tnorm| == len
      invariant PushFrom(Aln(qnorm, tnorm), k) == PushFrom(Aln(qIn, tIn), 0)
    {
      tnorm := PushGapAt(tnorm, qnorm, k);
      qnorm := PushGapAt(qnorm, tnorm, k);
      k := k + 1;
    }
  }

  /** normalize_gaps: `qnorm`/`tnorm` are rebuilt from empty; mismatches are
      split into indel pairs, then, when `push` is set, gaps are pushed right. */
  method NormalizeGaps(qstr: seq<char>, tstr: seq<char>, push: bool) returns (qnorm: seq<char>, tnorm: seq<char>)
    requires |qstr| == |tstr|
    ensures Aln(qnorm, tnorm) == Normalized(Aln(qstr, tstr), push)
    ensures |qnorm| == |tnorm|
    ensures |Degap(qnorm)| == |Degap(qstr)| && |Degap(tnorm)| == |Degap(tstr)|
    ensures !push ==> |qnorm| == |qstr| + MismatchCount(qstr, tstr)
  {
    qnorm, tnorm := ExpandColumns(qstr, tstr);
    ExpandMismatchFree(Aln(qstr, tstr));
    if push {
      qnorm, tnorm := PushGaps(qnorm, tnorm);
    }
    NormalizedProperties(Aln(qstr, tstr), push);
  }
}
