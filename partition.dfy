/** Partitioning of the extension candidates among worker threads
    (build_cns_thrd_data_can): sort by target id, then cut the array into
    contiguous slices whose target-id boundary advances by
    `ceil(num_reads / num_threads)` per slice. */
module Partition {

  /** One (target read, query read) pair to align; `sid` is the target read id. */
  datatype ExtensionCandidate = ExtensionCandidate(sid: int, qid: int)

  /** A worker's share of the sorted candidates: its thread id and the slice
      `[offset, offset + numCandidates)` it owns (`ec + i`, `j - i`). */
  datatype ConsensusThreadData = ConsensusThreadData(threadId: int, offset: int, numCandidates: int)

  /** CmpExtensionCandidateBySid: orders candidates by target id. */
  predicate CmpExtensionCandidateBySid(a: ExtensionCandidate, b: ExtensionCandidate)
  {
    a.sid < b.sid
  }

  /** The comparator is a strict weak ordering, as std::sort requires. */
  lemma CmpIsStrictWeakOrder(a: ExtensionCandidate, b: ExtensionCandidate, c: ExtensionCandidate)
    ensures !CmpExtensionCandidateBySid(a, a)
    ensures CmpExtensionCandidateBySid(a, b) && CmpExtensionCandidateBySid(b, c) ==> CmpExtensionCandidateBySid(a, c)
    ensures !CmpExtensionCandidateBySid(a, b) && !CmpExtensionCandidateBySid(b, a)
         && !CmpExtensionCandidateBySid(b, c) && !CmpExtensionCandidateBySid(c, b)
         ==> !CmpExtensionCandidateBySid(a, c) && !CmpExtensionCandidateBySid(c, a)
  {
  }

  /** No candidate is ordered before an earlier one. */
  predicate SortedBySid(s: seq<ExtensionCandidate>)
  {
    forall i, j :: 0 <= i < j < |s| ==> !CmpExtensionCandidateBySid(s[j], s[i])
  }

  /** Exchanges two elements. */
  method Swap(a: array<ExtensionCandidate>, i: int, j: int)
    requires 0 <= i < a.Length && 0 <= j < a.Length
    modifies a
    ensures a[i] == old(a[j]) && a[j] == old(a[i])
    ensures forall m :: 0 <= m < a.Length && m != i && m != j ==> a[m] == old(a[m])
    ensures multiset(a[..]) == old(multiset(a[..]))
  {
    a[i], a[j] := a[j], a[i];
  }

  /** std::sort with CmpExtensionCandidateBySid: afterwards the array is some
      permutation of its old contents that is sorted by target id (the order of
      candidates with equal ids is not specified). */
  method SortBySid(a: array<ExtensionCandidate>)
    modifies a
    ensures SortedBySid(a[..])
    ensures multiset(a[..]) == old(multiset(a[..]))
  {
    var i := 0;
    while i < a.Length
      invariant 0 <= i <= a.Length
      invariant SortedBySid(a[..i])
      invariant multiset(a[..]) == old(multiset(a[..]))
    {
      var j := i;
      while j > 0 && CmpExtensionCandidateBySid(a[j], a[j - 1])
        invariant 0 <= j <= i
        invariant forall x, y :: 0 <= x < y <= i && x != j && y != j ==> !CmpExtensionCandidateBySid(a[y], a[x])
        invariant forall y :: j < y <= i ==> !CmpExtensionCandidateBySid(a[y], a[j])
        invariant multiset(a[..]) == old(multiset(a[..]))
      {
        Swap(a, j - 1, j);
        j := j - 1;
      }
      i := i + 1;
    }
  }

  /** C integer division, which truncates toward zero. */
  function DivTrunc(a: int, b: int): int
    requires b > 0
  {
    if a >= 0 then a / b else -((-a) / b)
  }

  /** The quotient is rounded toward zero: down for a non-negative
      dividend, up for a negative one. */
  lemma DivTruncTowardZero(a: int, b: int)
    requires b > 0
    ensures a >= 0 ==> DivTrunc(a, b) * b <= a < DivTrunc(a, b) * b + b
    ensures a < 0 ==> DivTrunc(a, b) * b - b < a <= DivTrunc(a, b) * b
  {
  }

  /** `num_reads_per_thread`: the ceiling of the id range over the thread count. */
  function ReadsPerThread(minRid: int, maxRid: int, numThreads: int): int
    requires numThreads >= 1
  {
    DivTrunc((maxRid - minRid + 1) + numThreads - 1, numThreads)
  }

  /** When the id range is not empty the span is at least one and the
      threads' spans together cover the whole range. */
  lemma ReadsPerThreadCeil(minRid: int, maxRid: int, numThreads: int)
    requires numThreads >= 1 && minRid <= maxRid
    ensures ReadsPerThread(minRid, maxRid, numThreads) >= 1
    ensures ReadsPerThread(minRid, maxRid, numThreads) * numThreads >= maxRid - minRid + 1
  {
    DivTruncTowardZero((maxRid - minRid + 1) + numThreads - 1, numThreads);
  }

  /** The end of a slice: the first index at or after `j` whose target id is
      at or past `bound` (the inner loop at .cpp:201). */
  function SliceEnd(s: seq<ExtensionCandidate>, j: nat, bound: int): (k: nat)
    requires j <= |s|
    ensures j <= k <= |s|
    ensures forall m :: j <= m < k ==> s[m].sid < bound
    ensures k < |s| ==> s[k].sid >= bound
    decreases |s| - j
  {
    if j < |s| && s[j].sid < bound then SliceEnd(s, j + 1, bound) else j
  }

  /** The slices made from index `i` on, `maxId` being the boundary of the
      previous slice and `tid` the next thread id (the outer loop at .cpp:197-205):
      each slice takes its first candidate unconditionally. */
  function SlicesFrom(s: seq<ExtensionCandidate>, i: nat, maxId: int, span: int, tid: int): (r: seq<ConsensusThreadData>)
    requires i <= |s|
    ensures |r| <= |s| - i
    decreases |s| - i
  {
    if i == |s| then []
    else
      var bound := maxId + span;
      var j := SliceEnd(s, i + 1, bound);
      [ConsensusThreadData(tid, i, j - i)] + SlicesFrom(s, j, bound, span, tid + 1)
  }

  /** The slices build_cns_thrd_data_can creates over the sorted candidates. */
  function Slices(s: seq<ExtensionCandidate>, minRid: int, maxRid: int, numThreads: int): (r: seq<ConsensusThreadData>)
    requires numThreads >= 1
    ensures |r| <= |s|
  {
    SlicesFrom(s, 0, minRid, ReadsPerThread(minRid, maxRid, numThreads), 0)
  }

  /** `r` cuts `[lo, hi)` into non-empty, contiguous slices in order, numbered
      from `tid`. */
  predicate Tiles(r: seq<ConsensusThreadData>, lo: int, hi: int, tid: int)
  {
    && (r == [] <==> lo == hi)
    && (r != [] ==> r[0].offset == lo && r[|r| - 1].offset + r[|r| - 1].numCandidates == hi)
    && (forall g :: 0 <= g < |r| ==> r[g].threadId == tid + g && r[g].numCandidates >= 1)
    && (forall g :: 0 <= g < |r| - 1 ==> r[g].offset + r[g].numCandidates == r[g + 1].offset)
  }

  /** Prepending a non-empty slice `[i, j)` to a tiling of `[j, hi)` tiles `[i, hi)`. */
  lemma TilesCons(rest: seq<ConsensusThreadData>, i: int, j: int, hi: int, tid: int)
    requires i < j && Tiles(rest, j, hi, tid + 1)
    ensures Tiles([ConsensusThreadData(tid, i, j - i)] + rest, i, hi, tid)
  {
    var r := [ConsensusThreadData(tid, i, j - i)] + rest;
    TilesOffsetsIncrease(rest, j, hi, tid + 1);
    forall g | 0 < g < |r|
      ensures r[g] == rest[g - 1]
    {
    }
  }

  /** The slices tile the candidates from `i` to the end. */
  lemma {:induction false} SlicesFromTile(s: seq<ExtensionCandidate>, i: nat, maxId: int, span: int, tid: int)
    requires i <= |s|
    ensures Tiles(SlicesFrom(s, i, maxId, span, tid), i, |s|, tid)
    decreases |s| - i
  {
    if i < |s| {
      var j := SliceEnd(s, i + 1, maxId + span);
      var rest := SlicesFrom(s, j, maxId + span, span, tid + 1);
      SlicesFromStep(s, i, maxId, span, tid);
      SlicesFromTile(s, j, maxId + span, span, tid + 1);
      TilesCons(rest, i, j, |s|, tid);
      assert SlicesFrom(s, i, maxId, span, tid) == [ConsensusThreadData(tid, i, j - i)] + rest;
    }
  }

  /** Slice `g` holds its first candidate and then exactly the following
      candidates whose id is below `maxId + (g + 1) * span`: all of its later
      members are below that boundary and the candidate after it is not. */
  lemma {:induction false} SlicesFromMembers(s: seq<ExtensionCandidate>, i: nat, maxId: int, span: int, tid: int, g: nat)
    requires i <= |s|
    requires g < |SlicesFrom(s, i, maxId, span, tid)|
    ensures var r := SlicesFrom(s, i, maxId, span, tid);
      var bound := maxId + (g + 1) * span;
      && 0 <= r[g].offset && 1 <= r[g].numCandidates && r[g].offset + r[g].numCandidates <= |s|
      && (forall m :: r[g].offset < m < r[g].offset + r[g].numCandidates ==> s[m].sid < bound)
      && (r[g].offset + r[g].numCandidates < |s| ==> s[r[g].offset + r[g].numCandidates].sid >= bound)
    decreases |s| - i
  {
    var j := SliceEnd(s, i + 1, maxId + span);
    var rest := SlicesFrom(s, j, maxId + span, span, tid + 1);
    assert SlicesFrom(s, i, maxId, span, tid) == [ConsensusThreadData(tid, i, j - i)] + rest;
    if g > 0 {
      SlicesFromMembers(s, j, maxId + span, span, tid + 1, g - 1);
      assert maxId + span + g * span == maxId + (g + 1) * span;
    }
  }

  /** Every slice after the first starts on a candidate whose id is at least
      the previous slice's boundary. */
  lemma SliceStartsPastBoundary(s: seq<ExtensionCandidate>, i: nat, maxId: int, span: int, tid: int, g: nat)
    requires i <= |s|
    requires 0 < g < |SlicesFrom(s, i, maxId, span, tid)|
    ensures var r := SlicesFrom(s, i, maxId, span, tid);
      0 <= r[g].offset < |s| && s[r[g].offset].sid >= maxId + g * span
  {
    var r := SlicesFrom(s, i, maxId, span, tid);
    SlicesFromTile(s, i, maxId, span, tid);
    TilesOffsetsIncrease(r, i, |s|, tid);
    SlicesFromMembers(s, i, maxId, span, tid, g - 1);
  }

  /** When every id lies in `[minRid, maxRid]`, at most `numThreads` slices
      are made, so the caller's `num_threads` entries suffice. */
  lemma SlicesAtMostThreads(s: seq<ExtensionCandidate>, minRid: int, maxRid: int, numThreads: int)
    requires numThreads >= 1
    requires forall m :: 0 <= m < |s| ==> minRid <= s[m].sid <= maxRid
    ensures |Slices(s, minRid, maxRid, numThreads)| <= numThreads
  {
    var r := Slices(s, minRid, maxRid, numThreads);
    var span := ReadsPerThread(minRid, maxRid, numThreads);
    if |r| > 1 {
      var g := |r| - 1;
      SliceStartsPastBoundary(s, 0, minRid, span, 0, g);
      ReadsPerThreadCeil(minRid, maxRid, numThreads);
      // minRid + g * span <= maxRid < minRid + numThreads * span
      if g >= numThreads {
        MulMonotone(numThreads, g, span);
      }
    }
  }

  lemma MulMonotone(a: int, b: int, c: int)
    requires a <= b && c >= 0
    ensures a * c <= b * c
  {
  }

  /** Without candidates no slice is made. */
  lemma NoCandidatesNoSlices(minRid: int, maxRid: int, numThreads: int)
    requires numThreads >= 1
    ensures Slices([], minRid, maxRid, numThreads) == []
  {
  }

  /** Every candidate index lies in exactly one slice. */
  lemma TilesExactlyOnce(r: seq<ConsensusThreadData>, lo: int, hi: int, tid: int, m: int)
    requires Tiles(r, lo, hi, tid) && lo <= m < hi
    ensures exists g :: 0 <= g < |r| && r[g].offset <= m < r[g].offset + r[g].numCandidates
    ensures forall g, h :: (0 <= g < |r| && 0 <= h < |r|
      && r[g].offset <= m < r[g].offset + r[g].numCandidates
      && r[h].offset <= m < r[h].offset + r[h].numCandidates) ==> g == h
  {
    TilesOffsetsIncrease(r, lo, hi, tid);
    var g := 0;
    while g < |r| - 1 && r[g].offset + r[g].numCandidates <= m
      invariant 0 <= g < |r| && r[g].offset <= m
    {
      g := g + 1;
    }
  }

  /** The slices of a tiling come in increasing order: a later slice starts
      at or after the end of an earlier one, and all lie inside `[lo, hi)`. */
  lemma TilesOffsetsIncrease(r: seq<ConsensusThreadData>, lo: int, hi: int, tid: int)
    requires Tiles(r, lo, hi, tid)
    ensures forall g, h :: 0 <= g < h < |r| ==> r[g].offset + r[g].numCandidates <= r[h].offset
    ensures forall g :: 0 <= g < |r| ==> lo <= r[g].offset && r[g].offset + r[g].numCandidates <= hi
  {
    forall g, h | 0 <= g < h < |r|
      ensures r[g].offset + r[g].numCandidates <= r[h].offset
    {
      var k := g + 1;
      while k < h
        invariant g + 1 <= k <= h
        invariant r[g].offset + r[g].numCandidates <= r[k].offset
      {
        k := k + 1;
      }
    }
    forall g | 0 <= g < |r|
      ensures lo <= r[g].offset && r[g].offset + r[g].numCandidates <= hi
    {
      if g > 0 {
        assert r[0].offset + r[0].numCandidates <= r[g].offset;
      }
      if g < |r| - 1 {
        assert r[g].offset + r[g].numCandidates <= r[|r| - 1].offset;
      }
    }
  }

  /** The worked example: ids 1,1,2,5,5,5,9 in `[1, 9]` over 3 threads give
      the slices {1,1,2}, {5,5,5}, {9}. */
  lemma SlicesExample()
    ensures Slices([ExtensionCandidate(1, 0), ExtensionCandidate(1, 1), ExtensionCandidate(2, 2),
                    ExtensionCandidate(5, 3), ExtensionCandidate(5, 4), ExtensionCandidate(5, 5),
                    ExtensionCandidate(9, 6)], 1, 9, 3)
         == [ConsensusThreadData(0, 0, 3), ConsensusThreadData(1, 3, 3), ConsensusThreadData(2, 6, 1)]
  {
    var s := [ExtensionCandidate(1, 0), ExtensionCandidate(1, 1), ExtensionCandidate(2, 2),
              ExtensionCandidate(5, 3), ExtensionCandidate(5, 4), ExtensionCandidate(5, 5),
              ExtensionCandidate(9, 6)];
    assert ReadsPerThread(1, 9, 3) == 3;
    assert SliceEnd(s, 1, 4) == 3;
    assert SliceEnd(s, 4, 7) == 6;
    assert SliceEnd(s, 7, 10) == 7;
  }

  /** The inner loop of the slicing: from `j` on, skips the candidates whose
      target id is below `maxId`. */
  method ScanSlice(ecList: array<ExtensionCandidate>, ghost s: seq<ExtensionCandidate>, j0: int, maxId: int) returns (j: int)
    requires s == ecList[..] && 0 <= j0 <= ecList.Length
    ensures j == SliceEnd(s, j0, maxId)
  {
    j := j0;
    while j < ecList.Length && ecList[j].sid < maxId
      invariant j0 <= j <= ecList.Length
      invariant SliceEnd(s, j, maxId) == SliceEnd(s, j0, maxId)
    {
      j := j + 1;
    }
  }

  /** One step of SlicesFrom: the slice starting at `i`, then the rest. */
  lemma SlicesFromStep(s: seq<ExtensionCandidate>, i: nat, maxId: int, span: int, tid: int)
    requires i < |s|
    ensures var j := SliceEnd(s, i + 1, maxId + span);
      SlicesFrom(s, i, maxId, span, tid)
        == [ConsensusThreadData(tid, i, j - i)] + SlicesFrom(s, j, maxId + span, span, tid + 1)
  {
  }

  /** Emitting the slice `[i, j)` that starts at `i` keeps the emitted slices
      followed by the ones still to come equal to the whole slicing. */
  lemma SlicesFromEmit(done: seq<ConsensusThreadData>, all: seq<ConsensusThreadData>,
                       s: seq<ExtensionCandidate>, i: nat, maxId: int, span: int, tid: int, j: nat)
    requires i < |s| && done + SlicesFrom(s, i, maxId, span, tid) == all
    requires j == SliceEnd(s, i + 1, maxId + span)
    ensures (done + [ConsensusThreadData(tid, i, j - i)]) + SlicesFrom(s, j, maxId + span, span, tid + 1) == all
  {
    SlicesFromStep(s, i, maxId, span, tid);
    var rest := SlicesFrom(s, j, maxId + span, span, tid + 1);
    assert (done + [ConsensusThreadData(tid, i, j - i)]) + rest == done + ([ConsensusThreadData(tid, i, j - i)] + rest);
  }

  /** The slicing loop of build_cns_thrd_data_can over candidates already
      sorted: one ConsensusThreadData per slice, numbered from 0, in order. */
  method MakeSlices(ecList: array<ExtensionCandidate>, minRid: int, numReadsPerThread: int)
    returns (ppctd: seq<ConsensusThreadData>)
    ensures ppctd == SlicesFrom(ecList[..], 0, minRid, numReadsPerThread, 0)
  {
    var nec := ecList.Length;
    ghost var s := ecList[..];
    ghost var spec := SlicesFrom(s, 0, minRid, numReadsPerThread, 0);
    var maxId := minRid;
    var i := 0;
    var tid := 0;
    ppctd := [];
    while i < nec
      invariant 0 <= i <= nec
      invariant ppctd + SlicesFrom(s, i, maxId, numReadsPerThread, tid) == spec
      decreases nec - i
    {
      var bound := maxId + numReadsPerThread;
      var j := ScanSlice(ecList, s, i + 1, bound);
      SlicesFromEmit(ppctd, spec, s, i, maxId, numReadsPerThread, tid, j);
      maxId := bound;
      ppctd := ppctd + [ConsensusThreadData(tid, i, j - i)];
      tid := tid + 1;
      i := j;
    }
  }

  /** build_cns_thrd_data_can: sorts the candidates in place by target id,
      then cuts them into slices that tile the whole array. */
  method BuildCnsThrdDataCan(ecList: array<ExtensionCandidate>, minRid: int, maxRid: int, numThreads: int)
    returns (ppctd: seq<ConsensusThreadData>)
    requires numThreads >= 1
    modifies ecList
    ensures SortedBySid(ecList[..]) && multiset(ecList[..]) == old(multiset(ecList[..]))
    ensures ppctd == Slices(ecList[..], minRid, maxRid, numThreads)
    ensures Tiles(ppctd, 0, ecList.Length, 0)
  {
    var numReads := maxRid - minRid + 1;
    var numReadsPerThread := DivTrunc(numReads + numThreads - 1, numThreads);
    SortBySid(ecList);
    ppctd := MakeSlices(ecList, minRid, numReadsPerThread);
    SlicesFromTile(ecList[..], 0, minRid, numReadsPerThread, 0);
  }

  // ---------------------------------------------------------------------
  // A target split across two slices, and the slicing that avoids it.

  /** Ids 1, 9, 9 in `[1, 9]` over 3 threads: read 9 ends up in slices 1 and 2,
      so two workers would each correct it from part of its candidates. */
  lemma SplitTargetExample()
    ensures var s := [ExtensionCandidate(1, 0), ExtensionCandidate(9, 1), ExtensionCandidate(9, 2)];
      && Slices(s, 1, 9, 3) == [ConsensusThreadData(0, 0, 1), ConsensusThreadData(1, 1, 1), ConsensusThreadData(2, 2, 1)]
      && s[1].sid == s[2].sid
  {
    var s := [ExtensionCandidate(1, 0), ExtensionCandidate(9, 1), ExtensionCandidate(9, 2)];
    assert ReadsPerThread(1, 9, 3) == 3;
    assert SliceEnd(s, 1, 4) == 1;
    assert SliceEnd(s, 2, 7) == 2;
    assert SliceEnd(s, 3, 10) == 3;
  }

  /** The boundary for a slice whose first id is `sid`: advanced by `span`
      from `maxId` until it lies past `sid`. */
  function NextBound(maxId: int, span: int, sid: int): (b: int)
    requires span >= 1
    ensures b > sid && b >= maxId + span
    decreases if sid >= maxId then sid - maxId + 1 else 0
  {
    if maxId + span > sid then maxId + span else NextBound(maxId + span, span, sid)
  }

  /** Slicing that skips boundaries no candidate falls under, so that every
      slice, its first candidate included, lies below its boundary. */
  function DisjointSlicesFrom(s: seq<ExtensionCandidate>, i: nat, maxId: int, span: int, tid: int): seq<ConsensusThreadData>
    requires i <= |s| && span >= 1
    decreases |s| - i
  {
    if i == |s| then []
    else
      var bound := NextBound(maxId, span, s[i].sid);
      var j := SliceEnd(s, i + 1, bound);
      [ConsensusThreadData(tid, i, j - i)] + DisjointSlicesFrom(s, j, bound, span, tid + 1)
  }

  /** The corrected slicing still tiles the candidates. */
  lemma {:induction false} DisjointSlicesTile(s: seq<ExtensionCandidate>, i: nat, maxId: int, span: int, tid: int)
    requires i <= |s| && span >= 1
    ensures Tiles(DisjointSlicesFrom(s, i, maxId, span, tid), i, |s|, tid)
    decreases |s| - i
  {
    if i < |s| {
      var bound := NextBound(maxId, span, s[i].sid);
      var j := SliceEnd(s, i + 1, bound);
      var rest := DisjointSlicesFrom(s, j, bound, span, tid + 1);
      DisjointSlicesTile(s, j, bound, span, tid + 1);
      TilesCons(rest, i, j, |s|, tid);
      assert DisjointSlicesFrom(s, i, maxId, span, tid) == [ConsensusThreadData(tid, i, j - i)] + rest;
    }
  }

  /** Under the corrected slicing every candidate of a slice, its first one
      included, has a smaller id than the candidate just after the slice. */
  lemma {:induction false} DisjointSliceBelowNext(s: seq<ExtensionCandidate>, i: nat, maxId: int, span: int, tid: int, g: nat)
    requires i <= |s| && span >= 1
    requires g < |DisjointSlicesFrom(s, i, maxId, span, tid)|
    ensures var r := DisjointSlicesFrom(s, i, maxId, span, tid);
      var e := r[g].offset + r[g].numCandidates;
      && 0 <= r[g].offset < e <= |s|
      && (e < |s| ==> forall m :: r[g].offset <= m < e ==> s[m].sid < s[e].sid)
    decreases |s| - i
  {
    var bound := NextBound(maxId, span, s[i].sid);
    var j := SliceEnd(s, i + 1, bound);
    assert DisjointSlicesFrom(s, i, maxId, span, tid)
      == [ConsensusThreadData(tid, i, j - i)] + DisjointSlicesFrom(s, j, bound, span, tid + 1);
    if g > 0 {
      DisjointSliceBelowNext(s, j, bound, span, tid + 1, g - 1);
    }
  }

  /** Under the corrected slicing of sorted input, every id of an earlier
      slice is below every id of a later one, so no target read is shared by
      two workers. */
  lemma DisjointSlicesSeparate(s: seq<ExtensionCandidate>, span: int, minRid: int, g: nat, h: nat, x: int, y: int)
    requires span >= 1 && SortedBySid(s)
    requires var r := DisjointSlicesFrom(s, 0, minRid, span, 0);
      && g < h < |r|
      && r[g].offset <= x < r[g].offset + r[g].numCandidates
      && r[h].offset <= y < r[h].offset + r[h].numCandidates
    ensures 0 <= x < y < |s| && s[x].sid < s[y].sid
  {
    var r := DisjointSlicesFrom(s, 0, minRid, span, 0);
    DisjointSlicesTile(s, 0, minRid, span, 0);
    TilesOffsetsIncrease(r, 0, |s|, 0);
    DisjointSliceBelowNext(s, 0, minRid, span, 0, g);
    var e := r[g].offset + r[g].numCandidates;
    assert e <= r[h].offset;
  }
}
