/** The pool of alignments against one target read (CnsAlns), each with a
    forward-only cursor for extracting the columns of a target window
    (CnsAln::retrieve_aln_subseqs), and the consensus-table cell with its
    cleaner (CnsTableItem, CnsTableItemCleaner). */
module CnsAlignment {
  import opened Gaps
  import opened SlideWindow

  /** `MAX_CNS_OVLPS`: the number of alignment slots of a pool. */
  const MaxCnsOvlps: int := 100

  /** `uint1` of the source: an unsigned one-byte counter. */
  newtype uint8 = x: int | 0 <= x < 256

  /** One cell of the consensus table: a base and four event counters. */
  class CnsTableItem {
    var base: char
    var matCnt: uint8
    var insCnt: uint8
    var delCnt: uint8
    var skipCnt: uint8

    /** The state the default constructor gives: base `N`, all counters zero. */
    predicate IsClear()
      reads this
    {
      base == 'N' && matCnt == 0 && insCnt == 0 && delCnt == 0 && skipCnt == 0
    }

    constructor()
      ensures IsClear()
    {
      base, matCnt, skipCnt, insCnt, delCnt := 'N', 0, 0, 0, 0;
    }
  }

  /** CnsTableItemCleaner: resets a cell to the default-constructed state. */
  method CleanTableItem(item: CnsTableItem)
    modifies item
    ensures item.IsClear()
  {
    item.base := 'N';
    item.matCnt := 0;
    item.insCnt := 0;
    item.delCnt := 0;
    item.skipCnt := 0;
  }

  /** The target interval `[start, end)` of an alignment, as reported by get_mapping_ranges. */
  datatype MappingRange = MappingRange(start: int, end: int)

  /** A cursor into an alignment: `off` is the target position reached,
      `idx` the column of the aligned strings (`soff`, `aln_idx`). */
  datatype Cursor = Cursor(off: int, idx: int)

  /** Moving the cursor one column right; the target position grows when the
      target side of the new column is a base. */
  function Step(s: seq<char>, c: Cursor): (r: Cursor)
    requires 0 <= c.idx < |s| - 1
    ensures r.idx == c.idx + 1 && c.off <= r.off <= c.off + 1
  {
    Cursor(c.off + (if s[c.idx + 1] != Gap then 1 else 0), c.idx + 1)
  }

  /** `d` is `c` moved zero or more columns right, its target position grown by
      the number of bases on the target side of the columns stepped over. */
  predicate Advanced(s: seq<char>, c: Cursor, d: Cursor)
    requires 0 <= c.idx
  {
    d == c || (c.idx < d.idx < |s| && d.off == c.off + |Degap(s[c.idx + 1..d.idx + 1])|)
  }

  /** The target position a cursor starting at `c` has once it has been
      moved right onto column `x`. */
  function Reached(s: seq<char>, c: Cursor, x: int): int
    requires 0 <= c.idx <= x < |s|
  {
    c.off + |Degap(s[c.idx + 1..x + 1])|
  }

  /** Measuring from the cursor one step further gives the same position. */
  lemma ReachedStep(s: seq<char>, c: Cursor, x: int)
    requires 0 <= c.idx < |s| - 1 && c.idx < x < |s|
    ensures Reached(s, c, x) == Reached(s, Step(s, c), x)
  {
    var u := s[c.idx + 1..x + 1];
    assert u[1..] == s[c.idx + 2..x + 1];
    assert Degap(u) == (if u[0] == Gap then [] else [u[0]]) + Degap(u[1..]);
  }

  /** Measuring from any cursor advanced from `c` gives the same position. */
  lemma ReachedAdvanced(s: seq<char>, c: Cursor, d: Cursor, x: int)
    requires 0 <= c.idx && Advanced(s, c, d) && d.idx <= x < |s|
    ensures Reached(s, c, x) == Reached(s, d, x)
  {
    if d != c {
      assert s[c.idx + 1..x + 1] == s[c.idx + 1..d.idx + 1] + s[d.idx + 1..x + 1];
      DegapAppend(s[c.idx + 1..d.idx + 1], s[d.idx + 1..x + 1]);
    }
  }

  /** The first loop of retrieve_aln_subseqs (.h:56-60): step until the target
      position reaches `sb` or the last column is reached. */
  function Skip(s: seq<char>, c: Cursor, sb: int): (r: Cursor)
    requires 0 <= c.idx < |s|
    ensures c.idx <= r.idx < |s|
    decreases |s| - c.idx
  {
    if c.off < sb && c.idx < |s| - 1 then Skip(s, Step(s, c), sb) else c
  }

  /** Where the second loop (.h:66-75) stops, and whether it ran to its end
      (`complete`) rather than stopping on a query-side `N`. */
  datatype Collected = Collected(cursor: Cursor, complete: bool)

  /** The second loop of retrieve_aln_subseqs: step until the target position
      reaches `se` or the last column is reached, stopping early on a column
      whose query side is `N`. */
  function Collect(q: seq<char>, s: seq<char>, c: Cursor, se: int): (r: Collected)
    requires |q| == |s| && 0 <= c.idx < |s|
    ensures c.idx <= r.cursor.idx < |s|
    decreases |s| - c.idx
  {
    if c.off < se && c.idx < |s| - 1 then
      var n := Step(s, c);
      if q[n.idx] == Mask then Collected(n, false) else Collect(q, s, n, se)
    else Collected(c, true)
  }

  /** The outcome of one retrieve_aln_subseqs call: the result, the new cursor,
      the two output strings, `sb_out`, and the first column copied. */
  datatype Retrieval = Retrieval(ok: bool, cursor: Cursor, qstr: seq<char>, tstr: seq<char>, sbOut: int, first: int)

  /** The guard of .h:52: the window ends before the cursor, starts at or after
      the alignment's end, or the cursor already sits on the last column. */
  predicate Refused(c: Cursor, send: int, size: int, sb: int, se: int)
  {
    se <= c.off || sb >= send || c.idx >= size - 1
  }

  /** A cursor that may belong to an alignment of `size` columns. */
  predicate CursorIn(c: Cursor, size: int)
  {
    0 <= c.idx && (c.idx < size || c.idx == 0)
  }

  /** retrieve_aln_subseqs on the values of one alignment: `q`, `s` are
      `qaln`, `saln`; `qIn`, `tIn`, `sbIn` are what the output arguments held. */
  function Retrieve(q: seq<char>, s: seq<char>, send: int, c: Cursor, sb: int, se: int,
                    qIn: seq<char>, tIn: seq<char>, sbIn: int): (r: Retrieval)
    requires |q| == |s| && CursorIn(c, |s|)
    ensures CursorIn(r.cursor, |s|)
  {
    if Refused(c, send, |s|, sb, se) then Retrieval(false, c, qIn, tIn, sbIn, c.idx)
    else
      var sbOut := if c.off < sb then sb else c.off;
      var p := Skip(s, c, sb);
      if q[p.idx] == Mask then Retrieval(false, p, [], [], sbOut, p.idx)
      else
        var r := Collect(q, s, p, se);
        var e := if r.complete then r.cursor.idx + 1 else r.cursor.idx;
        Retrieval(r.complete, r.cursor, q[p.idx..e], s[p.idx..e], sbOut, p.idx)
  }

  /** The first loop advances the cursor by exactly the bases it steps over
      and stops on the first column where `sb` is reached, or on the last
      column: since each step adds at most one base, it never goes past the
      larger of `sb` and where it started. */
  lemma {:induction false} SkipAdvances(s: seq<char>, c: Cursor, sb: int)
    requires 0 <= c.idx < |s|
    ensures Advanced(s, c, Skip(s, c, sb))
    ensures Skip(s, c, sb).off >= sb || Skip(s, c, sb).idx == |s| - 1
    ensures Skip(s, c, sb).off <= (if c.off < sb then sb else c.off)
    ensures forall x :: c.idx <= x < Skip(s, c, sb).idx ==> Reached(s, c, x) < sb
    decreases |s| - c.idx
  {
    if c.off < sb && c.idx < |s| - 1 {
      var n := Step(s, c);
      SkipAdvances(s, n, sb);
      AdvancedJoin(s, c, n, Skip(s, n, sb));
      forall x | c.idx <= x < Skip(s, c, sb).idx
        ensures Reached(s, c, x) < sb
      {
        if x == c.idx {
          assert s[c.idx + 1..x + 1] == [];
        } else {
          ReachedStep(s, c, x);
        }
      }
    }
  }

  /** One step followed by an advance is an advance. */
  lemma AdvancedJoin(s: seq<char>, c: Cursor, n: Cursor, d: Cursor)
    requires 0 <= c.idx < |s| - 1 && n == Step(s, c) && Advanced(s, n, d)
    ensures Advanced(s, c, d)
  {
    assert Advanced(s, c, n) by {
      assert s[c.idx + 1..n.idx + 1] == [s[c.idx + 1]];
    }
    if d != n {
      var u := s[c.idx + 1..d.idx + 1];
      assert u[1..] == s[n.idx + 1..d.idx + 1];
      assert Degap(u) == (if u[0] == Gap then [] else [u[0]]) + Degap(u[1..]);
    }
  }

  /** The second loop advances by exactly the bases it steps over; it either
      reaches `se` or the last column with no `N` on the query side of the
      columns stepped over, or stops on the first such `N`. It stops on the
      first column where `se` is reached: it never goes past the larger of
      `se` and where it started. */
  lemma {:induction false} CollectAdvances(q: seq<char>, s: seq<char>, c: Cursor, se: int)
    requires |q| == |s| && 0 <= c.idx < |s|
    ensures Advanced(s, c, Collect(q, s, c, se).cursor)
    ensures Collect(q, s, c, se).cursor.off <= (if c.off < se then se else c.off)
    ensures forall x :: c.idx <= x < Collect(q, s, c, se).cursor.idx ==> Reached(s, c, x) < se
    ensures var r := Collect(q, s, c, se);
      forall x :: c.idx < x < r.cursor.idx ==> q[x] != Mask
    ensures var r := Collect(q, s, c, se);
      r.complete ==> (r.cursor.off >= se || r.cursor.idx == |s| - 1) && (r.cursor.idx > c.idx ==> q[r.cursor.idx] != Mask)
    ensures var r := Collect(q, s, c, se);
      !r.complete ==> r.cursor.idx > c.idx && q[r.cursor.idx] == Mask
    decreases |s| - c.idx
  {
    if c.off < se && c.idx < |s| - 1 {
      var n := Step(s, c);
      if q[n.idx] == Mask {
        AdvancedJoin(s, c, n, n);
      } else {
        CollectAdvances(q, s, n, se);
        AdvancedJoin(s, c, n, Collect(q, s, n, se).cursor);
      }
      forall x | c.idx <= x < Collect(q, s, c, se).cursor.idx
        ensures Reached(s, c, x) < se
      {
        if x == c.idx {
          assert s[c.idx + 1..x + 1] == [];
        } else {
          ReachedStep(s, c, x);
        }
      }
    }
  }

  /** A refused call changes nothing: result false, cursor and outputs as they were. */
  lemma RetrieveRefused(q: seq<char>, s: seq<char>, send: int, c: Cursor, sb: int, se: int,
                        qIn: seq<char>, tIn: seq<char>, sbIn: int)
    requires |q| == |s| && CursorIn(c, |s|) && Refused(c, send, |s|, sb, se)
    ensures var r := Retrieve(q, s, send, c, sb, se, qIn, tIn, sbIn);
      !r.ok && r.cursor == c && r.qstr == qIn && r.tstr == tIn && r.sbOut == sbIn
  {
  }

  /** A call that is not refused sets `sb_out` to the larger of the cursor's
      target position on entry and the window start. */
  lemma RetrieveSbOut(q: seq<char>, s: seq<char>, send: int, c: Cursor, sb: int, se: int,
                      qIn: seq<char>, tIn: seq<char>, sbIn: int)
    requires |q| == |s| && CursorIn(c, |s|) && !Refused(c, send, |s|, sb, se)
    ensures var r := Retrieve(q, s, send, c, sb, se, qIn, tIn, sbIn);
      r.sbOut >= c.off && r.sbOut >= sb && (r.sbOut == c.off || r.sbOut == sb)
  {
  }

  /** The cursor only moves forward, stays within the alignment, and its
      target position grows by exactly the number of target bases stepped over. */
  lemma RetrieveCursor(q: seq<char>, s: seq<char>, send: int, c: Cursor, sb: int, se: int,
                       qIn: seq<char>, tIn: seq<char>, sbIn: int)
    requires |q| == |s| && CursorIn(c, |s|)
    ensures var r := Retrieve(q, s, send, c, sb, se, qIn, tIn, sbIn);
      Advanced(s, c, r.cursor) && r.cursor.off >= c.off && r.cursor.idx >= c.idx && CursorIn(r.cursor, |s|)
  {
    if !Refused(c, send, |s|, sb, se) {
      var p := Skip(s, c, sb);
      SkipAdvances(s, c, sb);
      if q[p.idx] != Mask {
        var r := Collect(q, s, p, se);
        CollectAdvances(q, s, p, se);
        AdvancedTrans(s, c, p, r.cursor);
      }
    }
  }

  /** Two advances in a row are one advance. */
  lemma AdvancedTrans(s: seq<char>, c: Cursor, d: Cursor, e: Cursor)
    requires 0 <= c.idx && Advanced(s, c, d) && Advanced(s, d, e)
    ensures Advanced(s, c, e)
  {
    if d != c && e != d {
      assert s[c.idx + 1..e.idx + 1] == s[c.idx + 1..d.idx + 1] + s[d.idx + 1..e.idx + 1];
      DegapAppend(s[c.idx + 1..d.idx + 1], s[d.idx + 1..e.idx + 1]);
    }
  }

  /** On success the outputs are equal-length copies of one contiguous run of
      columns ending at the new cursor, none of whose query characters is
      `N`, and the window's end or the alignment's last column has been
      reached, but not passed: the final target position is at most the
      larger of `sb_out` and `se`. */
  lemma RetrieveCopies(q: seq<char>, s: seq<char>, send: int, c: Cursor, sb: int, se: int,
                       qIn: seq<char>, tIn: seq<char>, sbIn: int)
    requires |q| == |s| && CursorIn(c, |s|)
    ensures var r := Retrieve(q, s, send, c, sb, se, qIn, tIn, sbIn);
      r.ok ==> && c.idx <= r.first <= r.cursor.idx < |s|
               && r.qstr == q[r.first..r.cursor.idx + 1]
               && r.tstr == s[r.first..r.cursor.idx + 1]
               && (forall x :: r.first <= x <= r.cursor.idx ==> q[x] != Mask)
               && (r.cursor.off >= se || r.cursor.idx == |s| - 1)
               && r.cursor.off <= (if r.sbOut < se then se else r.sbOut)
  {
    if !Refused(c, send, |s|, sb, se) {
      var p := Skip(s, c, sb);
      if q[p.idx] != Mask {
        SkipAdvances(s, c, sb);
        CollectAdvances(q, s, p, se);
      }
    }
  }

  /** Where a call starts and stops copying: the first column copied is the
      first column at which the target position reaches `sb`, or the last
      column; on success every column copied before the last one leaves the
      target position below `se`, so the copy ends on the first column that
      reaches `se`, or on the last column. */
  lemma RetrieveBoundaries(q: seq<char>, s: seq<char>, send: int, c: Cursor, sb: int, se: int,
                           qIn: seq<char>, tIn: seq<char>, sbIn: int)
    requires |q| == |s| && CursorIn(c, |s|) && !Refused(c, send, |s|, sb, se)
    ensures var r := Retrieve(q, s, send, c, sb, se, qIn, tIn, sbIn);
      && c.idx <= r.first < |s|
      && (forall x :: c.idx <= x < r.first ==> Reached(s, c, x) < sb)
      && (Reached(s, c, r.first) >= sb || r.first == |s| - 1)
    ensures var r := Retrieve(q, s, send, c, sb, se, qIn, tIn, sbIn);
      r.ok ==> && r.first <= r.cursor.idx
               && (forall x :: r.first <= x < r.cursor.idx ==> Reached(s, c, x) < se)
               && (Reached(s, c, r.cursor.idx) >= se || r.cursor.idx == |s| - 1)
  {
    var p := Skip(s, c, sb);
    SkipAdvances(s, c, sb);
    ReachedAdvanced(s, c, p, p.idx);
    assert s[p.idx + 1..p.idx + 1] == [];
    if q[p.idx] != Mask {
      var r := Collect(q, s, p, se);
      CollectAdvances(q, s, p, se);
      forall x | p.idx <= x <= r.cursor.idx
        ensures Reached(s, c, x) == Reached(s, p, x)
      {
        ReachedAdvanced(s, c, p, x);
      }
      assert s[r.cursor.idx + 1..r.cursor.idx + 1] == [];
      ReachedAdvanced(s, p, r.cursor, r.cursor.idx);
    }
  }

  /** A call that is not refused but fails has stopped on a query-side `N`; the
      cursor keeps the advance made up to that column and the outputs hold the
      columns copied before it. */
  lemma RetrieveStopsOnMask(q: seq<char>, s: seq<char>, send: int, c: Cursor, sb: int, se: int,
                            qIn: seq<char>, tIn: seq<char>, sbIn: int)
    requires |q| == |s| && CursorIn(c, |s|) && !Refused(c, send, |s|, sb, se)
    ensures var r := Retrieve(q, s, send, c, sb, se, qIn, tIn, sbIn);
      !r.ok ==> && q[r.cursor.idx] == Mask
                && c.idx <= r.first <= r.cursor.idx
                && r.qstr == q[r.first..r.cursor.idx] && r.tstr == s[r.first..r.cursor.idx]
  {
    var p := Skip(s, c, sb);
    if q[p.idx] != Mask {
      CollectAdvances(q, s, p, se);
    }
  }

  /** Two successive calls on the same alignment: a window that ends at or
      before the target position already reached is refused, and a second
      extraction starts no earlier than the last column of the first. */
  lemma SuccessiveRetrievals(q: seq<char>, s: seq<char>, send: int, c: Cursor,
                             sb1: int, se1: int, sb2: int, se2: int,
                             qIn: seq<char>, tIn: seq<char>, sbIn: int)
    requires |q| == |s| && CursorIn(c, |s|)
    ensures var r1 := Retrieve(q, s, send, c, sb1, se1, qIn, tIn, sbIn);
      var r2 := Retrieve(q, s, send, r1.cursor, sb2, se2, r1.qstr, r1.tstr, r1.sbOut);
      && (se2 <= r1.cursor.off ==> !r2.ok)
      && (r1.ok && r2.ok ==> r1.cursor.idx <= r2.first)
  {
    var r1 := Retrieve(q, s, send, c, sb1, se1, qIn, tIn, sbIn);
    RetrieveCursor(q, s, send, c, sb1, se1, qIn, tIn, sbIn);
    var r2 := Retrieve(q, s, send, r1.cursor, sb2, se2, r1.qstr, r1.tstr, r1.sbOut);
    if r1.ok && r2.ok {
      RetrieveCopies(q, s, send, r1.cursor, sb2, se2, r1.qstr, r1.tstr, r1.sbOut);
    }
  }

  /** A cursor whose target position counts the target bases after the first
      column keeps that property when advanced. */
  lemma AdvancedFromOrigin(s: seq<char>, origin: int, c: Cursor, d: Cursor)
    requires 0 <= c.idx < |s| && c.off == origin + |Degap(s[1..c.idx + 1])| && Advanced(s, c, d)
    ensures d.off == origin + |Degap(s[1..d.idx + 1])|
  {
    if d != c {
      assert s[1..d.idx + 1] == s[1..c.idx + 1] + s[c.idx + 1..d.idx + 1];
      DegapAppend(s[1..c.idx + 1], s[c.idx + 1..d.idx + 1]);
    }
  }

  /** One stored alignment: its target interval, the forward-only cursor
      (`soff`, `alnIdx`), and the two aligned strings (`qaln`, `saln` hold the
      first `alnSize` characters of the source's fixed-size buffers). */
  class CnsAln {
    var soff: int
    var send: int
    var alnIdx: int
    var alnSize: int
    var qaln: seq<char>
    var saln: seq<char>
    /** The target position the alignment was added with. */
    ghost var origin: int

    /** The cursor lies in the alignment, and its target position is the start
        plus the number of target bases in the columns after the first up to
        the cursor's column. */
    ghost predicate Valid()
      reads this
    {
      && |qaln| == alnSize && |saln| == alnSize
      && CursorIn(Cursor(soff, alnIdx), alnSize)
      && (alnSize == 0 ==> soff == origin)
      && (alnSize > 0 ==> soff == origin + |Degap(saln[1..alnIdx + 1])|)
    }

    /** An empty slot. The allocation leaves a slot's contents undefined; any
        value will do, since add_aln sets every field before one is read. */
    constructor()
      ensures Valid() && alnSize == 0 && alnIdx == 0 && soff == 0
    {
      soff, send, alnIdx, alnSize := 0, 0, 0, 0;
      qaln, saln := [], [];
      origin := 0;
    }

    /** retrieve_aln_subseqs: extracts the columns covering the target window
        `[sb, se)`, moving the cursor forward. `qstrIn`, `tstrIn`, `sbOutIn`
        are the values the reference arguments held on entry. */
    method RetrieveAlnSubseqs(sb: int, se: int, qstrIn: seq<char>, tstrIn: seq<char>, sbOutIn: int)
      returns (ok: bool, qstr: seq<char>, tstr: seq<char>, sbOut: int)
      requires Valid()
      modifies this`soff, this`alnIdx
      ensures Valid()
      ensures var r := Retrieve(qaln, saln, send, old(Cursor(soff, alnIdx)), sb, se, qstrIn, tstrIn, sbOutIn);
        ok == r.ok && Cursor(soff, alnIdx) == r.cursor && qstr == r.qstr && tstr == r.tstr && sbOut == r.sbOut
      ensures soff >= old(soff) && alnIdx >= old(alnIdx)
    {
      ghost var c0 := Cursor(soff, alnIdx);
      var r := RetrieveColumns(qaln, saln, send, Cursor(soff, alnIdx), sb, se, qstrIn, tstrIn, sbOutIn);
      RetrieveCursor(qaln, saln, send, c0, sb, se, qstrIn, tstrIn, sbOutIn);
      if alnSize > 0 {
        AdvancedFromOrigin(saln, origin, c0, r.cursor);
      }
      soff, alnIdx := r.cursor.off, r.cursor.idx;
      return r.ok, r.qstr, r.tstr, r.sbOut;
    }
  }

  /** The body of retrieve_aln_subseqs on a cursor value: the guard of .h:52,
      `sb_out`, the skip loop, the check of the first column and the copy
      loop. The result carries the cursor the loops leave behind. */
  method RetrieveColumns(qaln: seq<char>, saln: seq<char>, send: int, c: Cursor, sb: int, se: int,
                         qstrIn: seq<char>, tstrIn: seq<char>, sbOutIn: int)
    returns (r: Retrieval)
    requires |qaln| == |saln| && CursorIn(c, |saln|)
    ensures r == Retrieve(qaln, saln, send, c, sb, se, qstrIn, tstrIn, sbOutIn)
  {
    if se <= c.off || sb >= send || c.idx >= |saln| - 1 {
      return Retrieval(false, c, qstrIn, tstrIn, sbOutIn, c.idx);
    }
    var sbOut := if c.off < sb then sb else c.off;
    var p := SkipColumns(saln, c, sb);
    if qaln[p.idx] == Mask {
      return Retrieval(false, p, [], [], sbOut, p.idx);
    }
    var ok, d, qstr, tstr := CollectColumns(qaln, saln, p, se);
    r := Retrieval(ok, d, qstr, tstr, sbOut, p.idx);
  }

  /** The first loop of retrieve_aln_subseqs (.h:56-60), on the cursor
      `(soff, aln_idx)`: step until the target position reaches `sb` or the
      last column is reached. */
  method SkipColumns(saln: seq<char>, c: Cursor, sb: int) returns (d: Cursor)
    requires 0 <= c.idx < |saln|
    ensures d == Skip(saln, c, sb)
  {
    var soff, alnIdx := c.off, c.idx;
    while soff < sb && alnIdx < |saln| - 1
      invariant 0 <= alnIdx < |saln|
      invariant Skip(saln, Cursor(soff, alnIdx), sb) == Skip(saln, c, sb)
      decreases |saln| - alnIdx
    {
      ghost var prev := Cursor(soff, alnIdx);
      alnIdx := alnIdx + 1;
      if saln[alnIdx] != Gap {
        soff := soff + 1;
      }
      assert Cursor(soff, alnIdx) == Step(saln, prev);
    }
    d := Cursor(soff, alnIdx);
  }

  /** The second loop of retrieve_aln_subseqs (.h:64-75): the cursor's column
      is copied, then every column stepped onto, until `se` or the last column
      is reached (true) or a query-side `N` is met (false, that column not
      copied). */
  method CollectColumns(qaln: seq<char>, saln: seq<char>, c: Cursor, se: int)
    returns (ok: bool, d: Cursor, qstr: seq<char>, tstr: seq<char>)
    requires |qaln| == |saln| && 0 <= c.idx < |saln|
    ensures Collect(qaln, saln, c, se) == Collected(d, ok)
    ensures var e := if ok then d.idx + 1 else d.idx;
      c.idx < e <= |saln| && qstr == qaln[c.idx..e] && tstr == saln[c.idx..e]
  {
    var soff, alnIdx := c.off, c.idx;
    qstr, tstr := [qaln[alnIdx]], [saln[alnIdx]];
    ok := true;
    while soff < se && alnIdx < |saln| - 1
      invariant c.idx <= alnIdx < |saln|
      invariant Collect(qaln, saln, Cursor(soff, alnIdx), se) == Collect(qaln, saln, c, se)
      invariant qstr == qaln[c.idx..alnIdx + 1] && tstr == saln[c.idx..alnIdx + 1]
      decreases |saln| - alnIdx
    {
      ghost var prev := Cursor(soff, alnIdx);
      alnIdx := alnIdx + 1;
      if saln[alnIdx] != Gap {
        soff := soff + 1;
      }
      assert Cursor(soff, alnIdx) == Step(saln, prev);
      if qaln[alnIdx] == Mask {
        return false, Cursor(soff, alnIdx), qstr, tstr;
      }
      SliceSnoc(qaln, c.idx, alnIdx);
      SliceSnoc(saln, c.idx, alnIdx);
      qstr := qstr + [qaln[alnIdx]];
      tstr := tstr + [saln[alnIdx]];
    }
    d := Cursor(soff, alnIdx);
  }

  /** CnsAlns: a fixed pool of `MaxCnsOvlps` alignment slots, the first
      `numAlns` of which are in use; slots are reused, never freed, between
      target reads. */
  class CnsAlns {
    var cnsAlns: array<CnsAln>
    var numAlns: int
    /** `MAX_SEQ_SIZE`: the size of each slot's character buffers. */
    const seqCapacity: nat
    ghost var Repr: set<object>

    ghost predicate Valid()
      reads this, Repr
    {
      && this in Repr && cnsAlns in Repr
      && cnsAlns.Length == MaxCnsOvlps
      && (forall i :: 0 <= i < cnsAlns.Length ==> cnsAlns[i] in Repr)
      && (forall i, j :: 0 <= i < j < cnsAlns.Length ==> cnsAlns[i] != cnsAlns[j])
      && 0 <= numAlns <= MaxCnsOvlps
      && (forall i :: 0 <= i < numAlns ==> cnsAlns[i].Valid() && cnsAlns[i].alnSize < seqCapacity)
    }

    /** Allocates the slots once and starts empty. */
    constructor(seqCapacity: nat)
      ensures Valid() && fresh(Repr)
      ensures numAlns == 0 && this.seqCapacity == seqCapacity
    {
      var slots: seq<CnsAln> := [];
      while |slots| < MaxCnsOvlps
        invariant |slots| <= MaxCnsOvlps
        invariant forall i :: 0 <= i < |slots| ==> fresh(slots[i])
        invariant forall i, j :: 0 <= i < j < |slots| ==> slots[i] != slots[j]
      {
        var slot := new CnsAln();
        slots := slots + [slot];
      }
      cnsAlns := new CnsAln[MaxCnsOvlps](i requires 0 <= i < MaxCnsOvlps => slots[i]);
      this.seqCapacity := seqCapacity;
      numAlns := 0;
      Repr := {this, cnsAlns} + set i | 0 <= i < |slots| :: slots[i];
    }

    /** The alignments in use. */
    ghost function Alns(): seq<CnsAln>
      reads this, Repr
      requires Valid()
    {
      cnsAlns[..numAlns]
    }

    /** clear: the pool is empty again; the slots are kept for reuse. */
    method Clear()
      requires Valid()
      modifies this`numAlns
      ensures Valid() && numAlns == 0
    {
      numAlns := 0;
    }

    /** num_alns: the number of alignments in use, never above the capacity. */
    function NumAlns(): (n: int)
      reads this, Repr
      requires Valid()
      ensures 0 <= n <= MaxCnsOvlps
    {
      numAlns
    }

    /** begin/end: the slots between `begin()` and `end()` are the
        alignments in use, each a valid alignment. */
    method BeginEnd() returns (alns: seq<CnsAln>)
      requires Valid()
      ensures alns == Alns() && |alns| == numAlns <= MaxCnsOvlps
      ensures forall i :: 0 <= i < |alns| ==> alns[i] == cnsAlns[i] && alns[i].Valid()
    {
      alns := cnsAlns[..numAlns];
    }

    /** add_aln: fills slot `numAlns` with a fresh cursor at `soff` and copies
        of both aligned strings, and counts it. The source checks neither the
        pool's capacity nor the buffers' size, hence the last two requires. */
    method AddAln(soff: int, send: int, qstr: seq<char>, tstr: seq<char>)
      requires Valid()
      requires |qstr| == |tstr|
      requires numAlns < MaxCnsOvlps
      requires |qstr| < seqCapacity
      modifies this`numAlns, cnsAlns[numAlns]
      ensures Valid()
      ensures numAlns == old(numAlns) + 1
      ensures var a := cnsAlns[old(numAlns)];
        && a.soff == soff && a.send == send && a.alnIdx == 0 && a.alnSize == |qstr|
        && a.qaln == qstr && a.saln == tstr
      ensures forall i :: 0 <= i < cnsAlns.Length && i != old(numAlns) ==> unchanged(cnsAlns[i])
    {
      var a := cnsAlns[numAlns];
      numAlns := numAlns + 1;
      a.soff := soff;
      a.send := send;
      a.alnIdx := 0;
      a.alnSize := |qstr|;
      a.qaln := qstr;
      a.saln := tstr;
      a.origin := soff;
      assert a.Valid() by {
        if |qstr| > 0 {
          assert tstr[1..1] == [];
        }
      }
    }

    /** get_mapping_ranges: one range per alignment in use, in slot order,
        each the alignment's current cursor position and end. */
    method GetMappingRanges() returns (ranges: seq<MappingRange>)
      requires Valid()
      ensures |ranges| == numAlns
      ensures forall i :: 0 <= i < numAlns ==> ranges[i] == MappingRange(cnsAlns[i].soff, cnsAlns[i].send)
    {
      ranges := [];
      var i := 0;
      while i < numAlns
        invariant 0 <= i <= numAlns
        invariant |ranges| == i
        invariant forall x :: 0 <= x < i ==> ranges[x] == MappingRange(cnsAlns[x].soff, cnsAlns[x].send)
      {
        ranges := ranges + [MappingRange(cnsAlns[i].soff, cnsAlns[i].send)];
        i := i + 1;
      }
    }
  }
}
