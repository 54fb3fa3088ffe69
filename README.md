# Consensus-alignment core of the mecat2cns read corrector

This project models the helper layer the mecat2cns consensus stage uses to
correct a long read from the reads aligned against it, and proves
properties of that model. The helper layer has four parts:

- **Gap normalisation** (`normalize_gaps`). Every mismatch column of a
  pairwise alignment is rewritten as an insertion/deletion pair. An optional
  pass then pushes gaps to the right onto a matching base. Modelled in
  `normalize.dfy`, with the gap symbol and the read an aligned string spells
  in `gaps.dfy`.
- **Low-identity masking** (`slide_window2`). A window of width `k` slides
  along two aligned strings. A position whose window matches too rarely is
  overwritten with `N` in a copy of the first string. Modelled in
  `window.dfy`.
- **The alignment pool** (`CnsAln`, `CnsAlns`), as classes with their fields.
  The pool holds up to 100 alignments against one target read. Each
  alignment has a forward-only cursor. `retrieve_aln_subseqs` uses the cursor
  to extract the columns that cover a target window. The file also models
  the consensus-table cell and its cleaner (`CnsTableItem`,
  `CnsTableItemCleaner`). Modelled in `cns_aln.dfy`.
- **Work partitioning** (`build_cns_thrd_data_can`). The extension
  candidates are sorted in place by target id and cut into one contiguous
  slice per worker. Modelled in `partition.dfy`.

Each imperative routine is a Dafny `method` with the source's loops. Its
`ensures` ties the result, or the new state, to a specification function.
The lemmas prove the promised properties about those functions.

The model follows the code in three places where it behaves differently from
what a reader might expect of it:

- `add_aln` does not report an error when all 100 slots are in use: it has
  no capacity check and writes past the pool. The model therefore requires
  a free slot.
- Two successive `retrieve_aln_subseqs` calls may both copy the boundary
  column. The first call stops on the column where the target position
  reaches `se`, and the second call starts from that same column. So the
  extracted column ranges are ordered but may share one column
  (`SuccessiveRetrievals`).
- The worker slices are contiguous, but not disjoint by target id: the
  candidates of one target read can end up in two slices, so two workers
  build a consensus for the same read (see Findings).

## Model

| member | source | states |
|---|---|---|
| Gaps.Degap | src/mecat2cns/reads_correction_aux.cpp:9-17 | the read an aligned string spells, i.e. its non-gap characters in order; never longer than the string |
| Normalize.MismatchCount | src/mecat2cns/reads_correction_aux.cpp:25 | the number of columns holding two different bases; never more than the number of columns |
| Normalize.Column | src/mecat2cns/reads_correction_aux.cpp:25-31 | one input column becomes one or two output columns with equal sides and no mismatch: a mismatch `(qc, tc)` becomes `(-, qc)` then `(tc, -)`, any other column is copied |
| Normalize.Expand | src/mecat2cns/reads_correction_aux.cpp:21-32 | the first pass, one input column at a time from the left; both sides have equal length, at least the input's |
| Normalize.ExpandLength | src/mecat2cns/reads_correction_aux.cpp:21-32 | after the first pass both sides have length `aln_size` plus the number of mismatch columns |
| Normalize.ColumnDegap | src/mecat2cns/reads_correction_aux.cpp:25-31 | the output columns of one input column spell the same two reads as that column |
| Normalize.ExpandDegap | src/mecat2cns/reads_correction_aux.cpp:21-32 | the first pass keeps the read spelled by each side, so each side keeps its number of non-gap characters |
| Normalize.ExpandMismatchFree | src/mecat2cns/reads_correction_aux.cpp:25-27 | after the first pass no column holds two different bases |
| Normalize.ExpandMismatchFreeIdentity | src/mecat2cns/reads_correction_aux.cpp:30-31 | on an alignment without mismatches the first pass copies every column, so a second first pass changes nothing |
| Normalize.ExpandExample | src/mecat2cns/reads_correction_aux.cpp:21-32 | `ACGT`/`AGGT` becomes `A-CGT`/`AG-GT` |
| Normalize.NextNonGap | src/mecat2cns/reads_correction_aux.cpp:44-53 | the scan stops on the first non-gap at or after `j`, or at the end; every position skipped is a gap |
| Normalize.PushGap | src/mecat2cns/reads_correction_aux.cpp:42-54 | one push step keeps the string's length |
| Normalize.PushColumn | src/mecat2cns/reads_correction_aux.cpp:39-69 | one column of the push pass keeps both sides of equal length |
| Normalize.PushFrom | src/mecat2cns/reads_correction_aux.cpp:39-69 | the push pass over columns `i` to `len - 2`; both sides keep equal length and the input's length |
| Normalize.PushGapDegap | src/mecat2cns/reads_correction_aux.cpp:44-53 | a push step only moves a base left across gaps, so the read spelled is unchanged |
| Normalize.PushColumnMismatchFree | src/mecat2cns/reads_correction_aux.cpp:42-68 | a push column never creates a mismatch: the moved base equals the other side's, and a gap is left behind |
| Normalize.PushFromPreserves | src/mecat2cns/reads_correction_aux.cpp:34-70 | the push pass keeps the lengths, both spelled reads and the absence of mismatches |
| Normalize.Normalized | src/mecat2cns/reads_correction_aux.cpp:3-82 | what `normalize_gaps` leaves in `qnorm`/`tnorm`: the first pass, then the push pass when `push` is set; the sides have equal length and no mismatch |
| Normalize.NormalizedProperties | src/mecat2cns/reads_correction_aux.cpp:3-82 | both outputs have equal length and no mismatch; each side spells the same read as its input (the debug count check); without push the length is `aln_size` plus the mismatch count |
| Normalize.PushGapAt | src/mecat2cns/reads_correction_aux.cpp:42-54 | the scan-and-swap loop computes exactly the push step on one side |
| Normalize.ExpandColumns | src/mecat2cns/reads_correction_aux.cpp:21-32 | the first loop, appending to empty strings, produces exactly the expansion |
| Normalize.PushGaps | src/mecat2cns/reads_correction_aux.cpp:35-70 | the push loop produces exactly the push pass over columns `0` to `len - 2` |
| Normalize.NormalizeGaps | src/mecat2cns/reads_correction_aux.cpp:3-82 | outputs rebuilt from empty equal the normalised alignment, have equal length and the input's non-gap counts; without push, the length is `aln_size` plus the mismatch count |
| SlideWindow.MatchCount | src/mecat2cns/reads_correction_aux.cpp:126-130 | the matches in a window never exceed its width |
| SlideWindow.MatchCountExtend | src/mecat2cns/reads_correction_aux.cpp:141-143 | extending a window on the right adds one exactly when the new pair matches |
| SlideWindow.MatchCountSelf | src/mecat2cns/reads_correction_aux.cpp:126-130 | a string compared with itself matches at every position |
| SlideWindow.WindowSize | src/mecat2cns/reads_correction_aux.cpp:135-160 | the width of the window at position `i`: `k` while a full window fits, then `len - i` in the tail |
| SlideWindow.WindowSizeBounds | src/mecat2cns/reads_correction_aux.cpp:149-157 | the window of a position, tail included, has width between 1 and `k` and ends inside the string |
| SlideWindow.Identity | src/mecat2cns/reads_correction_aux.cpp:131 | the identity `same_base / w` of a window, computed exactly on reals |
| SlideWindow.IdentityBounds | src/mecat2cns/reads_correction_aux.cpp:131 | an identity lies between 0 and 1, and is 1 when every pair of the window matches |
| SlideWindow.LowIdentity | src/mecat2cns/reads_correction_aux.cpp:131-133 | the window at `i` has identity below the threshold |
| SlideWindow.LowIdentityRange | src/mecat2cns/reads_correction_aux.cpp:131-133 | no window has low identity under a threshold of at most 0; every window has under a threshold above 1 |
| SlideWindow.Masked | src/mecat2cns/reads_correction_aux.cpp:122-160 | the masked copy: position `i` becomes `N` when its window has low identity and keeps `str1[i]` otherwise |
| SlideWindow.MaskedAt | src/mecat2cns/reads_correction_aux.cpp:122-160 | the masked copy has the input's length; each position is the input's character or `N`, and is `N` exactly when its window's identity is below the threshold (or the input already held `N`) |
| SlideWindow.MaskedIdentical | src/mecat2cns/reads_correction_aux.cpp:124-161 | identical strings are never masked when the threshold is at most 1 |
| SlideWindow.MaskedMonotone | src/mecat2cns/reads_correction_aux.cpp:145-146 | raising the threshold never unmasks a position |
| SlideWindow.NoMatchMasked | src/mecat2cns/reads_correction_aux.cpp:157-159 | a window without any matching pair is masked under any positive threshold |
| SlideWindow.NoMatchCount | src/mecat2cns/reads_correction_aux.cpp:126-130 | a range without matching pairs counts zero matches |
| SlideWindow.MaskNext | src/mecat2cns/reads_correction_aux.cpp:144-147 | masking position `n` exactly when its window has low identity extends the masked prefix of the copy by one position |
| SlideWindow.FirstWindowMatches | src/mecat2cns/reads_correction_aux.cpp:124-130 | the first loop leaves `same_base` equal to the number of matching pairs in `[0, k)` |
| SlideWindow.MaskFullWindows | src/mecat2cns/reads_correction_aux.cpp:135-148 | the full-window loop keeps `same_base` equal to the matches of the current window, and masks exactly the low-identity positions `1` to `len - k` |
| SlideWindow.MaskTail | src/mecat2cns/reads_correction_aux.cpp:149-161 | the tail loop, with the window shrinking to `[index, len)`, masks exactly the low-identity positions after `len - k` |
| SlideWindow.SlideWindow2 | src/mecat2cns/reads_correction_aux.cpp:114-163 | strings of different lengths leave `newstr1` as it was; otherwise the three loops together make `newstr1` exactly the masked copy of `str1` |
| CnsAlignment.CnsTableItem.constructor | src/mecat2cns/reads_correction_aux.h:11-20 | a new cell has base `N` and all four counters zero |
| CnsAlignment.CleanTableItem | src/mecat2cns/reads_correction_aux.h:22-32 | the cleaner puts a cell back in the default-constructed state |
| CnsAlignment.Step | src/mecat2cns/reads_correction_aux.h:58-59 | one step moves the cursor one column right; the target position grows by at most one, by one exactly when the new column's target side is a base |
| CnsAlignment.Skip | src/mecat2cns/reads_correction_aux.h:56-60 | the first loop only moves the cursor forward and stays inside the alignment |
| CnsAlignment.Collect | src/mecat2cns/reads_correction_aux.h:66-75 | the second loop only moves the cursor forward and stays inside the alignment |
| CnsAlignment.Retrieve | src/mecat2cns/reads_correction_aux.h:49-77 | the cursor a call leaves behind lies inside the alignment |
| CnsAlignment.Refused | src/mecat2cns/reads_correction_aux.h:52 | the guard: the window ends at or before the cursor's target position, starts at or after the alignment's end, or the cursor is on the last column |
| CnsAlignment.Reached | src/mecat2cns/reads_correction_aux.h:58-59 | the target position a cursor has once moved onto column `x`: its position plus the target bases of the columns after its own up to `x` |
| CnsAlignment.ReachedStep | src/mecat2cns/reads_correction_aux.h:58-59 | measuring from the cursor one step further gives the same target position for every later column |
| CnsAlignment.ReachedAdvanced | src/mecat2cns/reads_correction_aux.h:56-69 | measuring from any cursor advanced from `c` gives the same target position for every later column |
| CnsAlignment.SkipAdvances | src/mecat2cns/reads_correction_aux.h:56-60 | the first loop advances the target position by exactly the target bases stepped over; every column before the one it stops on is still below `sb`, and it stops at or past `sb` or on the last column, so it stops on the first column reaching `sb`; `soff` never ends past the larger of `sb` and where it started |
| CnsAlignment.CollectAdvances | src/mecat2cns/reads_correction_aux.h:66-75 | the second loop advances by exactly the target bases stepped over; every column before the one it stops on is still below `se`; it ends at or past `se` or on the last column with no `N` met, so on the first column reaching `se`, or stops on the first query-side `N`; `soff` never ends past the larger of `se` and where it started |
| CnsAlignment.RetrieveRefused | src/mecat2cns/reads_correction_aux.h:52 | a refused window returns false and changes neither the cursor nor `qstr`, `tstr`, `sb_out` |
| CnsAlignment.RetrieveSbOut | src/mecat2cns/reads_correction_aux.h:53 | otherwise `sb_out` is the larger of the entry target position and `sb` |
| CnsAlignment.RetrieveCursor | src/mecat2cns/reads_correction_aux.h:56-69 | `soff` and `aln_idx` never decrease, stay inside the alignment, and `soff` grows by exactly the non-gap `saln` entries stepped over |
| CnsAlignment.RetrieveCopies | src/mecat2cns/reads_correction_aux.h:54-76 | on success `qstr`/`tstr` are copies of `qaln`/`saln` over one contiguous column range ending at the new cursor, with no `N` in `qstr`; `se` or the last column has been reached, and the final target position is at most the larger of `sb_out` and `se` |
| CnsAlignment.RetrieveBoundaries | src/mecat2cns/reads_correction_aux.h:56-75 | for a call past the guard, the first column copied is the first column at which the target position reaches `sb`, or the last column; on success the last column copied is the first one after it that reaches `se`, or the last column |
| CnsAlignment.RetrieveStopsOnMask | src/mecat2cns/reads_correction_aux.h:61-72 | a failure after the guard sits on a query-side `N`; the advance made persists and the outputs hold the columns before it |
| CnsAlignment.SuccessiveRetrievals | src/mecat2cns/reads_correction_aux.h:52-76 | a later window ending at or before the cursor's target position fails; two successful calls copy column ranges in order, possibly sharing one column |
| CnsAlignment.AdvancedFromOrigin | src/mecat2cns/reads_correction_aux.h:56-69 | an advance keeps `soff` equal to the start plus the target bases after the first column up to the cursor |
| CnsAlignment.CnsAln.constructor | src/mecat2cns/reads_correction_aux.h:43-47 | an unfilled slot is empty (`aln_size` 0) with its cursor at column 0 and target position 0, and is a valid alignment |
| CnsAlignment.CnsAln.RetrieveAlnSubseqs | src/mecat2cns/reads_correction_aux.h:49-77 | the call returns and leaves behind exactly what `Retrieve` gives, keeps the alignment valid, and never moves the cursor back |
| CnsAlignment.RetrieveColumns | src/mecat2cns/reads_correction_aux.h:52-76 | the guard, `sb_out`, both loops and the first-column check together compute exactly `Retrieve` |
| CnsAlignment.SkipColumns | src/mecat2cns/reads_correction_aux.h:56-60 | the loop leaves the cursor where `Skip` puts it |
| CnsAlignment.CollectColumns | src/mecat2cns/reads_correction_aux.h:64-75 | the loop leaves the cursor and result as `Collect` gives them, and the outputs are the columns from the starting one up to the last one copied |
| CnsAlignment.CnsAlns.constructor | src/mecat2cns/reads_correction_aux.h:83-90 | a new pool has 100 distinct slots and no alignment in use |
| CnsAlignment.CnsAlns.Clear | src/mecat2cns/reads_correction_aux.h:97 | only the count is reset to 0 |
| CnsAlignment.CnsAlns.NumAlns | src/mecat2cns/reads_correction_aux.h:98 | the count lies between 0 and 100 |
| CnsAlignment.CnsAlns.BeginEnd | src/mecat2cns/reads_correction_aux.h:99-100 | `[begin, end)` is exactly the pool's first `num_alns` slots, the alignments in use, each a valid alignment |
| CnsAlignment.CnsAlns.AddAln | src/mecat2cns/reads_correction_aux.h:101-135 | only slot `num_alns` is written and the count grows by one; the new entry has the given `soff`/`send`, cursor column 0, `aln_size` equal to the length of `qstr` and copies of both strings; other slots are unchanged |
| CnsAlignment.CnsAlns.GetMappingRanges | src/mecat2cns/reads_correction_aux.h:136-140 | one range per alignment in use, in slot order, each the entry's current `(soff, send)` |
| Partition.CmpExtensionCandidateBySid | src/mecat2cns/reads_correction_aux.cpp:172-178 | a candidate comes before another when its target id is smaller |
| Partition.CmpIsStrictWeakOrder | src/mecat2cns/reads_correction_aux.cpp:172-178 | the comparator is irreflexive and transitive, and so is incomparability |
| Partition.Swap | src/mecat2cns/reads_correction_aux.cpp:193 | the exchange step of the sort: two elements trade places, all others and the multiset of elements are unchanged |
| Partition.SortBySid | src/mecat2cns/reads_correction_aux.cpp:193 | afterwards no element is ordered by the comparator before an earlier one, and the array is a permutation of its old contents |
| Partition.DivTrunc | src/mecat2cns/reads_correction_aux.cpp:192 | C integer division of the id range by the thread count, truncating toward zero |
| Partition.DivTruncTowardZero | src/mecat2cns/reads_correction_aux.cpp:192 | C division rounds toward zero: down for a non-negative dividend, up for a negative one |
| Partition.ReadsPerThread | src/mecat2cns/reads_correction_aux.cpp:190-192 | `num_reads_per_thread`: `(num_reads + num_threads - 1) / num_threads` with `num_reads = max_rid - min_rid + 1` |
| Partition.ReadsPerThreadCeil | src/mecat2cns/reads_correction_aux.cpp:190-192 | for a non-empty id range the span is at least 1 and `num_threads` spans cover the range |
| Partition.SliceEnd | src/mecat2cns/reads_correction_aux.cpp:200-201 | the inner scan stops on the first candidate at or past the boundary, or at the end; all skipped are below it |
| Partition.SlicesFrom | src/mecat2cns/reads_correction_aux.cpp:194-205 | the slices made from index `i` on: each takes its first candidate and the following ones below the boundary, which advances by one span per slice; there are at most as many slices as remaining candidates |
| Partition.Slices | src/mecat2cns/reads_correction_aux.cpp:190-205 | the slicing of the sorted candidates from `min_rid` with the computed span; at most one slice per candidate |
| Partition.SlicesFromTile | src/mecat2cns/reads_correction_aux.cpp:197-205 | the slices are non-empty, contiguous, in order, numbered from 0 and cover `[0, nec)`; none for `nec == 0` |
| Partition.TilesExactlyOnce | src/mecat2cns/reads_correction_aux.cpp:197-205 | every candidate lies in exactly one slice |
| Partition.TilesOffsetsIncrease | src/mecat2cns/reads_correction_aux.cpp:197-205 | slices come in increasing order inside `[0, nec)` |
| Partition.SlicesFromMembers | src/mecat2cns/reads_correction_aux.cpp:199-201 | slice `g` is its first candidate plus the following ones whose `sid` is below `min_rid + (g+1)·span`; the next candidate is not below it |
| Partition.SliceStartsPastBoundary | src/mecat2cns/reads_correction_aux.cpp:199-201 | every slice after the first starts on an `sid` at least `min_rid + g·span` |
| Partition.SlicesAtMostThreads | src/mecat2cns/reads_correction_aux.cpp:190-205 | when every `sid` lies in `[min_rid, max_rid]`, at most `num_threads` slices are made |
| Partition.NoCandidatesNoSlices | src/mecat2cns/reads_correction_aux.cpp:197 | without candidates no slice is made |
| Partition.SlicesExample | src/mecat2cns/reads_correction_aux.cpp:190-205 | sids 1,1,2,5,5,5,9 over `[1,9]` and 3 threads give slices of 3, 3 and 1 candidates |
| Partition.SlicesFromStep | src/mecat2cns/reads_correction_aux.cpp:199-204 | one outer iteration emits the slice up to the scan's end and continues from there |
| Partition.ScanSlice | src/mecat2cns/reads_correction_aux.cpp:200-201 | the inner loop stops where `SliceEnd` says |
| Partition.SlicesFromEmit | src/mecat2cns/reads_correction_aux.cpp:199-204 | emitting one slice keeps the emitted slices followed by the remaining ones equal to the whole slicing |
| Partition.MakeSlices | src/mecat2cns/reads_correction_aux.cpp:194-205 | the slicing loop produces exactly the slicing of the array from `min_rid` with the given span |
| Partition.BuildCnsThrdDataCan | src/mecat2cns/reads_correction_aux.cpp:180-206 | the array ends sorted and a permutation of its input; the contexts are its slices and tile `[0, nec)` |
| Partition.SplitTargetExample | src/mecat2cns/reads_correction_aux.cpp:199-202 | as written, sids 1, 9, 9 over `[1, 9]` and 3 threads put read 9 in two slices |
| Partition.NextBound | src/mecat2cns/reads_correction_aux.cpp:199 | corrected boundary: past the slice's first `sid`, and at least one span further |
| Partition.DisjointSlicesFrom | src/mecat2cns/reads_correction_aux.cpp:197-205 | the corrected slicing: a slice's boundary is advanced past its first `sid` before the slice is cut |
| Partition.DisjointSlicesTile | src/mecat2cns/reads_correction_aux.cpp:197-205 | the corrected slicing still tiles the candidates |
| Partition.DisjointSliceBelowNext | src/mecat2cns/reads_correction_aux.cpp:199-201 | under the corrected slicing every `sid` of a slice is below the next slice's first `sid` |
| Partition.DisjointSlicesSeparate | src/mecat2cns/reads_correction_aux.cpp:197-205 | under the corrected slicing of sorted input, every `sid` of an earlier slice is below every `sid` of a later one |

## Left out

- `slide_window` (reads_correction_aux.cpp:84-111): it computes an identity that is neither returned nor stored, so it has no observable effect.
- The debug print in `normalize_gaps` and the commented-out prints in `add_aln`: output only.
- The command-line driver in `main.cpp` is not part of this model.
- The rest of `ConsensusThreadData`: options, the banded aligners, `M5Record`, the packed read store, the mutex and the shared output stream. These are external or resource management. Each context is the record `(threadId, offset, numCandidates)`, and `ppctd` is the returned sequence.
- Threads: nothing here runs concurrently.
- SlideWindow.SlideWindow2: the `double` identity `same_base / w < threshold` is compared exactly on reals, without floating-point rounding.
- SlideWindow.SlideWindow2: requires `1 <= k <= |str1|` when the lengths agree; callers pass a width in that range. The source behaves as follows outside it:
  - For `len >= 1` with `k <= 0` or `k >= len + 2`, a `substr` call throws `std::out_of_range`.
  - For `k == len + 1`, the first loop compares the two empty substrings at `i == len` and counts them as one more match, and the tail loop then starts at position 0.
  - For `len == 0`, the call returns `""` when `k == 0`, or when `k == 1` and the threshold is at most 1. With `k == 1` and a threshold above 1, it writes `N` over the empty string's terminator. With `k < 0` or `k >= 2`, a `substr` call on the empty string throws `std::out_of_range`.
- Normalize.NormalizeGaps: the scan past the last character reads the string's terminating NUL. The model treats it as a non-gap that equals no base, so no swap happens there.
- CnsAlignment.CnsAlns.AddAln: requires a free slot and `|qstr| < MAX_SEQ_SIZE`. The source checks neither: it overruns the pool or the fixed buffers instead.
- `MAX_SEQ_SIZE` and `GAP` are defined in headers that are not part of this model. `MAX_SEQ_SIZE` is the pool's constructor parameter; `GAP` is taken to be `-`, as in `normalize_gaps`.
- The fixed character buffers and `memcpy` are modelled as sequences of the stored length. The NUL terminator after the copy is left out.
- Partition.BuildCnsThrdDataCan: the array holds exactly the `nec` candidates. `ExtensionCandidate` keeps only `sid` and `qid`, since the other fields do not affect the slicing.
- Integer widths: `int`, `index_t` and `idx_t` are unbounded here, and `uint1` counters are bytes. No overflow is modelled.

## Findings

| source | as written | input that shows it | evidently intended | confidence | as-written member | corrected member |
|---|---|---|---|---|---|---|
| src/mecat2cns/reads_correction_aux.cpp:199-201 | each slice takes its first candidate whatever its `sid`, and the boundary advances by one span per slice, so a target read's candidates can be split across two slices | sids 1, 9, 9 with `min_rid = 1`, `max_rid = 9`, 3 threads: slices {1}, {9}, {9} | slices disjoint by target id, so one worker handles all candidates of a read | medium, not executed | Partition.SplitTargetExample | Partition.DisjointSlicesSeparate |

`Partition.Slices` and `Partition.BuildCnsThrdDataCan` model the slicing as
written. `Partition.DisjointSlicesFrom` is the corrected slicing. It moves a
slice's boundary past the slice's first `sid`, so each slice lies below its
boundary. For sorted input, `Partition.DisjointSlicesTile` and
`Partition.DisjointSlicesSeparate` prove that the corrected slices tile the
candidates and are separated by target id.
