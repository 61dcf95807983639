# Verified model of the encoded-search, chunking and boundary cores

The Dafny files model the parts of the repository whose correctness is an
argument rather than a glance, and prove those arguments for all inputs, all
runs and all schedules.

**The probe tree.** `Nodes` holds the thirteen encodings and `Decode`, the rows
each stands for. `NodeSearch`, `NodeBulk` and `SortedProbe` are the searches and
reads over the compressed form; their contracts speak of `Decode` only. `WF` is
what the encodings promise of their children: run ends ascend and reach the
view, sequences stay in the word, codes lie in their dictionary, patches ascend,
chunks are not empty and meet. The bounds ask nothing of the order but that some
position splits the rows at the needle, as it does wherever they ascend.
`Search` holds the interpolating search, `Sinks` what an equality search
gathers, `RunEnds`, `BitPacked`, `Delta`, `Patches`, `Words` and `Rows` one
encoding each. `Resolve` builds the tree from an encoded array.

**The column index.** `Columns` is a file column cut into leaves, `Layout` the
class that fetches, caches and searches them, `LayoutTree` the walk from a
layout tree to its leaves, and `Races` the interleavings of callers on one
column's write-once cells: a caller is cut at every read of a cell, every fetch
and every set, and a schedule is any sequence of turns.

**The run-end filter.** `RunFilter` is the one-pass kernel over 64-bit mask
words.

**The chunking encoder.** `Sharing`, `Payloads`, `Encode`, `SharedRows`,
`CodeRows` and `Streams` run from the distinct-code cache to whole reads of a match.

**The boundary protocols.** `Handles` and `LazyStream` are the lazy quad stream.
What listeners do is a script the stream consumes, so every re-entrant run is
one of its runs. `TermParts` and `PackQuads` are the packed-quad writer and
reader.

**The dataset generator.** `Divisors` and `Datasets` are its Chinese-remainder
argument.

Three findings, each with a concrete input that shows it.

- A run-end view of all the rows of runs whose first is empty (a first end of 0)
  can hide the needle's rows from `bounds`, which searches once for both ends;
  `lower_bound` and `upper_bound` find them. `RunEnds.BoundsRightIff` says
  exactly for which views and needles, and `NodeSearch.Bounds` carries it
  through frames of reference to every tree.
- A frame of reference whose sum passes the largest word saturates, and `bounds`
  and equality searches, which shift the needle, then miss rows at that needle
  (`NodeSearch.SaturationHidesTheNeedle`, `NodeBulk.SaturationHidesTheMatch`).
  `NodeSearch.BoundsRightIff` and `NodeBulk.RaisedMatches` say exactly when they
  are right. The single bounds stay exact, and no tree `Resolve` builds saturates.
- `destroy()` is documented to stop a stream without `end` or `error`. A stream
  that had already ended or failed still emits its queued event after it
  (`LazyStream.EndAfterDestroy`), and no other stream does
  (`LazyStream.QuadStream.DestroyThenRun`).

## Model

| member | source | states |
|---|---|---|
| Search.Partition | encoded-search/src/search.rs:87-98 | the bisection loop returns the partition point, whatever the order of the values |
| Search.PartitionPoint | encoded-search/src/search.rs:87-98 | a partition point has a true predicate on its left and a false one on its right, with no order assumed |
| Search.SearchCapped | encoded-search/src/search.rs:31-84 | with no order at all: answer and cap are in range, the answer never passes the cap, neighbours of both are on the right sides of the needle, and the reads are at most a bisection's plus four |
| Search.SearchAscendingCapped | encoded-search/src/search.rs:31-84 | the three loops (straddle, interpolate, bisect) compute that answer, cap and number of reads |
| Search.SearchIsLower | encoded-search/src/search.rs:14-30 | wherever some position splits the values at the needle, the interpolating search answers it, as bisection does, and its cap is never before the end of the needle's rows |
| Search.SplitPoint | encoded-search/src/search.rs:65-66 | an interpolated split lies inside the window |
| Search.SplitFits | encoded-search/src/search.rs:65-66 | the interpolation's product fits 128 bits and the proposed position fits an index, up to the u64 edges |
| Search.Probe | encoded-search/src/search.rs:40-56 | each probe reads inside the window, keeps both sides bracketed and shrinks the window |
| Search.HalvingsIsLogarithm | encoded-search/src/search.rs:87-98 | a bisection takes at most k reads exactly below the k-th power of two |
| Search.CappedBounds | encoded-search/src/lib.rs:160-169 | one search and its cap give the needle's run wherever the values split around it, and stay in range over any |
| Sinks.MatchesExact | encoded-search/src/search.rs:103-109 | an offset is handed over exactly when its value equals the needle |
| Sinks.MatchesAscend | encoded-search/src/search.rs:103-109 | offsets are handed over ascending, so each once |
| Sinks.MatchesConcat | encoded-search/src/search.rs:103-109 | finding in two adjacent windows finds in their union |
| Sinks.TallyNarrow | encoded-search/src/search.rs:119-139 | byte tallies over blocks of 255 never overflow and add up to the number of matches |
| Sinks.TallyWide | encoded-search/src/search.rs:119-139 | the wide count is the number of matches |
| Sinks.EqSink.Run | encoded-search/src/search.rs:114-118 | a run of matching offsets is counted, appended or reduced to a code as those offsets one by one would be |
| Sinks.EqSink.Matching | encoded-search/src/search.rs:119-160 | what a sink holds after a window is what it held, and the window's matches in order |
| Words.LowerBoundExact | encoded-search/src/words.rs:95-110 | the lower bound of a needle in narrow words is exact wherever they split at it, a needle no word can be lying past them all |
| Patches.PatchedAt | encoded-search/src/node.rs:57-64 | one search of the patched positions says what a row holds once every patch is written over it |
| BitPacked.New | encoded-search/src/bitpacked.rs:45-64 | a packing is made exactly when its width fits and its buffer holds every chunk; no checked arithmetic turns down another |
| BitPacked.ChunkSlice | encoded-search/src/bitpacked.rs:193-213 | every chunk a read reaches lies inside the packed buffer |
| BitPacked.Crossover | encoded-search/src/bitpacked.rs:342-349 | every tier's short part fits the fixed buffer |
| BitPacked.ChunkPart | encoded-search/src/bitpacked.rs:331-336 | a chunk's part lies inside the chunk, every position below 1024 |
| BitPacked.ReadParts | encoded-search/src/bitpacked.rs:193-213 | the parts handed on tile the window in order and hold its packed values, in all three tiers |
| BitPacked.ReadShortPart | encoded-search/src/bitpacked.rs:247-262 | a short part is unpacked in its fixed buffer, never as a whole chunk |
| BitPacked.UnpackChunk | encoded-search/src/bitpacked.rs:265-278 | a part of an unpacked chunk holds the values at its positions |
| BitPacked.UnpackPositions | encoded-search/src/bitpacked.rs:284-308 | unpacking at positions gives the values a whole unpack gives there |
| BitPacked.ReadInto | encoded-search/src/bitpacked.rs:108-141 | a bulk read writes exactly the packed rows and nothing else |
| BitPacked.EqInto | encoded-search/src/bitpacked.rs:147-185 | an equality search hands over exactly the packed rows equal to the needle |
| RunEnds.ExpandAt | encoded-search/src/node.rs:240-301 | a row of the expansion holds the value of the run it lies in |
| RunEnds.WindowRuns | encoded-search/src/node.rs:732-745 | the runs overlapping a sliced view: those between its first and last row's |
| RunEnds.RunOfHolds | encoded-search/src/node.rs:181-238 | a row's value is that of the run found by one search of the ends, on any sliced view |
| RunEnds.OverlappingValuesSplit | encoded-search/src/node.rs:701-730 | only the runs a view overlaps inherit its order, whatever the values of the runs it does not show |
| RunEnds.RunSplitIsRowSplit | encoded-search/src/node.rs:701-730 | a split of the overlapping runs' values is a split of the rows at the clamped start of the run |
| RunEnds.LowerBoundExact | encoded-search/src/node.rs:413-477 | a run-end view's lower bound is exact wherever its own rows split at the needle, over an empty first run too |
| RunEnds.BoundsExact | encoded-search/src/node.rs:701-730 | one search of the overlapping runs gives both bounds, adjacent runs repeating a value included, unless an empty first run hides the needle |
| RunEnds.EmptyFirstRunHidesTheNeedle | encoded-search/src/node.rs:739-741 | a concrete view over an empty first run whose needle the search for both bounds misses and each bound's own search finds |
| RunEnds.BoundsRightIff | encoded-search/src/node.rs:701-745 | for every view and needle its rows split around, both bounds are right exactly unless the view shows all the rows of runs whose first is empty, holds a value above the needle, and the next holds the needle |
| RunEnds.RunsIn | encoded-search/src/node.rs:662-689 | the walk's runs tile the window in order, each holding its rows' value |
| Delta.New | encoded-search/src/delta.rs:54-76 | a delta node is made exactly over children that hold every block it spans |
| Delta.DeltaNode.Block | encoded-search/src/delta.rs:102-111 | a cached block equals a fresh decode of it |
| Delta.DeltaNode.ValueAt | encoded-search/src/delta.rs:83-86 | a point read through the cache is the decoded row |
| Delta.DeltaNode.ReadInto | encoded-search/src/delta.rs:90-100 | a bulk read through the cache writes exactly the decoded rows, block by block |
| Delta.RowInBlock | encoded-search/src/delta.rs:83-86 | where a row lies among the blocks |
| Rows.RaisedSplits | encoded-search/src/node.rs:413-477 | a frame of reference splits at a word exactly where its child does at the shifted one, saturating or not |
| Rows.ProgressionLower | encoded-search/src/node.rs:413-477 | the closed form of a sequence's lower bound is exact up to the u64 edges |
| Rows.ClampIsMinimum | encoded-search/src/node.rs:695-697 | clamping a position to the length never wraps, whatever index width holds the length |
| NodeSearch.ValueAt | encoded-search/src/node.rs:181-238 | a point read is the decoded row, for every encoding and any order |
| NodeSearch.Lookup | encoded-search/src/node.rs:57-64 | a patch lookup finds exactly the exception written over a row |
| NodeSearch.LowerBound | encoded-search/src/node.rs:413-477 | for every well-formed tree and every u64 needle at which some position splits the decoded rows, the lower bound is that position; in range with no order |
| NodeSearch.UpperBound | encoded-search/src/node.rs:482-486 | the upper bound likewise, the largest needle included |
| NodeSearch.Bounds | encoded-search/src/node.rs:496-519 | wherever the decoded rows split around the needle, both bounds at once are right exactly when no empty first run hides it; at the largest needle, unless a frame of reference saturates |
| NodeSearch.ThroughTheFrame | encoded-search/src/node.rs:504-509 | bounds taken through a frame of reference are right exactly when its child's are for the shifted needle |
| NodeSearch.BoundsRightIff | encoded-search/src/node.rs:496-519 | where the innermost rows split around the needle, saturating frames included, both bounds at once are right exactly when no empty first run hides it and, at the largest needle, no frame of reference saturates; a hidden needle gets the empty bounds at 0 |
| NodeSearch.SaturationHidesTheNeedle | encoded-search/src/node.rs:504-509 | a concrete saturating frame whose row the search for both bounds misses at the largest needle and each bound's own search finds |
| NodeSearch.ChunkBoundary | encoded-search/src/node.rs:413-477 | the bound within the first chunk whose last value reaches the needle is the bound over all chunks |
| NodeSearch.ChunkOrder | encoded-search/src/node.rs:413-477 | each chunk splits where the whole does, and a last chunk below the needle leaves nothing past it |
| NodeSearch.ChunkRow | encoded-search/src/node.rs:181-238 | a chunk's row is the whole's row at its start plus it |
| NodeBulk.ChunkWindows | encoded-search/src/node.rs:635-651 | the chunk windows of a read tile its range in order |
| NodeBulk.ReadInto | encoded-search/src/node.rs:240-301 | a bulk read writes exactly the rows point reads give, for every well-formed tree, and nothing else |
| NodeBulk.Overwrite | encoded-search/src/node.rs:69-81 | one pass over the patches of a window equals a lookup per row |
| NodeBulk.EqInto | encoded-search/src/node.rs:311-388 | the sink is handed exactly the offsets whose decoded value equals the needle, ascending and once, for every encoding and any window, with no order, unless the needle is the largest word and a frame of reference passed through saturates; then still only offsets of the window, and a frame raised by a positive reference is searched right exactly when no row of the window saturates |
| NodeBulk.RaisedMatches | encoded-search/src/node.rs:355-359 | the shifted needle finds the window's matches exactly when the needle is below the largest word or no row of the window saturates |
| NodeBulk.SaturationHidesTheMatch | encoded-search/src/node.rs:355-359 | a concrete saturating frame of reference whose one matching row the search does not hand over |
| NodeBulk.EqRead | encoded-search/src/node.rs:393-409 | searching block by block through a fixed buffer finds what one search finds |
| NodeBulk.CodesOfNeedle | encoded-search/src/node.rs:601-632 | a needle mapped to no code matches nothing, and mapped to one code matches that code's rows |
| NodeBulk.SequenceHolds | encoded-search/src/node.rs:311-388 | a sequence holds a needle exactly where the division by its step comes out even inside it, and nowhere else |
| NodeBulk.LenFits | encoded-search/src/node.rs:163-178 | a well-formed tree's length is an index |
| SortedProbe.BoundsIn | encoded-search/src/lib.rs:160-169 | bounds in a window are exact wherever the window's own rows split around the needle, in absolute rows; in range with no order |
| SortedProbe.CountEq | encoded-search/src/lib.rs:206-214 | the count equals the number of offsets a find appends, the largest needle under a saturating frame aside |
| SortedProbe.EqOffsets | encoded-search/src/lib.rs:225-232 | a find appends exactly the matching offsets to what was there, the largest needle under a saturating frame aside |
| SortedProbe.ConsecutiveRun | encoded-search/src/lib.rs:266-271 | the longest run of consecutive rows a list starts with |
| SortedProbe.ReadAt | encoded-search/src/lib.rs:241-253 | reading a row list run by run gives each listed row's value in the list's order |
| SortedProbe.ReadRows | encoded-search/src/layout.rs:708-720 | the greedy split into consecutive runs covers each listed row once |
| Resolve.ResolveNode | encoded-search/src/resolve.rs:32-291 | resolution succeeds exactly on the supported set, and then the tree is well-formed, decodes to the array's own values and has no frame of reference that saturates |
| Resolve.ResolveRle | encoded-search/src/resolve.rs:126-144 | a run-length array resolves with the first offset it kept as the base of its places |
| Resolve.ResolveSequence | encoded-search/src/resolve.rs:58-71 | a negative base or step declines, a zero step resolves to a constant |
| Resolve.ResolveChunked | encoded-search/src/resolve.rs:239-292 | a chunked array resolves to its chunks' nodes end to end |
| Resolve.ResolveChunks | encoded-search/src/resolve.rs:239-292 | empty chunks dropped and contiguous slices merged, the chunks lie end to end, none empty, and hold the array's rows |
| Resolve.Merge | encoded-search/src/resolve.rs:254-270 | the merged window is the one the slices from a chunk on make together, and the run is as long as it can be |
| Resolve.IsSequence | encoded-search/src/resolve.rs:58-71 | a zero step resolves to a constant, a positive one to a sequence inside the word range, with the array's values |
| Resolve.IsRle | encoded-search/src/resolve.rs:126-144 | a sliced run-length array counts its places from the first offset it kept |
| Columns.ComposeIsFaithful | encoded-search/src/layout.rs:617-626 | codes composed with their dictionary's values resolve to a probe of the column's values |
| Columns.FlatRow | encoded-search/src/layout.rs:93-109 | a leaf's row is the column's row at the leaf's first plus it |
| Columns.LeafBounds | encoded-search/src/layout.rs:365-391 | the first leaf of a window whose last value reaches the needle, its last at the latest, has a part of the window and the bound lies in it |
| Columns.PartBoundIsWindowBound | encoded-search/src/layout.rs:323-391 | the bound within that leaf's part is the window's bound |
| Columns.GlobalLower | encoded-search/src/layout.rs:244-266 | the first leaf whose last value reaches the needle holds its first row |
| Layout.ColumnChunks.DictArray | encoded-search/src/layout.rs:44-62 | a dictionary's values are fetched once, kept, and the segment's own; it fails only if a fetch can |
| Layout.ColumnChunks.ChunkLeaf | encoded-search/src/layout.rs:610-649 | a leaf is fetched at most once, then kept, and is its own decode with its dictionary composed in; no other leaf's cell changes |
| Layout.ColumnChunks.ChunkLast | encoded-search/src/layout.rs:295-310 | a leaf's last value, read once and kept |
| Layout.ColumnChunks.FirstReaching | encoded-search/src/layout.rs:271-291 | the first leaf of a range whose last value reaches the needle, a halving's worth of leaves newly fetched at most; no answer only for an unreachable segment or a declining leaf |
| Layout.ColumnChunks.LowerBound | encoded-search/src/layout.rs:244-266 | the global lower bound of the flat column, fetching at most a halving's worth of leaves and one more |
| Layout.ColumnChunks.Bounds | encoded-search/src/layout.rs:204-237 | the needle's global run, one that crosses any number of leaves included, when no leaf's probe hides it; at most twice what a lower bound fetches |
| Layout.ColumnChunks.WindowLeaf | encoded-search/src/layout.rs:365-391 | the part of a window in the leaf holding the bound; when the window ascends, the bound lies in it; only leaves of the window are touched |
| Layout.ColumnChunks.BoundsIn | encoded-search/src/layout.rs:323-358 | the window's run, determined by the window's rows alone; no cell of a leaf outside the window changes, and the answer is missing only for a leaf of the window |
| Layout.ColumnChunks.RowsInLeaf | encoded-search/src/layout.rs:417-441 | a window inside one leaf shows the column's rows; declined only across leaves or by a declining leaf |
| Layout.ColumnChunks.ValueAt | encoded-search/src/layout.rs:449-467 | one row's value is the flat column's |
| Layout.ColumnChunks.ValuesAt | encoded-search/src/layout.rs:479-514 | the values of any row list are the flat column's, in the list's order |
| Layout.ColumnChunks.Take | encoded-search/src/layout.rs:524-550 | ascending rows taken leaf by leaf are the flat column's values, a declining leaf included |
| Layout.ColumnChunks.CountEq | encoded-search/src/layout.rs:559-593 | the number of rows of a window equal to the needle, counted leaf by leaf; the largest needle only where no leaf's frame of reference saturates |
| Layout.LeafRowsBounds | encoded-search/src/layout.rs:670-673 | bounds inside a leaf's window, in the column's rows, exact when the window ascends |
| Layout.LeafRowsValuesAt | encoded-search/src/layout.rs:708-720 | a row list read through a leaf's window gives the window's values |
| LayoutTree.CollectLeaves | encoded-search/src/layout.rs:770-807 | the walk answers exactly for the shapes it supports, and the leaves pushed are not empty, lie end to end from the node's first row and hold the node's rows |
| LayoutTree.CollectChunks | encoded-search/src/layout.rs:787-796 | a chunked layout's chunks at their own offsets lie end to end |
| LayoutTree.UnwrapZoned | encoded-search/src/layout.rs:832-837 | descending through zoned wrappers changes neither rows nor support |
| LayoutTree.Index | encoded-search/src/layout.rs:145-165 | adjacent codes leaves of one dictionary share one cell of its values |
| LayoutTree.Open | encoded-search/src/layout.rs:131-172 | the index of a supported layout is well-formed and its flat column is the layout's own rows |
| Races.LeafWrittenOnce | encoded-search/src/layout.rs:610-649 | under every schedule a leaf cell changes at most once, and exactly once when it was empty and ends filled |
| Races.RunGrows | encoded-search/src/layout.rs:44-62 | under every schedule no filled cell changes: leaf, last value or dictionary |
| Races.RunAgrees | encoded-search/src/layout.rs:295-310 | every step of every schedule keeps each caller's view of the cells and ties a last value to its leaf's array |
| Races.StartAgrees | encoded-search/src/layout.rs:79-103 | with every cell empty and no caller run, what every step keeps holds |
| Races.CallersAgree | encoded-search/src/layout.rs:610-649 | callers of one leaf see the same array and the same last value, and the last value is the array's, whenever and in whichever order they finish, whatever each fetch brought back |
| Races.RunTrue | encoded-search/src/layout.rs:610-649 | with a source that answers truly, every filled cell and every answer is the leaf's own decode |
| Races.CallerFinishes | encoded-search/src/layout.rs:295-310 | a caller finishes in at most eleven turns of its own, whoever else runs or stops |
| RunFilter.OnesOfWord | core/src/kernels.rs:175-203 | a word's population count is its number of set bits |
| RunFilter.LowBits | core/src/kernels.rs:194 | masking with the low ones keeps a word's first bits |
| RunFilter.RankFromWord | core/src/kernels.rs:190-195 | the set bits of the words before and of the low bits of a row's word are the row's rank |
| RunFilter.KeptRunEnds | core/src/kernels.rs:175-203 | one pass over the mask's words finds which runs keep a row and their ends among the kept rows; the shift stays below a word |
| RunFilter.KeptRunsDecode | core/src/kernels.rs:160-166 | the kept ends strictly ascend and, with the kept runs' values, decode to the kept rows so far |
| RunFilter.KeptEndsFit | core/src/kernels.rs:149-156 | a kept run's new end is at most its old one, so it fits the ends' own type |
| RunFilter.FilterRunEnd | core/src/kernels.rs:127-172 | the filter declines exactly below its two thresholds; otherwise the array built decodes to the rows the mask keeps, its ends strictly ascending to the true count |
| Sharing.DistinctCodes | core/src/store/layouts/dictionary/sharing.rs:26-47 | every position's slot holds its code, slots are numbered as first used, and each is the one the 256-bucket cache gives |
| Sharing.PrefixSameSlots | core/src/store/layouts/dictionary/sharing.rs:22-25 | a position's slot depends on no code after it |
| Payloads.NewLimits | java/src/payload.rs:47-65 | limits are accepted exactly when a row's shared text fits the budget and every offset an i32 |
| Payloads.Payload.Push | java/src/payload.rs:97-107 | a pushed term's entry names it and every earlier entry what it named, the 32-bit casts included |
| Payloads.Pace.Learn | java/src/payload.rs:317-340 | the pace stays in 1..=limits.rows, drops to what fitted after a cut and never drops otherwise, and doubles up to the limit after a half-full chunk |
| Encode.Decode | java/src/payload.rs:197-225 | visited in any order, what is copied never passes the budget; within it every entry spells its code's term and the byte counts are exact; misses are found |
| Encode.FittingRows | java/src/payload.rs:229-241 | the rows that keep the slots' terms within the budget: the most that do, at least one |
| Encode.TermBytesAreSlotBytes | java/src/payload.rs:229-241 | a slot's term counts once, at the position that made it |
| Encode.EncodeDistinct | java/src/payload.rs:150-171 | a chunk spells exactly its rows' terms; it keeps the largest row prefix whose slot terms fit, at least one row; only a one-row chunk passes the budget, its shared text never does |
| Encode.EncodeFitting | java/src/payload.rs:165-170 | the second call's slots are the kept rows' own, and its text fits an i32 |
| Encode.EncodeCodes | java/src/payload.rs:113-127 | the rows sent are the most that fit and carry every term; an error exactly when one of those rows has a code no term is known for |
| Encode.CutIsKept | java/src/payload.rs:229-241 | the rows a cut keeps are determined by the codes, the dictionary and the limits |
| Encode.EncodeLookup | java/src/payload.rs:131-140 | a lookup's chunk spells its codes, those no term is known for as no term |
| SharedRows.SendTerm | java/src/payload.rs:269-281 | a term is sent under the entry of its allocation when it was sent before, and spelled by it |
| SharedRows.SendRow | java/src/payload.rs:254-284 | a row's terms are spelled, its bytes at most the estimate from above, its shared text within the budget |
| SharedRows.EncodeShared | java/src/payload.rs:248-288 | a shared allocation's term is sent once a chunk, any other each time; the rows held spell their terms; the next row would have passed the budget; only a one-row chunk passes it |
| Streams.Cursor.Ready | java/src/streams.rs:76-98 | pulling loses no row and skips empty chunks; a spent cursor holds nothing and stays spent; it fails only on an upstream error |
| Streams.WriteRows | java/src/payload.rs:17-29 | as many rows as the buffer and the chunk hold, each its thirty-two bytes, and nothing past them |
| CodeRows.RowReadsBack | java/src/payload.rs:17-29 | a row's four codes read back from its bytes in either byte order |
| CodeRows.BytesTellRowsApart | java/src/payload.rs:17-29 | rows of the same bytes are the same rows |
| Streams.CodeStream.Next | java/src/streams.rs:198-207 | the bytes of the next rows in order; none exactly when there is no room or no row left |
| Streams.CodeStream.Run | java/src/streams.rs:188-207 | over a whole run, whatever the rooms and the chunks upstream, the rows whose bytes were written and those to come are the match |
| Streams.TermStream.NextPayload | java/src/streams.rs:167-183 | each payload spells the next rows, at least one and at most the pace's, within the budget but for the large terms of a single row; a failure loses nothing and has a cause |
| Streams.TermStream.Run | java/src/streams.rs:105-184 | over a whole run the terms sent and those pending are the match's, each once and in order; every call before the end sends a row |
| Divisors.Gcd | js/bench/datasets.ts:72-75 | the remainder loop returns the greatest common divisor |
| Divisors.CoprimeProductDivides | js/bench/datasets.ts:28-33 | coprime divisors of a number multiply to a divisor of it |
| Datasets.Candidate | js/bench/datasets.ts:89-93 | within one product's length of any count lies one coprime to all the moduli so far |
| Datasets.Nudge | js/bench/datasets.ts:89-93 | the nudge loop terminates at the first count from the wanted one on that is coprime to those before |
| Datasets.Moduli | js/bench/datasets.ts:78-107 | the moduli are those nudged counts; an error exactly when their product is below the row count |
| Datasets.ModuliAreCoprime | js/bench/datasets.ts:88-95 | the moduli are pairwise coprime and at or above the counts wanted |
| Datasets.ModuliNext | python/bench/datasets.py:88-108 | each modulus is determined by the counts wanted up to it, so the generator, its prefixes and its port draw rows from the same ones |
| Datasets.Remainders | js/bench/datasets.ts:28-33 | two rows share every residue exactly when the moduli's product divides their distance |
| Datasets.DistinctQuads | js/bench/datasets.ts:28-33 | all of the first rows' quads are distinct exactly when the product covers them |
| Datasets.SameQuad | js/bench/datasets.ts:125-132 | two rows are the same quad exactly when they share every residue, the single default graph included |
| Datasets.PaddedApart | js/bench/datasets.ts:109-121 | zero-padded numbers behind one prefix are told apart, however wide |
| Datasets.GenDataset | js/bench/datasets.ts:135-141 | the dataset is its rows' quads, all distinct, exactly for the sizes the moduli cover |
| Datasets.GenDatasetPrefix | js/bench/datasets.ts:163-170 | a prefix is the first quads of the same dataset |
| Datasets.SpellApart | python/bench/datasets.py:118-150 | spelling terms as N-Triples keeps them apart |
| Handles.QuadChunks.Next | js/src/chunks.rs:254-317 | a pull brings the next chunk that holds rows, ends only when every row was pulled, and after its end or first error only says there is none |
| Handles.ItemHandle.Next | js/src/chunks.rs:100-114 | one chunk of codes a call, none after the end or the first error |
| LazyStream.QuadStream.Refill | js/js-snippets/lazy-rdf.js:282-300 | an empty buffer is refilled, or the stream ends with every quad handed out, or fails for a freed store or a broken chunk |
| LazyStream.QuadStream.Close | js/js-snippets/lazy-rdf.js:301-315 | ending or failing frees the handle and queues one event |
| LazyStream.QuadStream.ReadQuad | js/js-snippets/lazy-rdf.js:220-226 | a read hands out the next quad, or nothing once the stream is done |
| LazyStream.QuadStream.Drain | js/js-snippets/lazy-rdf.js:264-279 | a drain that is not nested in another runs until the stream is done, however its listeners call back; one that throws stops it |
| LazyStream.QuadStream.NextOf | js/js-snippets/lazy-rdf.js:227-243 | the iterator hands out the next quad, and leaves a done stream |
| LazyStream.QuadStream.Run | js/js-snippets/lazy-rdf.js:183-315 | in every run the quads handed out are a prefix of the match, at most one of end and error is emitted and end only after every quad, and the handle is freed exactly when the stream is done, once |
| LazyStream.QuadStream.RunTask | js/js-snippets/lazy-rdf.js:183-315 | on a stream that is done a microtask leaves the queue and none joins it |
| LazyStream.QuadStream.DestroyThenRun | js/js-snippets/lazy-rdf.js:242-248 | after destroy nothing more is handed out, and once the queued tasks have run none of the stream's own events was emitted exactly when it had neither ended nor failed with its event still queued |
| LazyStream.EndAfterDestroy | js/js-snippets/lazy-rdf.js:242-248 | a concrete stream, read to its end and destroyed, that emits end after the call |
| LazyStream.HandleIterator.Next | js/js-snippets/lazy-rdf.js:328-355 | items are yielded in order; not aborted, it finishes without an error only after the last; the handle is freed once and never pulled after |
| TermParts.PartsAre | js/src/terms.rs:162-198 | parts are read off exactly the values that are terms; the kind is that of the type, a literal's that of its language, else its datatype; the value and the extra are the strings read |
| PackQuads.Packer.Ensure | js/js-snippets/pack-quads.js:24-32 | growth keeps the written prefix and makes room, however often it doubles |
| PackQuads.Packer.PutString | js/js-snippets/pack-quads.js:38-44 | a string is written behind its length, inside the room made for three bytes a unit |
| PackQuads.Packer.PutTerm | js/js-snippets/pack-quads.js:45-68 | the packer accepts exactly the terms the reflection reader reads, and writes their parts |
| PackQuads.PackRange | js/js-snippets/pack-quads.js:20-79 | a range packs to the length-prefixed format of its quads' parts, or reports the first that is no quad |
| PackQuads.Le32RoundTrip | js/js-snippets/pack-quads.js:34 | a little-endian length reads back |
| PackQuads.TermIsFound | js/src/ingest.rs:120-130 | a packed term reads back as its parts wherever it was written, the cursor ending behind it |
| PackQuads.Cursor.TakeTerm | js/src/ingest.rs:120-130 | the cursor's steps, bounds checks and errors are those of the format, over any bytes |
| PackQuads.DecodePacked | js/src/ingest.rs:90-144 | a packed buffer gives back every quad in order, up to the first a constructor rejects, reported with its index; over any bytes only accepted quads are handed on |
| PackQuads.JsArrayDecode | js/src/ingest.rs:31-41 | the ranges cover the array once: all parts in order when every quad is taken, an error exactly when one is not, naming the quad the first bad range reports |

## Left out

- The FastLanes bit layout, `undelta` and `untranspose`: a packed value at a position and an undone block are function parameters (`BitPacked.Kernel`, `Delta.Undelta`), about which nothing is assumed.
- NodeSearch.ChunkLast: a chunk's last value is a plain read; the cell that memoizes it is not modelled, its counterpart in the column index (`Layout.ColumnChunks.ChunkLast`) is.
- NodeBulk.ReadDelta: inside a tree every read of a delta node starts from an empty block cache; `Delta.DeltaNode` proves that a cache never changes an answer.
- Positions are unbounded naturals that `WF` keeps below 2^64: the index is that of a 64-bit target, and `Rows.ClampIsMinimum` covers the narrower one.
- NodeSearch.Bounds: its own contract leaves out the largest needle under a saturating frame of reference; NodeSearch.BoundsRightIff has it wherever the rows inside the frames split around the needle, and where only the saturated rows do nothing is stated.
- NodeBulk.EqInto: at the largest needle, when frames of reference saturate, it states what is found exactly for one frame raised by a positive reference; deeper trees of saturating frames are only promised offsets of the window.
- Words are naturals below 2^64: `RunFilter.And`, `RunFilter.CountOnes` and the masks are written out bit by bit.
- Resolve.ResolveNode: an array's own invariants (`Stands`) are assumed as its constructor and encoder keep them; missing child slots, nullable or signed types and foreign buffers are the one case `Unsupported`.
- Layout.ColumnChunks.CountEq: a declined leaf is counted on its decoded values; null slots are not modelled, a column being non-nullable.
- The environment switch that decodes leaves first, work counters, timers, `Debug` output and node kinds.
- Segment requests: a fetch answers with the segment's array or fails; which fetches never fail is a field of the column.
- Races.Step: a dropped caller is one that gets no more turns; the memory order of the cells is that of one step after another.
- `from_struct_layout`'s search for the field and its type test; an index starts at the column's layout.
- `CompareSlicedPatches`, which only dispatches to the library's comparison.
- RunFilter.FilterRunEnd: the kept rows a run are compared as a real quotient, not a rounded one.
- Encode.EncodeCodes: a chunk's four code columns are a sequence of four-column rows, and a dictionary read is any map read in any order; the file behind it is not modelled.
- `Pace::next_slice`, which only calls `paced`.
- UTF-8 and UTF-16: a JavaScript string is its bytes with their bound of three a unit, and the grammars of IRIs, labels, tags and UTF-8 are predicates.
- PackQuads.JsArrayDecode: an array's length leaves room for one more range below 2^32, and JavaScript strings stay below 2^32 bytes.
- The lazy terms' parsing, unescaping, caching and equality, the packing of term columns (`TermColumns`), `ProbeAnswers`, and the builders that resolve a pattern into chunks (`MatchRows::of`).
- LazyStream.QuadStream.Run: listeners are told apart by event only; which listener a quad reaches is not modelled, nor is the code that reads an RDF/JS stream into a channel.
- The dataset options, their rounding and the environment they come from: the wanted counts are given, and the logarithms of the size check are the exact product.
- The store itself, JNI, wasm-bindgen and pyo3 glue, option parsing, number conversion and the benchmark harnesses.
