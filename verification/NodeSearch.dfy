/** Point reads and bounds searches over the probe tree. Each reads its
    children point by point; each contract speaks of the rows decoded whole. */
module NodeSearch {
  import opened Base
  import opened Search
  import opened Nodes
  import Words
  import Rows
  import RunEnds
  import Patches
  import BitPacked
  import Delta

  /** What point reads of rows `first..first + count` answer. */
  function ReadAll(n: Node, first: nat, count: nat): (values: seq<u64>)
    requires WF(n) && first + count <= Len(n)
    ensures values == Part(n, first, count)
    decreases n, 5, count
  {
    hide *;
    if count == 0 then [] else
    PartNext(n, first, count);
    ReadAll(n, first, count - 1) + [ValueAt(n, first + count - 1)]
  }

  lemma PartNext(n: Node, first: nat, count: nat)
    requires WF(n) && count > 0 && first + count <= Len(n)
    ensures Part(n, first, count) == Part(n, first, count - 1) + [Row(n, first + count - 1)]
  {
    hide WF, Decode;
  }

  function ReadWhole(n: Node): (values: seq<u64>)
    requires WF(n)
    ensures values == Decode(n)
    decreases n, 6
  {
    hide WF, Decode;
    ReadAll(n, 0, Len(n))
  }

  /** Exact value of row `i`. Needs no order. */
  function ValueAt(n: Node, i: nat): (v: u64)
    requires WF(n) && i < Len(n)
    ensures v == Row(n, i)
    decreases n, 4
  {
    hide *;
    match n
    case Primitive(_) => PrimitiveValueAt(n, i)
    case Constant(_, _) => ConstantValueAt(n, i)
    case Sequence(_, _, _) => SequenceValueAt(n, i)
    case RunEnd(_, _, _, _) => RunEndValueAt(n, i)
    case FoR(_, _) => FoRValueAt(n, i)
    case ChunkedFoR(_, _, _) => ChunkedFoRValueAt(n, i)
    case BitPacked(_, _) => PackedValueAt(n, i)
    case Slice(_, _, _) => SliceValueAt(n, i)
    case Chunked(_, _) => ChunkedValueAt(n, i)
    case Dict(_, _) => DictValueAt(n, i)
    case Delta(_, _, _) => DeltaValueAt(n, i)
    case Sparse(_, _, _) => SparseValueAt(n, i)
    case Rle(_, _, _, _, _, _) => RleValueAt(n, i)
  }

  function PrimitiveValueAt(n: Node, i: nat): (v: u64)
    requires WF(n) && n.Primitive? && i < Len(n)
    ensures v == Row(n, i)
  {
    hide WF, Decode;
    OfPrimitive(n);
    n.words.data[i]
  }

  function ConstantValueAt(n: Node, i: nat): (v: u64)
    requires WF(n) && n.Constant? && i < Len(n)
    ensures v == Row(n, i)
  {
    hide WF, Decode;
    OfConstant(n);
    n.value
  }

  function RunEndValueAt(n: Node, i: nat): (v: u64)
    requires WF(n) && n.RunEnd? && i < Len(n)
    ensures v == Row(n, i)
    decreases n, 3
  {
    hide *;
    RunEndPlace(n, i);
    ValueAt(n.values, RunEnds.RunOf(ReadWhole(n.ends), n.offset + i))
  }

  function FoRValueAt(n: Node, i: nat): (v: u64)
    requires WF(n) && n.FoR? && i < Len(n)
    ensures v == Row(n, i)
    decreases n, 3
  {
    hide *;
    FoRPlace(n, i);
    Rows.SaturatingAdd(n.reference, ValueAt(n.child, i))
  }

  function SliceValueAt(n: Node, i: nat): (v: u64)
    requires WF(n) && n.Slice? && i < Len(n)
    ensures v == Row(n, i)
    decreases n, 3
  {
    hide *;
    SlicePlace(n, i);
    ValueAt(n.child, n.start + i)
  }

  function DictValueAt(n: Node, i: nat): (v: u64)
    requires WF(n) && n.Dict? && i < Len(n)
    ensures v == Row(n, i)
    decreases n, 3
  {
    hide *;
    DictPlace(n, i);
    ValueAt(n.values, ValueAt(n.codes, i))
  }

  lemma SlicePlace(n: Node, i: nat)
    requires WF(n) && n.Slice? && i < Len(n)
    ensures WF(n.child) && n.start + i < Len(n.child) && Row(n, i) == Row(n.child, n.start + i)
  {
    hide WF, Decode;
    OfSlice(n);
  }

  lemma DictPlace(n: Node, i: nat)
    requires WF(n) && n.Dict? && i < Len(n)
    ensures WF(n.codes) && WF(n.values) && i < Len(n.codes) && Row(n.codes, i) < Len(n.values)
    ensures Row(n, i) == Row(n.values, Row(n.codes, i))
  {
    hide WF, Decode;
    OfDict(n);
  }

  lemma RunEndPlace(n: Node, i: nat)
    requires WF(n) && n.RunEnd? && i < Len(n)
    ensures WF(n.ends) && WF(n.values) && RunEnds.RunOf(Decode(n.ends), n.offset + i) < Len(n.values)
    ensures Row(n, i) == Row(n.values, RunEnds.RunOf(Decode(n.ends), n.offset + i))
  {
    hide WF, Decode, RunEnds.View, RunEnds.Rows, RunEnds.RunOf, RunEnds.InRun;
    OfRunEnd(n);
    RunEnds.RunOfHolds(Decode(n.ends), Decode(n.values), n.offset, n.len, i);
  }

  lemma FoRPlace(n: Node, i: nat)
    requires WF(n) && n.FoR? && i < Len(n)
    ensures WF(n.child) && i < Len(n.child) && Row(n, i) == Rows.SaturatingAdd(n.reference, Row(n.child, i))
  {
    hide WF, Decode, Rows.SaturatingAdd;
    OfFoR(n);
  }

  /** The 128-bit sum, cut to a word. */
  function SequenceValueAt(n: Node, i: nat): (v: u64)
    requires WF(n) && n.Sequence? && i < Len(n)
    ensures v == Row(n, i)
  {
    hide WF, Decode;
    OfSequence(n);
    Rows.ProgressionAt(n.base, n.multiplier, n.len, i);
    (n.base + i * n.multiplier) % (U64_MAX + 1)
  }

  function ChunkedFoRValueAt(n: Node, i: nat): (v: u64)
    requires WF(n) && n.ChunkedFoR? && i < Len(n)
    ensures v == Row(n, i)
    decreases n, 3
  {
    hide *;
    ChunkedFoRPlace(n, i);
    Rows.WrapAdd(ValueAt(n.child, i), ValueAt(n.references, (n.offset + i) / FL_CHUNK))
  }

  lemma ChunkedFoRPlace(n: Node, i: nat)
    requires WF(n) && n.ChunkedFoR? && i < Len(n)
    ensures WF(n.references) && WF(n.child) && i < Len(n.child) && (n.offset + i) / FL_CHUNK < Len(n.references)
    ensures Row(n, i) == Rows.WrapAdd(Row(n.child, i), Row(n.references, (n.offset + i) / FL_CHUNK))
  {
    hide WF, Decode, Rows.WrapAdd;
    OfChunkedFoR(n);
  }

  function SparseValueAt(n: Node, i: nat): (v: u64)
    requires WF(n) && n.Sparse? && i < Len(n)
    ensures v == Row(n, i)
    decreases n, 3
  {
    hide WF, WFPatches, Decode, DecodePatched;
    OfSparse(n);
    var found := Lookup(n.exceptions, i, Repeat(n.fill, n.len));
    if found.Some? then found.value else n.fill
  }

  function ChunkedValueAt(n: Node, i: nat): (v: u64)
    requires WF(n) && n.Chunked? && i < Len(n)
    ensures v == Row(n, i)
    decreases n, 3
  {
    hide WF, Decode, DecodeChunks;
    OfChunked(n);
    var c := ChunkHolding(n.chunks, i);
    var chunk := n.chunks[c];
    ChunkRow(n.chunks, c, i - chunk.start);
    ValueAt(chunk.node, i - chunk.start)
  }

  function RleValueAt(n: Node, i: nat): (v: u64)
    requires WF(n) && n.Rle? && i < Len(n)
    ensures v == Row(n, i)
    decreases n, 3
  {
    hide *;
    RlePlace(n, i);
    var p := n.offset + i;
    ValueAt(n.values, ValueAt(n.valueOffsets, p / FL_CHUNK) - n.first + ValueAt(n.indices, p))
  }

  /** A run-length row's place lies among the values, and holds the row. */
  lemma RlePlace(n: Node, i: nat)
    requires WF(n) && n.Rle? && i < Len(n)
    ensures WF(n.values) && WF(n.indices) && WF(n.valueOffsets)
    ensures n.offset + i < Len(n.indices) && (n.offset + i) / FL_CHUNK < Len(n.valueOffsets)
    ensures var place := Row(n.valueOffsets, (n.offset + i) / FL_CHUNK) - n.first + Row(n.indices, n.offset + i);
            0 <= place < Len(n.values) && Row(n, i) == Row(n.values, place)
  {
    hide WF, Decode;
    OfRle(n);
    var p := n.offset + i;
    assert Rows.Place(Decode(n.indices), Decode(n.valueOffsets), n.first, p) < Len(n.values);
  }

  function PackedValueAt(n: Node, i: nat): (v: u64)
    requires WF(n) && n.BitPacked? && i < Len(n)
    ensures v == Row(n, i)
    decreases n, 3
  {
    hide WF, WFPatches, Decode, DecodePatched, BitPacked.Holds, BitPacked.Unpack;
    OfBitPacked(n);
    var found := match n.patches
      case None => None
      case Some(p) => Lookup(p, i, BitPacked.Rows(n.packing));
    if found.Some? then found.value else BitPacked.ValueAt(n.packing, i)
  }

  /** What the exceptions put over row `i` of `rows`, if anything. */
  function Lookup(p: PatchProbe, i: nat, ghost rows: seq<u64>): (found: Option<u64>)
    requires WFPatches(p, |rows|) && i < |rows|
    ensures DecodePatched(rows, p)[i] == if found.Some? then found.value else rows[i]
    decreases p, 4
  {
    hide WF, WFPatches, Decode, DecodePatched, Patches.Patched;
    OfPatches(p, rows);
    var key := i + p.offset;
    StrictlyAscendingSplits(Decode(p.indices), key);
    var at := LowerBound(p.indices, key);
    Patches.PatchedAt(rows, Decode(p.indices), Decode(p.values), p.offset, i, at);
    if at < Len(p.indices) && ValueAt(p.indices, at) == key then Some(ValueAt(p.values, at)) else None
  }

  lemma StrictlyAscendingSplits(s: seq<u64>, x: int)
    requires StrictlyAscending(s)
    ensures Splits(s, x)
  {
    assert Ascending(s);
    AscendingSplits(s, x);
  }

  /** A delta block, from point reads of its own bases and deltas. */
  function DeltaBlock(n: Node, b: nat): (block: seq<u64>)
    requires WF(n) && n.Delta? && b < Delta.Count(n.blocks)
    ensures WF(n.bases) && WF(n.deltas) && Delta.Spans(n.blocks, Len(n.bases), Len(n.deltas))
    ensures block == Delta.BlockOf(n.blocks, Decode(n.bases), Decode(n.deltas), b)
    decreases n, 2
  {
    hide WF, Decode, Delta.DecodeBlock;
    OfDelta(n);
    var lanes := Delta.Lanes(n.blocks.width);
    ChunkInBuffer(b, Delta.Count(n.blocks), FL_CHUNK);
    ChunkInBuffer(b, Delta.Count(n.blocks), lanes);
    Delta.DecodeBlock(n.blocks, ReadAll(n.bases, b * lanes, lanes), ReadAll(n.deltas, b * FL_CHUNK, FL_CHUNK))
  }

  function DeltaValueAt(n: Node, i: nat): (v: u64)
    requires WF(n) && n.Delta? && i < Len(n)
    ensures v == Row(n, i)
    decreases n, 3
  {
    hide *;
    DeltaPlace(n, i);
    var physical := n.blocks.offset + i;
    DeltaBlock(n, physical / FL_CHUNK)[physical % FL_CHUNK]
  }

  lemma DeltaPlace(n: Node, i: nat)
    requires WF(n) && n.Delta? && i < Len(n)
    ensures WF(n.bases) && WF(n.deltas) && Delta.Spans(n.blocks, Len(n.bases), Len(n.deltas))
    ensures var physical := n.blocks.offset + i;
            && physical / FL_CHUNK < Delta.Count(n.blocks) && physical % FL_CHUNK < FL_CHUNK
            && Row(n, i) == Delta.BlockOf(n.blocks, Decode(n.bases), Decode(n.deltas), physical / FL_CHUNK)[physical % FL_CHUNK]
  {
    hide WF, Decode, Delta.BlockOf, Delta.Rows;
    OfDelta(n);
    Delta.RowInBlock(n.blocks, Decode(n.bases), Decode(n.deltas), i);
  }

  /** The chunk holding row `i`: the last that starts at or before it. */
  function ChunkHolding(chunks: seq<Chunk>, i: nat): (c: nat)
    requires Contiguous(chunks, ChunksEnd(chunks)) && i < ChunksEnd(chunks)
    ensures c < |chunks| && chunks[c].start <= i < ChunkEnd(chunks[c])
  {
    hide Len, PartitionPoint;
    var started := Started(chunks, i);
    assert Follows(chunks, 0);
    var past := PartitionPoint(started);
    assert past < |chunks| ==> Follows(chunks, past);
    past - 1
  }

  function Started(chunks: seq<Chunk>, i: nat): (started: seq<bool>)
    ensures |started| == |chunks| && forall c :: 0 <= c < |chunks| ==> started[c] == (chunks[c].start <= i)
  {
    seq(|chunks|, c requires 0 <= c < |chunks| => chunks[c].start <= i)
  }

  /** A chunked node's rows are its chunks', each from its own first row. */
  lemma {:induction false} ChunkRows(chunks: seq<Chunk>, c: nat)
    requires (forall k :: 0 <= k < |chunks| ==> WFChunk(chunks[k])) && ChunksMeet(chunks) && c < |chunks|
    ensures ChunkEnd(chunks[c]) <= |DecodeChunks(chunks)|
    ensures DecodeChunks(chunks)[chunks[c].start..ChunkEnd(chunks[c])] == Decode(chunks[c].node)
  {
    hide WF, Decode, Len;
    var last := |chunks| - 1;
    ChunksBefore(chunks);
    if c < last {
      ChunkRows(chunks[..last], c);
    }
  }

  lemma ChunkRow(chunks: seq<Chunk>, c: nat, k: nat)
    requires (forall k :: 0 <= k < |chunks| ==> WFChunk(chunks[k])) && ChunksMeet(chunks) && c < |chunks|
    requires k < Len(chunks[c].node)
    ensures chunks[c].start + k < |DecodeChunks(chunks)|
    ensures DecodeChunks(chunks)[chunks[c].start + k] == Decode(chunks[c].node)[k]
  {
    hide WF, WFChunk, Decode, DecodeChunks, Len;
    ChunkRows(chunks, c);
    assert DecodeChunks(chunks)[chunks[c].start..ChunkEnd(chunks[c])][k] == Decode(chunks[c].node)[k];
  }

  // ----- bounds

  ghost function Last(chunk: Chunk): (v: u64)
    requires HasRows(chunk)
  {
    Row(chunk.node, Len(chunk.node) - 1)
  }

  ghost predicate HasRows(chunk: Chunk) {
    WFChunk(chunk) && Len(chunk.node) > 0
  }

  /** The chunk's last value. */
  function ChunkLast(chunk: Chunk): (v: u64)
    requires HasRows(chunk)
    ensures v == Last(chunk)
    decreases chunk, 5
  {
    hide *;
    LastIsRow(chunk);
    ValueAt(chunk.node, Len(chunk.node) - 1)
  }

  lemma LastIsRow(chunk: Chunk)
    requires HasRows(chunk)
    ensures WF(chunk.node) && Len(chunk.node) > 0 && Last(chunk) == Row(chunk.node, Len(chunk.node) - 1)
  {
    hide WF, Decode, Len;
  }

  function Lasts(chunks: seq<Chunk>): (lasts: seq<u64>)
    requires forall c :: 0 <= c < |chunks| ==> HasRows(chunks[c])
    ensures |lasts| == |chunks|
    ensures forall c :: 0 <= c < |chunks| ==> lasts[c] == Last(chunks[c])
    decreases chunks, 7
  {
    hide *;
    LastsUpTo(chunks, |chunks|)
  }

  function LastsUpTo(chunks: seq<Chunk>, n: nat): (lasts: seq<u64>)
    requires n <= |chunks| && forall c :: 0 <= c < n ==> HasRows(chunks[c])
    ensures |lasts| == n
    ensures forall c :: 0 <= c < n ==> lasts[c] == Last(chunks[c])
    decreases chunks, 6, n
  {
    hide *;
    if n == 0 then [] else LastsUpTo(chunks, n - 1) + [ChunkLast(chunks[n - 1])]
  }

  /** A bound within the first chunk that reaches the needle is the bound over
      all chunks. */
  lemma ChunkBoundary(chunks: seq<Chunk>, c: nat, needle: int, p: nat)
    requires (forall k :: 0 <= k < |chunks| ==> WFChunk(chunks[k])) && Contiguous(chunks, ChunksEnd(chunks))
    requires Splits(DecodeChunks(chunks), needle) && c < |chunks|
    requires c > 0 ==> Last(chunks[c - 1]) < needle
    requires Last(chunks[c]) >= needle && IsLower(Decode(chunks[c].node), needle, p)
    ensures IsLower(DecodeChunks(chunks), needle, chunks[c].start + p)
  {
    hide WF, WFChunk, Decode, DecodeChunks, Len, ChunksMeet, Splits;
    ChunkBefore(chunks, c, needle, p);
    ChunkFrom(chunks, c, needle, p);
    LowerFromNeighbours(DecodeChunks(chunks), needle, chunks[c].start + p);
  }

  /** The row before the bound is below the needle. */
  lemma ChunkBefore(chunks: seq<Chunk>, c: nat, needle: int, p: nat)
    requires (forall k :: 0 <= k < |chunks| ==> WFChunk(chunks[k])) && Contiguous(chunks, ChunksEnd(chunks)) && c < |chunks|
    requires c > 0 ==> Last(chunks[c - 1]) < needle
    requires IsLower(Decode(chunks[c].node), needle, p)
    ensures chunks[c].start + p <= |DecodeChunks(chunks)|
    ensures chunks[c].start + p > 0 ==> DecodeChunks(chunks)[chunks[c].start + p - 1] < needle
  {
    hide WF, Decode, DecodeChunks, Len;
    assert Follows(chunks, c);
    ChunkRow(chunks, c, 0);
    if p > 0 {
      ChunkRow(chunks, c, p - 1);
    } else if c > 0 {
      ChunkRow(chunks, c - 1, Len(chunks[c - 1].node) - 1);
    }
  }

  /** The bound's own row is at or above it, and the chunk has one. */
  lemma ChunkFrom(chunks: seq<Chunk>, c: nat, needle: int, p: nat)
    requires (forall k :: 0 <= k < |chunks| ==> WFChunk(chunks[k])) && Contiguous(chunks, ChunksEnd(chunks)) && c < |chunks|
    requires Last(chunks[c]) >= needle && IsLower(Decode(chunks[c].node), needle, p)
    ensures chunks[c].start + p < |DecodeChunks(chunks)| && DecodeChunks(chunks)[chunks[c].start + p] >= needle
  {
    hide WF, Decode, DecodeChunks, Len;
    ChunkRow(chunks, c, p);
  }

  /** Chunks split where the whole does; a last chunk below the needle leaves no
      row at or above it. */
  lemma ChunkOrder(chunks: seq<Chunk>, c: nat, needle: int)
    requires (forall k :: 0 <= k < |chunks| ==> WFChunk(chunks[k])) && Contiguous(chunks, ChunksEnd(chunks))
    requires Splits(DecodeChunks(chunks), needle) && c < |chunks|
    ensures Splits(Decode(chunks[c].node), needle)
    ensures c == |chunks| - 1 && Last(chunks[c]) < needle ==> IsLower(DecodeChunks(chunks), needle, ChunksEnd(chunks))
  {
    hide WF, Decode, DecodeChunks, Len, Splits;
    var rows := DecodeChunks(chunks);
    ChunkRows(chunks, c);
    PartSplits(rows, needle, chunks[c].start, ChunkEnd(chunks[c]));
    if c == |chunks| - 1 && Last(chunks[c]) < needle {
      ChunkRow(chunks, c, Len(chunks[c].node) - 1);
      LowerFromNeighbours(rows, needle, ChunksEnd(chunks));
    }
  }

  function ChunkedLowerBound(n: Node, needle: u64): (p: nat)
    requires WF(n) && n.Chunked?
    ensures p <= Len(n)
    ensures Splits(Decode(n), needle) ==> IsLower(Decode(n), needle, p)
    decreases n, 7
  {
    hide WF, Decode, DecodeChunks, PartitionPoint, Splits;
    OfChunked(n);
    var chunks := n.chunks;
    var c := PartitionPoint(Below(Lasts(chunks), needle));
    if c == |chunks| then
      assert Splits(Decode(n), needle) ==> IsLower(Decode(n), needle, n.len) by {
        if Splits(Decode(n), needle) && c > 0 {
          ChunkOrder(chunks, c - 1, needle);
        }
      }
      n.len
    else
      var p := LowerBound(chunks[c].node, needle);
      assert Splits(Decode(n), needle) ==> IsLower(Decode(n), needle, chunks[c].start + p) by {
        if Splits(Decode(n), needle) {
          ChunkOrder(chunks, c, needle);
          ChunkBoundary(chunks, c, needle, p);
        }
      }
      ChunkRows(chunks, c);
      chunks[c].start + p
  }

  /** Every stored value is the reference or above it. */
  function FoRLowerBound(n: Node, needle: u64): (p: nat)
    requires WF(n) && n.FoR?
    ensures p <= Len(n)
    ensures Splits(Decode(n), needle) ==> IsLower(Decode(n), needle, p)
    decreases n, 7
  {
    hide WF, Decode, Len, Rows.Raised, Splits, IsLower;
    OfFoR(n);
    if needle <= n.reference then
      Rows.RaisedAboveReference(n.reference, Decode(n.child), needle);
      0
    else
      Rows.RaisedSplits(n.reference, Decode(n.child), needle);
      var p := LowerBound(n.child, needle - n.reference);
      Rows.RaisedLower(n.reference, Decode(n.child), needle, p);
      p
  }

  function RunEndLowerBound(n: Node, needle: u64): (p: nat)
    requires WF(n) && n.RunEnd?
    ensures p <= Len(n)
    ensures Splits(Decode(n), needle) ==> IsLower(Decode(n), needle, p)
    decreases n, 7
  {
    hide *;
    OfRunEnd(n);
    var (ends, values) := (ReadWhole(n.ends), ReadWhole(n.values));
    var p := RunEnds.LowerBound(ends, values, n.offset, n.len, needle);
    assert Splits(Decode(n), needle) ==> IsLower(Decode(n), needle, p) by {
      if Splits(Decode(n), needle) {
        RunEnds.LowerBoundExact(ends, values, n.offset, n.len, needle);
      }
    }
    p
  }

  function PrimitiveLowerBound(n: Node, needle: u64): (p: nat)
    requires WF(n) && n.Primitive?
    ensures p <= Len(n)
    ensures Splits(Decode(n), needle) ==> IsLower(Decode(n), needle, p)
  {
    hide WF, Decode, Words.LowerBound, Splits, IsLower;
    OfPrimitive(n);
    assert Splits(Decode(n), needle) ==> IsLower(Decode(n), needle, Words.LowerBound(n.words, needle)) by {
      if Splits(Decode(n), needle) {
        Words.LowerBoundExact(n.words, needle);
      }
    }
    Words.LowerBound(n.words, needle)
  }

  function ConstantLowerBound(n: Node, needle: u64): (p: nat)
    requires WF(n) && n.Constant?
    ensures p <= Len(n)
    ensures IsLower(Decode(n), needle, p)
  {
    hide WF, Decode, Len;
    OfConstant(n);
    if n.value < needle then n.len else 0
  }

  function SequenceLowerBound(n: Node, needle: u64): (p: nat)
    requires WF(n) && n.Sequence?
    ensures p <= Len(n)
    ensures IsLower(Decode(n), needle, p)
  {
    hide WF, Decode, Len, Rows.ProgressionLowerBound;
    OfSequence(n);
    Rows.ProgressionLower(n.base, n.multiplier, n.len, needle);
    Rows.ProgressionLowerBound(n.base, n.multiplier, n.len, needle)
  }

  /** First row whose value is at or above `needle`: exact wherever some position
      splits the rows there, in range over any. Which children split where the
      node does, the cases say: a frame of reference's, a chunk, the overlapping
      runs' values. A window's child and a dictionary's values need not, so
      those search the composed values. */
  function LowerBound(n: Node, needle: u64): (p: nat)
    requires WF(n)
    ensures p <= Len(n)
    ensures Splits(Decode(n), needle) ==> IsLower(Decode(n), needle, p)
    decreases n, 8
  {
    hide WF, Decode, Len, SearchAscending, FirstAtLeast, Splits, IsLower;
    match n
    case Primitive(_) => PrimitiveLowerBound(n, needle)
    case Constant(_, _) => ConstantLowerBound(n, needle)
    case Sequence(_, _, _) => SequenceLowerBound(n, needle)
    case RunEnd(_, _, _, _) => RunEndLowerBound(n, needle)
    case FoR(_, _) => FoRLowerBound(n, needle)
    case BitPacked(_, _) => SearchAscending(ReadWhole(n), needle)
    case Slice(child, start, len) => OfSlice(n); FirstAtLeast(ReadAll(child, start, len), needle)
    case Chunked(_, _) => ChunkedLowerBound(n, needle)
    case _ => FirstAtLeast(ReadWhole(n), needle)
  }

  /** First row whose value is above `needle`: the lower bound of the next
      word, and the length when there is none. */
  function UpperBound(n: Node, needle: u64): (p: nat)
    requires WF(n)
    ensures p <= Len(n)
    ensures Splits(Decode(n), needle + 1) ==> IsUpper(Decode(n), needle, p)
  {
    hide WF, Decode, Len, LowerBound, Splits;
    if needle == U64_MAX then Len(n) else LowerBound(n, needle + 1)
  }

  /** What is exact of both bounds at once: wherever the rows split around the
      needle they are right exactly when no empty first run hides it. At the
      largest needle no frame of reference may saturate. */
  ghost predicate RightUnlessHidden(n: Node, needle: u64, r: (nat, nat)) {
    WF(n) && SplitsAround(Decode(n), needle) && (needle < U64_MAX || !FrameSaturates(n)) ==>
      (IsRun(Decode(n), needle, r.0, r.1) <==> !Hides(n, needle))
  }

  /** Both bounds of the needle's rows, at once where the encoding allows. */
  function Bounds(n: Node, needle: u64): (r: (nat, nat))
    requires WF(n)
    ensures r.0 <= Len(n) && r.1 <= Len(n) && RightUnlessHidden(n, needle, r)
    decreases n
  {
    hide WF, Decode, Len, LowerBound, UpperBound, CappedBounds, Splits, IsLower, IsUpper, FrameSaturates;
    match n
    case RunEnd(_, _, _, _) => RunEndBounds(n, needle)
    case FoR(reference, child) => FoRBounds(n, needle)
    case BitPacked(_, _) => CappedBounds(ReadWhole(n), needle)
    case _ => (LowerBound(n, needle), UpperBound(n, needle))
  }

  function FoRBounds(n: Node, needle: u64): (r: (nat, nat))
    requires WF(n) && n.FoR?
    ensures r.0 <= Len(n) && r.1 <= Len(n) && RightUnlessHidden(n, needle, r)
    decreases n, 0
  {
    hide WF, Decode, Len, RightUnlessHidden;
    OfFoR(n);
    if needle < n.reference then
      BelowTheReference(n, needle);
      (0, 0)
    else
      var r := Bounds(n.child, needle - n.reference);
      ThroughTheFrame(n, needle, r);
      r
  }

  lemma BelowTheReference(n: Node, needle: u64)
    requires WF(n) && n.FoR? && needle < n.reference
    ensures RightUnlessHidden(n, needle, (0, 0))
  {
    hide WF, Decode, Rows.Raised;
    OfFoR(n);
    Rows.RaisedAboveReference(n.reference, Decode(n.child), needle);
    Rows.RaisedAboveReference(n.reference, Decode(n.child), needle + 1);
  }

  /** Right bounds of the child, for the shifted needle, are the frame's. */
  lemma ThroughTheFrame(n: Node, needle: u64, r: (nat, nat))
    requires WF(n) && n.FoR? && needle >= n.reference && RightUnlessHidden(n.child, needle - n.reference, r)
    ensures RightUnlessHidden(n, needle, r)
  {
    hide WF, Decode, Rows.Raised, Splits, IsLower;
    OfFoR(n);
    var rows := Decode(n.child);
    if needle < U64_MAX || !FrameSaturates(n) {
      assert needle < U64_MAX || Rows.Raisable(n.reference, rows);
      Rows.RaisedSplits(n.reference, rows, needle);
      Rows.RaisedSplits(n.reference, rows, needle + 1);
      Rows.RaisedLower(n.reference, rows, needle, r.0);
      Rows.RaisedLower(n.reference, rows, needle + 1, r.1);
      UpperIsLower(Decode(n), needle, r.1);
      UpperIsLower(rows, needle - n.reference, r.1);
    }
  }

  lemma UpperIsLower(s: seq<u64>, x: int, p: nat)
    ensures IsUpper(s, x, p) <==> IsLower(s, x + 1, p)
  {
  }

  function RunEndBounds(n: Node, needle: u64): (r: (nat, nat))
    requires WF(n) && n.RunEnd?
    ensures r.0 <= Len(n) && r.1 <= Len(n) && RightUnlessHidden(n, needle, r)
  {
    hide *;
    OfRunEnd(n);
    var r := RunEnds.Bounds(ReadWhole(n.ends), ReadWhole(n.values), n.offset, n.len, needle);
    RunEndRight(n, needle, r);
    r
  }

  lemma RunEndRight(n: Node, needle: u64, r: (nat, nat))
    requires WF(n) && n.RunEnd? && RunEnds.View(Decode(n.ends), Decode(n.values), n.offset, n.len)
    requires r == RunEnds.Bounds(Decode(n.ends), Decode(n.values), n.offset, n.len, needle)
    ensures RightUnlessHidden(n, needle, r)
  {
    hide WF, Decode, RunEnds.Bounds, RunEnds.Rows, RunEnds.View, RunEnds.HidesNeedle, Splits, IsLower, IsUpper;
    OfRunEnd(n);
    if SplitsAround(Decode(n), needle) {
      RunEnds.BoundsRightIff(Decode(n.ends), Decode(n.values), n.offset, n.len, needle);
    }
  }

  /** The rows under every frame of reference around the node split around what
      the needle is there. */
  ghost predicate SplitsInside(n: Node, needle: u64)
    requires WF(n)
  {
    match n
    case FoR(reference, child) => needle >= reference ==> SplitsInside(child, needle - reference)
    case _ => SplitsAround(Decode(n), needle)
  }

  /** With the innermost rows in order, both bounds at once are right exactly when
      no empty first run hides the needle and, at the largest needle, no frame of
      reference saturates. */
  lemma {:induction false} BoundsRightIff(n: Node, needle: u64)
    requires WF(n) && SplitsInside(n, needle)
    ensures var r := Bounds(n, needle);
            IsRun(Decode(n), needle, r.0, r.1) <==> !Hides(n, needle) && (needle < U64_MAX || !FrameSaturates(n))
    ensures Hides(n, needle) ==> Bounds(n, needle) == (0, 0) && Len(n) > 0
    decreases n
  {
    hide WF, Decode, Len, Bounds, IsRun, FrameSaturates, SplitsAround;
    match n
    case FoR(reference, child) => FrameRightIff(n, needle);
    case RunEnd(_, _, _, _) => RunEndHides(n, needle);
    case _ => NoFrame(n);
  }

  lemma NoFrame(n: Node)
    ensures !n.FoR? ==> !FrameSaturates(n)
  {
  }

  lemma RunEndHides(n: Node, needle: u64)
    requires WF(n) && n.RunEnd? && SplitsAround(Decode(n), needle)
    ensures var r := Bounds(n, needle); IsRun(Decode(n), needle, r.0, r.1) <==> !Hides(n, needle)
    ensures Hides(n, needle) ==> Bounds(n, needle) == (0, 0) && Len(n) > 0
    ensures !FrameSaturates(n)
  {
    hide WF, Decode, RunEnds.Bounds, RunEnds.Rows, RunEnds.View, SplitsAround, IsRun;
    OfRunEnd(n);
    assert Bounds(n, needle) == RunEnds.Bounds(Decode(n.ends), Decode(n.values), n.offset, n.len, needle);
    if Hides(n, needle) {
      RunEnds.HiddenGoUnfound(Decode(n.ends), Decode(n.values), n.len, needle);
    }
  }

  lemma {:induction false} FrameRightIff(n: Node, needle: u64)
    requires WF(n) && n.FoR? && SplitsInside(n, needle)
    ensures var r := Bounds(n, needle);
            IsRun(Decode(n), needle, r.0, r.1) <==> !Hides(n, needle) && (needle < U64_MAX || !FrameSaturates(n))
    ensures Hides(n, needle) ==> Bounds(n, needle) == (0, 0) && Len(n) > 0
    decreases n, 0
  {
    hide WF, Decode, Len, IsRun, SplitsAround, SplitsInside, Hides, Bounds, FrameSaturates, Rows.Raised, Rows.Raisable;
    OfFoR(n);
    FrameUnfolds(n, needle);
    var r := Bounds(n, needle);
    if needle < n.reference {
      Rows.RaisedAboveReference(n.reference, Decode(n.child), needle);
      Rows.RaisedAboveReference(n.reference, Decode(n.child), needle + 1);
      RunOfLowers(Decode(n), needle, 0, 0);
    } else {
      BoundsRightIff(n.child, needle - n.reference);
      FrameRun(n, needle, r);
    }
  }

  lemma FrameUnfolds(n: Node, needle: u64)
    requires WF(n) && n.FoR?
    ensures WF(n.child)
    ensures Bounds(n, needle) == if needle < n.reference then (0, 0) else Bounds(n.child, needle - n.reference)
    ensures Hides(n, needle) <==> needle >= n.reference && Hides(n.child, needle - n.reference)
    ensures FrameSaturates(n) <==> if n.reference == 0 then FrameSaturates(n.child) else !Rows.Raisable(n.reference, Decode(n.child))
    ensures n.reference == 0 ==> Rows.Raisable(n.reference, Decode(n.child))
    ensures needle >= n.reference ==> (SplitsInside(n, needle) <==> SplitsInside(n.child, needle - n.reference))
  {
    hide WF, Decode, Len;
    OfFoR(n);
    assert Bounds(n, needle) == FoRBounds(n, needle);
  }

  lemma RunOfLowers(s: seq<u64>, x: int, lo: nat, hi: nat)
    ensures IsRun(s, x, lo, hi) <==> IsLower(s, x, lo) && IsLower(s, x + 1, hi)
  {
  }

  /** A run of the child's rows is the frame's, unless the needle is the largest
      word and rows past it saturated. */
  lemma FrameRun(n: Node, needle: u64, r: (nat, nat))
    requires WF(n) && n.FoR? && needle >= n.reference
    requires !Rows.Raisable(n.reference, Decode(n.child)) ==>
               IsRun(Decode(n.child), needle - n.reference, r.0, r.1) || (r == (0, 0) && Len(n) > 0)
    ensures needle < U64_MAX || Rows.Raisable(n.reference, Decode(n.child)) ==>
              (IsRun(Decode(n), needle, r.0, r.1) <==> IsRun(Decode(n.child), needle - n.reference, r.0, r.1))
    ensures needle == U64_MAX && !Rows.Raisable(n.reference, Decode(n.child)) ==> !IsRun(Decode(n), needle, r.0, r.1)
  {
    hide WF, Decode, Len, IsRun, IsLower, Rows.Raised;
    OfFoR(n);
    var rows := Decode(n.child);
    RunOfLowers(Decode(n), needle, r.0, r.1);
    RunOfLowers(rows, needle - n.reference, r.0, r.1);
    Rows.RaisedLower(n.reference, rows, needle, r.0);
    if needle < U64_MAX || Rows.Raisable(n.reference, rows) {
      Rows.RaisedLower(n.reference, rows, needle + 1, r.1);
    } else {
      var k :| 0 <= k < |rows| && n.reference + rows[k] > U64_MAX;
      Unreached(rows, needle - n.reference + 1, Decode(n), needle + 1, r.1, k);
    }
  }

  /** A position that has a row at or past `x` does not end rows all below `y`. */
  lemma Unreached(rows: seq<u64>, x: int, raised: seq<u64>, y: int, p: nat, k: nat)
    requires |rows| == |raised| && k < |rows| && rows[k] >= x && y > U64_MAX
    requires IsLower(rows, x, p) || p == 0
    ensures !IsLower(raised, y, p)
  {
    assert p < |raised| ==> raised[p] < y;
  }

  /** A saturating frame of reference loses the largest needle's rows from the
      search for both bounds, where each bound's own finds them. */
  lemma SaturationHidesTheNeedle()
    ensures var n := FoR(1, Primitive(Words.Words(Words.W64, [U64_MAX])));
            && WF(n) && Decode(n) == [U64_MAX] && FrameSaturates(n)
            && Bounds(n, U64_MAX) == (0, 0) && LowerBound(n, U64_MAX) == 0 && UpperBound(n, U64_MAX) == 1
  {
    hide LowerBound, CappedBounds;
    var child := Primitive(Words.Words(Words.W64, [U64_MAX]));
    var n := FoR(1, child);
    var rows: seq<u64> := [U64_MAX];
    assert Decode(child) == rows;
    assert Rows.Raised(1, rows) == rows && Decode(n) == rows;
    assert IsLower(rows, U64_MAX - 1, 0) && IsLower(rows, U64_MAX, 0);
    OneRun(child, U64_MAX - 1, 0, 0);
    assert 1 + rows[0] > U64_MAX;
    assert !Rows.Raisable(1, rows);
    assert Bounds(n, U64_MAX) == FoRBounds(n, U64_MAX) == Bounds(child, U64_MAX - 1);
    LowerIsUnique(rows, U64_MAX, LowerBound(n, U64_MAX), 0);
  }

  /** Bounds that are right are the run. */
  lemma OneRun(n: Node, needle: u64, lo: nat, hi: nat)
    requires WF(n) && IsRun(Decode(n), needle, lo, hi) && !FrameSaturates(n) && !Hides(n, needle)
    ensures Bounds(n, needle) == (lo, hi)
  {
    hide Bounds, WF, Decode;
    var r := Bounds(n, needle);
    assert IsLower(Decode(n), needle, lo) && IsLower(Decode(n), needle + 1, hi);
    LowerIsUnique(Decode(n), needle, r.0, lo);
    LowerIsUnique(Decode(n), needle + 1, r.1, hi);
  }
}
