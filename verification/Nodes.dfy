/** The resolved probe tree: one node per encoded array node. `Decode` says
    which rows a node stands for; the searches and reads answer from the
    encoding, and their contracts say that they answer for those rows. */
module Nodes {
  import opened Base
  import opened Search
  import opened Words
  import Rows
  import RunEnds
  import Patches
  import BitPacked
  import Delta

  /** One chunk of a chunked node, with its first row. */
  datatype Chunk = Chunk(start: nat, node: Node)

  /** Exception values: `indices` holds the patched positions, counted from
      `offset` before the first row, `values` what they hold. */
  datatype PatchProbe = PatchProbe(indices: Node, values: Node, offset: nat)

  datatype Node =
    | Primitive(words: Words)
    | Constant(value: u64, len: nat)
    | Sequence(base: u64, multiplier: u64, len: nat)
    | RunEnd(ends: Node, values: Node, offset: nat, len: nat)
    | FoR(reference: u64, child: Node)
    | ChunkedFoR(references: Node, offset: nat, child: Node)
    | BitPacked(packing: BitPacked.Packing, patches: Option<PatchProbe>)
    | Slice(child: Node, start: nat, len: nat)
    | Chunked(chunks: seq<Chunk>, len: nat)
    | Dict(codes: Node, values: Node)
    | Delta(bases: Node, deltas: Node, blocks: Delta.Blocks)
    | Sparse(fill: u64, exceptions: PatchProbe, len: nat)
    | Rle(values: Node, indices: Node, valueOffsets: Node, first: u64, offset: nat, len: nat)

  function Len(n: Node): (len: nat) {
    match n
    case Primitive(words) => |words.data|
    case Constant(_, len) => len
    case Sequence(_, _, len) => len
    case RunEnd(_, _, _, len) => len
    case FoR(_, child) => Len(child)
    case ChunkedFoR(_, _, child) => Len(child)
    case BitPacked(packing, _) => packing.len
    case Slice(_, _, len) => len
    case Chunked(_, len) => len
    case Dict(codes, _) => Len(codes)
    case Delta(_, _, blocks) => blocks.len
    case Sparse(_, _, len) => len
    case Rle(_, _, _, _, _, len) => len
  }

  // ----- the rows a node stands for

  function ChunkEnd(chunk: Chunk): (end: nat) { chunk.start + Len(chunk.node) }

  function ChunksEnd(chunks: seq<Chunk>): (end: nat) {
    if chunks == [] then 0 else ChunkEnd(chunks[|chunks| - 1])
  }

  /** Chunk `c` starts where the one before it ends. */
  ghost predicate Follows(chunks: seq<Chunk>, c: nat)
    requires c < |chunks|
  {
    chunks[c].start == if c == 0 then 0 else ChunkEnd(chunks[c - 1])
  }

  ghost predicate ChunksMeet(chunks: seq<Chunk>) {
    forall c :: 0 <= c < |chunks| ==> Follows(chunks, c)
  }

  lemma ChunksBefore(chunks: seq<Chunk>)
    requires ChunksMeet(chunks) && chunks != []
    ensures var last := |chunks| - 1; ChunksMeet(chunks[..last]) && chunks[last].start == ChunksEnd(chunks[..last])
  {
    hide ChunkEnd;
    var last := |chunks| - 1;
    assert Follows(chunks, last);
    forall c | 0 <= c < last
      ensures Follows(chunks[..last], c)
    {
      assert Follows(chunks, c);
    }
  }

  ghost predicate Contiguous(chunks: seq<Chunk>, len: nat) {
    ChunksMeet(chunks) && len == ChunksEnd(chunks) && forall c :: 0 <= c < |chunks| ==> Len(chunks[c].node) > 0
  }

  /** What the encodings promise of their children: the invariants their
      writers keep, which the searches rely on. */
  ghost predicate WF(n: Node)
    decreases n, 0
  {
    match n
    case Primitive(words) => Fit(words) && |words.data| <= U64_MAX
    case Constant(_, len) => len <= U64_MAX
    case Sequence(base, multiplier, len) => Rows.ProgressionFits(base, multiplier, len)
    case RunEnd(ends, values, offset, len) =>
      WF(ends) && WF(values) && RunEnds.View(Decode(ends), Decode(values), offset, len)
    case FoR(reference, child) => WF(child)
    case ChunkedFoR(references, offset, child) =>
      WF(references) && WF(child) && Rows.ReferencesReach(Len(references), offset, Len(child))
    case BitPacked(packing, patches) =>
      BitPacked.Holds(packing) && (patches.Some? ==> WFPatches(patches.value, packing.len))
    case Slice(child, start, len) => WF(child) && start + len <= Len(child)
    case Chunked(chunks, len) =>
      (forall c :: 0 <= c < |chunks| ==> WFChunk(chunks[c])) && Contiguous(chunks, len) && len <= U64_MAX
    case Dict(codes, values) => WF(codes) && WF(values) && Rows.CodesInside(Decode(codes), Len(values))
    case Delta(bases, deltas, blocks) =>
      WF(bases) && WF(deltas) && Delta.Spans(blocks, Len(bases), Len(deltas)) && blocks.offset + blocks.len <= U64_MAX
    case Sparse(_, patches, len) => WFPatches(patches, len)
    case Rle(values, indices, valueOffsets, first, offset, len) =>
      && WF(values) && WF(indices) && WF(valueOffsets)
      && Rows.PlacesInside(Len(values), Decode(indices), Decode(valueOffsets), first, offset, len)
  }

  ghost predicate WFChunk(chunk: Chunk)
    decreases chunk, 0
  {
    WF(chunk.node)
  }

  ghost predicate WFPatches(p: PatchProbe, len: nat)
    decreases p, 0
  {
    && WF(p.indices) && WF(p.values)
    && Len(p.indices) <= Len(p.values)
    && StrictlyAscending(Decode(p.indices))
    && p.offset + len <= U64_MAX
  }

  /** The rows a node stands for, encoding by encoding. */
  ghost function Decode(n: Node): (rows: seq<u64>)
    ensures |rows| == if WF(n) then Len(n) else 0
    decreases n, 1
  {
    if !WF(n) then [] else
    match n
    case Primitive(words) => words.data
    case Constant(value, len) => Repeat(value, len)
    case Sequence(base, multiplier, len) => Rows.Progression(base, multiplier, len)
    case RunEnd(ends, values, offset, len) => RunEnds.Rows(Decode(ends), Decode(values), offset, len)
    case FoR(reference, child) => Rows.Raised(reference, Decode(child))
    case ChunkedFoR(references, offset, child) => Rows.RaisedByChunk(Decode(references), offset, Decode(child))
    case BitPacked(packing, None) => BitPacked.Rows(packing)
    case BitPacked(packing, Some(p)) => DecodePatched(BitPacked.Rows(packing), p)
    case Slice(child, start, len) => Decode(child)[start..start + len]
    case Chunked(chunks, _) => DecodeChunks(chunks)
    case Dict(codes, values) => Rows.Decoded(Decode(codes), Decode(values))
    case Delta(bases, deltas, blocks) => Delta.Rows(blocks, Decode(bases), Decode(deltas))
    case Sparse(fill, p, len) => DecodePatched(Repeat(fill, len), p)
    case Rle(values, indices, valueOffsets, first, offset, len) =>
      Rows.RunLength(Decode(values), Decode(indices), Decode(valueOffsets), first, offset, len)
  }

  /** The value of row `i`, and the rows `start..start + count`. */
  ghost function Row(n: Node, i: nat): (v: u64)
    requires WF(n) && i < Len(n)
  {
    Decode(n)[i]
  }

  ghost function Part(n: Node, start: nat, count: nat): (rows: seq<u64>)
    requires WF(n) && start + count <= Len(n)
    ensures |rows| == count
  {
    hide WF;
    Decode(n)[start..start + count]
  }

  /** Rows with a node's exceptions written over them. */
  ghost function DecodePatched(rows: seq<u64>, p: PatchProbe): (r: seq<u64>)
    requires WFPatches(p, |rows|)
    ensures |r| == |rows|
    decreases p, 1
  {
    Patches.Patched(rows, Decode(p.indices), Decode(p.values), p.offset)
  }

  ghost function DecodeChunk(chunk: Chunk): (rows: seq<u64>)
    requires WFChunk(chunk)
    ensures |rows| == Len(chunk.node)
    decreases chunk, 1
  {
    Decode(chunk.node)
  }

  ghost function DecodeChunks(chunks: seq<Chunk>): (rows: seq<u64>)
    requires forall c :: 0 <= c < |chunks| ==> WFChunk(chunks[c])
    requires ChunksMeet(chunks)
    ensures |rows| == ChunksEnd(chunks)
    decreases chunks, 0
  {
    if chunks == [] then []
    else
      ChunksBefore(chunks);
      DecodeChunks(chunks[..|chunks| - 1]) + DecodeChunk(chunks[|chunks| - 1])
  }

  // ----- what bounds together and equality searches rely on besides

  /** A frame of reference, or one it is nested in without shifting, has a row
      past the largest word. */
  ghost predicate FrameSaturates(n: Node) {
    match n
    case FoR(reference, child) =>
      if reference == 0 then FrameSaturates(child) else !Rows.Raisable(reference, Decode(child))
    case _ => false
  }

  /** The same of every frame of reference an equality search hands its needle
      through. */
  ghost predicate Saturates(n: Node)
    decreases n, 0
  {
    match n
    case FoR(reference, child) =>
      if reference == 0 then Saturates(child) else !Rows.Raisable(reference, Decode(child))
    case Slice(child, _, _) => Saturates(child)
    case Chunked(chunks, _) => exists c :: 0 <= c < |chunks| && ChunkSaturates(chunks[c])
    case Dict(_, values) => Saturates(values)
    case _ => false
  }

  ghost predicate ChunkSaturates(chunk: Chunk)
    decreases chunk, 0
  {
    Saturates(chunk.node)
  }

  /** An equality search through the encoding sees every row equal to the needle. */
  ghost predicate Searchable(n: Node, needle: u64) {
    needle < U64_MAX || !Saturates(n)
  }

  /** An empty first run hides the needle, the node being its run-end or frames
      of reference around it. */
  ghost predicate Hides(n: Node, needle: u64) {
    match n
    case RunEnd(ends, values, offset, len) => RunEnds.HidesNeedle(Decode(ends), Decode(values), offset, len, needle)
    case FoR(reference, child) => needle >= reference && Hides(child, needle - reference)
    case _ => false
  }

  // ----- each encoding's promises and rows, one node deep

  lemma OfPrimitive(n: Node)
    requires WF(n) && n.Primitive?
    ensures Fit(n.words) && |n.words.data| <= U64_MAX
    ensures Decode(n) == n.words.data
  {
  }

  lemma OfConstant(n: Node)
    requires WF(n) && n.Constant?
    ensures Len(n) == n.len
    ensures n.len <= U64_MAX
    ensures Decode(n) == Repeat(n.value, n.len)
  {
  }

  lemma OfSequence(n: Node)
    requires WF(n) && n.Sequence?
    ensures Len(n) == n.len
    ensures Rows.ProgressionFits(n.base, n.multiplier, n.len)
    ensures Decode(n) == Rows.Progression(n.base, n.multiplier, n.len)
  {
  }

  lemma OfRunEnd(n: Node)
    requires WF(n) && n.RunEnd?
    ensures Len(n) == n.len
    ensures WF(n.ends) && WF(n.values) && RunEnds.View(Decode(n.ends), Decode(n.values), n.offset, n.len)
    ensures Decode(n) == RunEnds.Rows(Decode(n.ends), Decode(n.values), n.offset, n.len)
  {
  }

  lemma OfFoR(n: Node)
    requires WF(n) && n.FoR?
    ensures Len(n) == Len(n.child)
    ensures WF(n.child)
    ensures Decode(n) == Rows.Raised(n.reference, Decode(n.child))
  {
  }

  lemma OfChunkedFoR(n: Node)
    requires WF(n) && n.ChunkedFoR?
    ensures Len(n) == Len(n.child)
    ensures WF(n.references) && WF(n.child) && Rows.ReferencesReach(Len(n.references), n.offset, Len(n.child))
    ensures Decode(n) == Rows.RaisedByChunk(Decode(n.references), n.offset, Decode(n.child))
  {
  }

  lemma OfBitPacked(n: Node)
    requires WF(n) && n.BitPacked?
    ensures Len(n) == n.packing.len
    ensures BitPacked.Holds(n.packing) && (n.patches.Some? ==> WFPatches(n.patches.value, n.packing.len))
    ensures Decode(n) == if n.patches.None? then BitPacked.Rows(n.packing) else DecodePatched(BitPacked.Rows(n.packing), n.patches.value)
  {
  }

  lemma OfSlice(n: Node)
    requires WF(n) && n.Slice?
    ensures Len(n) == n.len
    ensures WF(n.child) && n.start + n.len <= Len(n.child)
    ensures Decode(n) == Decode(n.child)[n.start..n.start + n.len]
  {
  }

  lemma OfChunked(n: Node)
    requires WF(n) && n.Chunked?
    ensures Len(n) == n.len
    ensures (forall c :: 0 <= c < |n.chunks| ==> WFChunk(n.chunks[c])) && Contiguous(n.chunks, n.len) && n.len <= U64_MAX
    ensures n.len == ChunksEnd(n.chunks)
    ensures Decode(n) == DecodeChunks(n.chunks)
  {
  }

  lemma OfDict(n: Node)
    requires WF(n) && n.Dict?
    ensures Len(n) == Len(n.codes)
    ensures WF(n.codes) && WF(n.values) && Rows.CodesInside(Decode(n.codes), Len(n.values))
    ensures Decode(n) == Rows.Decoded(Decode(n.codes), Decode(n.values))
  {
  }

  lemma OfDelta(n: Node)
    requires WF(n) && n.Delta?
    ensures Len(n) == n.blocks.len
    ensures WF(n.bases) && WF(n.deltas) && Delta.Spans(n.blocks, Len(n.bases), Len(n.deltas))
    ensures Decode(n) == Delta.Rows(n.blocks, Decode(n.bases), Decode(n.deltas))
  {
  }

  lemma OfSparse(n: Node)
    requires WF(n) && n.Sparse?
    ensures Len(n) == n.len
    ensures WFPatches(n.exceptions, n.len)
    ensures Decode(n) == DecodePatched(Repeat(n.fill, n.len), n.exceptions)
  {
  }

  lemma OfRle(n: Node)
    requires WF(n) && n.Rle?
    ensures Len(n) == n.len
    ensures WF(n.values) && WF(n.indices) && WF(n.valueOffsets) && Rows.PlacesInside(Len(n.values), Decode(n.indices), Decode(n.valueOffsets), n.first, n.offset, n.len)
    ensures Decode(n) == Rows.RunLength(Decode(n.values), Decode(n.indices), Decode(n.valueOffsets), n.first, n.offset, n.len)
  {
  }

  lemma OfPatches(p: PatchProbe, rows: seq<u64>)
    requires WFPatches(p, |rows|)
    ensures WF(p.indices) && WF(p.values) && Len(p.indices) <= Len(p.values)
    ensures StrictlyAscending(Decode(p.indices)) && p.offset + |rows| <= U64_MAX
    ensures DecodePatched(rows, p) == Patches.Patched(rows, Decode(p.indices), Decode(p.values), p.offset)
  {
  }
}
