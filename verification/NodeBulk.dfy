/** Bulk reads and equality searches over the probe tree: loops that fill part
    of a buffer, or feed a sink, with the work the rows share done once. */
module NodeBulk {
  import opened Base
  import opened Buffers
  import opened Search
  import opened Sinks
  import opened Nodes
  import opened NodeSearch
  import Words
  import Rows
  import RunEnds
  import Patches
  import BitPacked
  import Delta

  // ----- the walks

  /** A chunk's part of a window: `take` of its rows from `from` on, after the
      `done` rows of the window before them. */
  datatype ChunkWindow = ChunkWindow(chunk: nat, from: nat, take: nat, done: nat)

  ghost predicate Covers(w: ChunkWindow, chunks: seq<Chunk>, start: nat, len: nat) {
    && w.chunk < |chunks|
    && w.from + w.take <= Len(chunks[w.chunk].node)
    && w.done + w.take <= len
    && chunks[w.chunk].start + w.from == start + w.done
  }

  /** Chunk windows in order, each where the one before it ended, up to `done` rows. */
  ghost predicate Tile(windows: seq<ChunkWindow>, chunks: seq<Chunk>, start: nat, len: nat, done: nat) {
    && (forall i :: 0 <= i < |windows| ==> Placed(windows, chunks, start, len, i))
    && done == DoneBefore(windows, |windows|)
  }

  /** Window `i` lies in its chunk and starts where the one before it ended. */
  ghost predicate Placed(windows: seq<ChunkWindow>, chunks: seq<Chunk>, start: nat, len: nat, i: nat)
    requires i < |windows|
  {
    Covers(windows[i], chunks, start, len) && windows[i].done == DoneBefore(windows, i)
  }

  ghost function DoneBefore(windows: seq<ChunkWindow>, i: nat): (done: nat)
    requires i <= |windows|
  {
    if i == 0 then 0 else windows[i - 1].done + windows[i - 1].take
  }

  lemma TileNext(windows: seq<ChunkWindow>, chunks: seq<Chunk>, start: nat, len: nat, w: ChunkWindow)
    requires Tile(windows, chunks, start, len, w.done) && Covers(w, chunks, start, len)
    ensures Tile(windows + [w], chunks, start, len, w.done + w.take)
  {
    hide Covers, DoneBefore;
    var more := windows + [w];
    forall i | 0 <= i < |more|
      ensures Placed(more, chunks, start, len, i)
    {
      DoneIsTheSame(windows, w, i);
      assert i < |windows| ==> Placed(windows, chunks, start, len, i);
    }
    DoneWith(windows, w);
  }

  lemma DoneWith(windows: seq<ChunkWindow>, w: ChunkWindow)
    ensures DoneBefore(windows + [w], |windows| + 1) == w.done + w.take
  {
  }

  lemma DoneIsTheSame(windows: seq<ChunkWindow>, w: ChunkWindow, i: nat)
    requires i <= |windows|
    ensures DoneBefore(windows + [w], i) == DoneBefore(windows, i)
    ensures i < |windows| ==> (windows + [w])[i] == windows[i]
  {
  }

  /** Windows into chunks that tile `start..start + len`. */
  method ChunkWindows(chunks: seq<Chunk>, start: nat, len: nat) returns (windows: seq<ChunkWindow>)
    requires Contiguous(chunks, ChunksEnd(chunks)) && start + len <= ChunksEnd(chunks) && len > 0
    ensures Tile(windows, chunks, start, len, len)
  {
    hide Len, ChunkHolding, Contiguous;
    var c: nat := ChunkHolding(chunks, start);
    var done := 0;
    windows := [];
    while done < len
      invariant 0 <= done <= len
      invariant Tile(windows, chunks, start, len, done)
      invariant done < len ==> c < |chunks| && chunks[c].start <= start + done < ChunkEnd(chunks[c])
      decreases len - done
    {
      hide Tile;
      var from := start + done - chunks[c].start;
      var take := Min(Len(chunks[c].node) - from, len - done);
      var w := ChunkWindow(c, from, take, done);
      TileNext(windows, chunks, start, len, w);
      windows := windows + [w];
      done := done + take;
      if done < len {
        NextChunk(chunks, c, start + done);
      }
      c := c + 1;
    }
  }

  lemma NextChunk(chunks: seq<Chunk>, c: nat, row: nat)
    requires Contiguous(chunks, ChunksEnd(chunks)) && c < |chunks| && row == ChunkEnd(chunks[c]) < ChunksEnd(chunks)
    ensures c + 1 < |chunks| && chunks[c + 1].start <= row < ChunkEnd(chunks[c + 1])
  {
    hide Len;
    if c + 1 < |chunks| {
      assert Follows(chunks, c + 1);
    }
  }

  // ----- bulk reads

  /** The values of rows `start..start + (to - from)` into `out[from..to]`, and
      nothing else written: what point reads answer at each, in no order asked. */
  method ReadInto(n: Node, start: nat, out: array<u64>, from: nat, to: nat)
    requires WF(n) && from <= to <= out.Length && start + (to - from) <= Len(n)
    modifies out
    ensures Wrote(out[..], old(out[..]), from, Part(n, start, to - from))
    decreases n, 2
  {
    hide WF, Decode, Len;
    if from == to {
      return;
    }
    match n
    case Primitive(words) =>
      OfPrimitive(n);
      Put(out, from, words.data[start..start + (to - from)]);
    case Constant(value, len) =>
      OfConstant(n);
      Fill(out, from, to, value);
      assert Repeat(value, len)[start..start + (to - from)] == Repeat(value, to - from);
    case RunEnd(_, _, _, _) => ReadRuns(n, start, out, from, to);
    case FoR(_, _) => ReadRaised(n, start, out, from, to);
    case ChunkedFoR(_, _, _) => ReadRaisedByChunk(n, start, out, from, to);
    case BitPacked(packing, patches) => ReadPacked(n, start, out, from, to);
    case Slice(child, at, _) =>
      OfSlice(n);
      ReadInto(child, at + start, out, from, to);
      SliceOfSlice(Decode(child), at, at + Len(n), start, start + (to - from));
    case Chunked(_, _) => ReadChunks(n, start, out, from, to);
    case Dict(_, _) => ReadDecoded(n, start, out, from, to);
    case Delta(_, _, _) => ReadDelta(n, start, out, from, to);
    case Sparse(fill, exceptions, len) => ReadSparse(n, start, out, from, to);
    case Sequence(_, _, _) => ReadEach(n, start, out, from, to);
    case Rle(_, _, _, _, _, _) => ReadEach(n, start, out, from, to);
  }

  /** Point by point. */
  method ReadEach(n: Node, start: nat, out: array<u64>, from: nat, to: nat)
    requires WF(n) && from <= to <= out.Length && start + (to - from) <= Len(n)
    modifies out
    ensures Wrote(out[..], old(out[..]), from, Part(n, start, to - from))
    decreases n, 1
  {
    hide WF, Decode, Len, ValueAt;
    ghost var rows := Part(n, start, to - from);
    for k := from to to
      invariant Wrote(out[..], old(out[..]), from, rows[..k - from])
    {
      out[k] := ValueAt(n, start + (k - from));
    }
    assert rows[..to - from] == rows;
  }

  method ReadRuns(n: Node, start: nat, out: array<u64>, from: nat, to: nat)
    requires WF(n) && n.RunEnd? && from < to <= out.Length && start + (to - from) <= Len(n)
    modifies out
    ensures Wrote(out[..], old(out[..]), from, Part(n, start, to - from))
    decreases n, 1
  {
    hide WF, Decode, Len, RunEnds.View, RunEnds.Rows, RunEnds.Fits, ReadWhole, Wrote, Part;
    OfRunEnd(n);
    ghost var rows := Part(n, start, to - from);
    ghost var was := out[..];
    var runs := RunEnds.RunsIn(ReadWhole(n.ends), ReadWhole(n.values), n.offset, n.len, start, to - from);
    ghost var done := 0;
    RunEndPart(n, start, to - from);
    WroteNothing(was, from, rows);
    for i := 0 to |runs|
      invariant done == (if i == 0 then 0 else runs[i - 1].end) <= |rows|
      invariant Wrote(out[..], was, from, rows[..done])
    {
      RunOfRows(runs, rows, i);
      var run := runs[i];
      ghost var mid := out[..];
      Fill(out, from + run.start, from + run.end, run.value);
      WroteNext(out[..], mid, was, from, rows, done, Repeat(run.value, run.end - run.start));
      done := run.end;
    }
    assert rows[..done] == rows;
  }

  lemma RunEndPart(n: Node, start: nat, len: nat)
    requires WF(n) && n.RunEnd? && start + len <= Len(n)
    ensures RunEnds.View(Decode(n.ends), Decode(n.values), n.offset, n.len) && start + len <= n.len
    ensures Part(n, start, len) == RunEnds.Rows(Decode(n.ends), Decode(n.values), n.offset, n.len)[start..start + len]
  {
    hide WF, Decode, RunEnds.View, RunEnds.Rows;
    OfRunEnd(n);
  }

  /** A walked run's rows are its value repeated. */
  lemma RunOfRows(runs: seq<RunEnds.Run>, rows: seq<u64>, i: nat)
    requires i < |runs| && RunEnds.Fits(runs, rows, i)
    ensures runs[i].start == (if i == 0 then 0 else runs[i - 1].end) && runs[i].start <= runs[i].end <= |rows|
    ensures rows[runs[i].start..runs[i].end] == Repeat(runs[i].value, runs[i].end - runs[i].start)
  {
  }

  method ReadRaised(n: Node, start: nat, out: array<u64>, from: nat, to: nat)
    requires WF(n) && n.FoR? && from < to <= out.Length && start + (to - from) <= Len(n)
    modifies out
    ensures Wrote(out[..], old(out[..]), from, Part(n, start, to - from))
    decreases n, 1
  {
    hide WF, Decode, Len, Wrote, Part, Rows.Raised, Rows.Raisable;
    OfFoR(n);
    ghost var was := out[..];
    ReadInto(n.child, start, out, from, to);
    ghost var stored, rows := Part(n.child, start, to - from), Part(n, start, to - from);
    MappedStart(stored, rows);
    for k := from to to
      invariant Wrote(out[..], was, from, rows[..k - from] + stored[k - from..])
    {
      ghost var mid, j := out[..], k - from;
      MappedAt(out[..], was, from, rows, stored, j);
      FoRRow(n, start, to - from, j);
      out[k] := Rows.SaturatingAdd(n.reference, out[k]);
      MappedNext(out[..], mid, was, from, rows, stored, j);
    }
    MappedEnd(stored, rows);
  }

  method ReadRaisedByChunk(n: Node, start: nat, out: array<u64>, from: nat, to: nat)
    requires WF(n) && n.ChunkedFoR? && from < to <= out.Length && start + (to - from) <= Len(n)
    modifies out
    ensures Wrote(out[..], old(out[..]), from, Part(n, start, to - from))
    decreases n, 1
  {
    hide WF, Decode, Len, ValueAt, Wrote, Part, Rows.RaisedByChunk, Rows.ReferencesReach;
    OfChunkedFoR(n);
    ghost var was := out[..];
    ReadInto(n.child, start, out, from, to);
    ghost var stored, rows := Part(n.child, start, to - from), Part(n, start, to - from);
    MappedStart(stored, rows);
    for k := from to to
      invariant Wrote(out[..], was, from, rows[..k - from] + stored[k - from..])
    {
      ghost var mid, j := out[..], k - from;
      MappedAt(out[..], was, from, rows, stored, j);
      ChunkedFoRRow(n, start, to - from, j);
      out[k] := Rows.WrapAdd(out[k], ValueAt(n.references, (n.offset + start + (k - from)) / FL_CHUNK));
      MappedNext(out[..], mid, was, from, rows, stored, j);
    }
    MappedEnd(stored, rows);
  }

  method ReadDecoded(n: Node, start: nat, out: array<u64>, from: nat, to: nat)
    requires WF(n) && n.Dict? && from < to <= out.Length && start + (to - from) <= Len(n)
    modifies out
    ensures Wrote(out[..], old(out[..]), from, Part(n, start, to - from))
    decreases n, 1
  {
    hide WF, Decode, Len, ValueAt, Wrote, Part, Rows.Decoded, Rows.CodesInside;
    OfDict(n);
    ghost var was := out[..];
    ReadInto(n.codes, start, out, from, to);
    ghost var codes, rows := Part(n.codes, start, to - from), Part(n, start, to - from);
    MappedStart(codes, rows);
    for k := from to to
      invariant Wrote(out[..], was, from, rows[..k - from] + codes[k - from..])
    {
      ghost var mid, j := out[..], k - from;
      MappedAt(out[..], was, from, rows, codes, j);
      DictRow(n, start, to - from, j);
      out[k] := ValueAt(n.values, out[k]);
      MappedNext(out[..], mid, was, from, rows, codes, j);
    }
    MappedEnd(codes, rows);
  }

  lemma FoRRow(n: Node, start: nat, len: nat, j: nat)
    requires WF(n) && n.FoR? && start + len <= Len(n) && j < len
    ensures WF(n.child) && start + len <= Len(n.child)
    ensures Part(n, start, len)[j] == Rows.SaturatingAdd(n.reference, Part(n.child, start, len)[j])
  {
    hide WF, Decode, Len;
    OfFoR(n);
  }

  lemma ChunkedFoRRow(n: Node, start: nat, len: nat, j: nat)
    requires WF(n) && n.ChunkedFoR? && start + len <= Len(n) && j < len
    ensures WF(n.child) && WF(n.references) && start + len <= Len(n.child)
    ensures (n.offset + start + j) / FL_CHUNK < Len(n.references)
    ensures Part(n, start, len)[j] ==
            Rows.WrapAdd(Part(n.child, start, len)[j], Decode(n.references)[(n.offset + start + j) / FL_CHUNK])
  {
    hide WF, Decode, Len;
    OfChunkedFoR(n);
  }

  lemma DictRow(n: Node, start: nat, len: nat, j: nat)
    requires WF(n) && n.Dict? && start + len <= Len(n) && j < len
    ensures WF(n.codes) && WF(n.values) && start + len <= Len(n.codes)
    ensures Part(n.codes, start, len)[j] < Len(n.values)
    ensures Part(n, start, len)[j] == Decode(n.values)[Part(n.codes, start, len)[j]]
  {
    hide WF, Decode, Len;
    OfDict(n);
  }

  method ReadDelta(n: Node, start: nat, out: array<u64>, from: nat, to: nat)
    requires WF(n) && n.Delta? && from < to <= out.Length && start + (to - from) <= Len(n)
    modifies out
    ensures Wrote(out[..], old(out[..]), from, Part(n, start, to - from))
    decreases n, 1
  {
    hide WF, Decode, Len, ReadWhole, Delta.Rows, Delta.Spans;
    OfDelta(n);
    var node := new Delta.DeltaNode(n.blocks, ReadWhole(n.bases), ReadWhole(n.deltas));
    node.ReadInto(start, out, from, to);
  }

  method ReadChunks(n: Node, start: nat, out: array<u64>, from: nat, to: nat)
    requires WF(n) && n.Chunked? && from < to <= out.Length && start + (to - from) <= Len(n)
    modifies out
    ensures Wrote(out[..], old(out[..]), from, Part(n, start, to - from))
    decreases n, 1, 1
  {
    hide WF, WFChunk, Decode, DecodeChunks, Len, Part, Wrote;
    OfChunked(n);
    var windows := ChunkWindows(n.chunks, start, to - from);
    ReadWindows(n, start, out, from, to, windows);
  }

  method ReadWindows(n: Node, start: nat, out: array<u64>, from: nat, to: nat, windows: seq<ChunkWindow>)
    requires WF(n) && n.Chunked? && from < to <= out.Length && start + (to - from) <= Len(n)
    requires Tile(windows, n.chunks, start, to - from, to - from)
    modifies out
    ensures Wrote(out[..], old(out[..]), from, Part(n, start, to - from))
    decreases n, 1, 0
  {
    hide WF, Decode, Len, Part, Wrote, Tile, DoneBefore, Covers;
    ghost var rows, was, done := Part(n, start, to - from), out[..], 0;
    WroteNothing(was, from, rows);
    TileEnds(windows, n.chunks, start, to - from);
    for i := 0 to |windows|
      invariant done == DoneBefore(windows, i) <= |rows|
      invariant Wrote(out[..], was, from, rows[..done])
    {
      TileAt(windows, n.chunks, start, to - from, i);
      ghost var mid, next := out[..], done + windows[i].take;
      ReadWindow(n, start, out, from, to, windows[i]);
      WroteNext(out[..], mid, was, from, rows, done, rows[done..next]);
      done := next;
    }
    assert rows[..done] == rows;
  }

  method ReadWindow(n: Node, start: nat, out: array<u64>, from: nat, to: nat, w: ChunkWindow)
    requires WF(n) && n.Chunked? && from < to <= out.Length && start + (to - from) <= Len(n)
    requires Covers(w, n.chunks, start, to - from)
    modifies out
    ensures Wrote(out[..], old(out[..]), from + w.done, Part(n, start, to - from)[w.done..w.done + w.take])
    decreases n, 0
  {
    hide WF, WFChunk, Decode, DecodeChunks, Len, Part, Wrote;
    WindowRows(n, start, to - from, w);
    ReadInto(n.chunks[w.chunk].node, w.from, out, from + w.done, from + w.done + w.take);
  }

  lemma TileEnds(windows: seq<ChunkWindow>, chunks: seq<Chunk>, start: nat, len: nat)
    requires Tile(windows, chunks, start, len, len)
    ensures DoneBefore(windows, 0) == 0 && DoneBefore(windows, |windows|) == len
  {
  }

  lemma TileAt(windows: seq<ChunkWindow>, chunks: seq<Chunk>, start: nat, len: nat, i: nat)
    requires Tile(windows, chunks, start, len, len) && i < |windows|
    ensures Covers(windows[i], chunks, start, len) && windows[i].chunk < |chunks|
    ensures windows[i].from + windows[i].take <= Len(chunks[windows[i].chunk].node)
    ensures windows[i].done == DoneBefore(windows, i)
    ensures windows[i].done + windows[i].take == DoneBefore(windows, i + 1) <= len
  {
    assert Placed(windows, chunks, start, len, i);
    hide Len;
  }

  /** A chunk's window holds the node's rows there. */
  lemma WindowRows(n: Node, start: nat, len: nat, w: ChunkWindow)
    requires WF(n) && n.Chunked? && start + len <= Len(n) && Covers(w, n.chunks, start, len)
    ensures WF(n.chunks[w.chunk].node)
    ensures Part(n.chunks[w.chunk].node, w.from, w.take) == Part(n, start, len)[w.done..w.done + w.take]
  {
    hide WF, Decode, DecodeChunks, Len;
    OfChunked(n);
    var chunk := n.chunks[w.chunk];
    var (part, rows) := (Part(chunk.node, w.from, w.take), Part(n, start, len));
    forall k | 0 <= k < w.take
      ensures part[k] == rows[w.done + k]
    {
      ChunkRow(n.chunks, w.chunk, w.from + k);
    }
  }

  // ----- exceptions

  /** Patches outside a window leave it alone. */
  lemma {:induction false} PatchedElsewhere(rows: seq<u64>, indices: seq<u64>, values: seq<u64>, offset: nat, a: nat, b: nat, k: nat)
    requires a <= b <= |indices| <= |values| && k < |rows|
    requires forall j :: a <= j < b ==> indices[j] != offset + k
    ensures Patches.Patched(rows, indices[..a], values, offset)[k] == Patches.Patched(rows, indices[..b], values, offset)[k]
    decreases b
  {
    if a < b {
      PatchedElsewhere(rows, indices, values, offset, a, b - 1, k);
      assert indices[..b][..b - 1] == indices[..b - 1];
    }
  }

  /** One exception of the window written over it. */
  lemma OnePatch(now: seq<u64>, mid: seq<u64>, was: seq<u64>, from: nat, rows: seq<u64>, indices: seq<u64>, values: seq<u64>,
                 offset: nat, start: nat, end: nat, at: nat)
    requires at < |indices| <= |values| && start <= end <= |rows| && from + (end - start) <= |mid|
    requires offset + start <= indices[at] < offset + end
    requires Wrote(mid, was, from, Patches.Patched(rows, indices[..at], values, offset)[start..end])
    requires now == mid[from + (indices[at] - offset - start) := values[at]]
    ensures Wrote(now, was, from, Patches.Patched(rows, indices[..at + 1], values, offset)[start..end])
  {
    assert indices[..at + 1][..at] == indices[..at];
    var before := Patches.Patched(rows, indices[..at], values, offset);
    assert Patches.Patched(rows, indices[..at + 1], values, offset) == before[indices[at] - offset := values[at]];
  }

  /** Where `out[from..to]` holds the rows `start..`, it holds them patched. */
  method Overwrite(p: PatchProbe, ghost rows: seq<u64>, start: nat, out: array<u64>, from: nat, to: nat, ghost was: seq<u64>)
    requires WFPatches(p, |rows|) && from <= to <= out.Length && start + (to - from) <= |rows|
    requires Wrote(out[..], was, from, rows[start..start + (to - from)])
    modifies out
    ensures Wrote(out[..], was, from, DecodePatched(rows, p)[start..start + (to - from)])
  {
    hide WF, WFPatches, Decode, DecodePatched, Len, LowerBound, ValueAt, Patches.Patched;
    OfPatches(p, rows);
    ghost var indices, values := Decode(p.indices), Decode(p.values);
    var first := start + p.offset;
    var end := first + (to - from);
    StrictlyAscendingSplits(indices, first);
    var at := LowerBound(p.indices, first);
    PatchedWindow(rows, indices, values, p.offset, start, start + (to - from), 0, at);
    PatchedByNone(rows, indices, values, p.offset);
    while at < Len(p.indices)
      invariant at <= Len(p.indices)
      invariant forall j :: at <= j < |indices| ==> indices[j] >= first
      invariant Wrote(out[..], was, from, Patches.Patched(rows, indices[..at], values, p.offset)[start..start + (to - from)])
    {
      var key := ValueAt(p.indices, at);
      if key >= end {
        break;
      }
      ghost var mid := out[..];
      out[from + (key - first)] := ValueAt(p.values, at);
      OnePatch(out[..], mid, was, from, rows, indices, values, p.offset, start, start + (to - from), at);
      at := at + 1;
    }
    PatchedWindow(rows, indices, values, p.offset, start, start + (to - from), at, |indices|);
    assert indices[..|indices|] == indices;
  }

  lemma PatchedByNone(rows: seq<u64>, indices: seq<u64>, values: seq<u64>, offset: nat)
    requires |indices| <= |values|
    ensures Patches.Patched(rows, indices[..0], values, offset) == rows
  {
    assert indices[..0] == [];
  }

  lemma PatchedWindow(rows: seq<u64>, indices: seq<u64>, values: seq<u64>, offset: nat, start: nat, end: nat, a: nat, b: nat)
    requires a <= b <= |indices| <= |values| && start <= end <= |rows|
    requires forall j :: a <= j < b ==> !(offset + start <= indices[j] < offset + end)
    ensures Patches.Patched(rows, indices[..a], values, offset)[start..end] == Patches.Patched(rows, indices[..b], values, offset)[start..end]
  {
    hide Patches.Patched;
    forall k | start <= k < end
      ensures Patches.Patched(rows, indices[..a], values, offset)[k] == Patches.Patched(rows, indices[..b], values, offset)[k]
    {
      PatchedElsewhere(rows, indices, values, offset, a, b, k);
    }
  }

  method ReadPacked(n: Node, start: nat, out: array<u64>, from: nat, to: nat)
    requires WF(n) && n.BitPacked? && from < to <= out.Length && start + (to - from) <= Len(n)
    modifies out
    ensures Wrote(out[..], old(out[..]), from, Part(n, start, to - from))
    decreases n, 1
  {
    hide WF, WFPatches, Decode, DecodePatched, Len, BitPacked.Rows, BitPacked.Holds;
    OfBitPacked(n);
    ghost var was := out[..];
    BitPacked.ReadInto(n.packing, start, out, from, to);
    match n.patches
    case None =>
    case Some(p) => Overwrite(p, BitPacked.Rows(n.packing), start, out, from, to, was);
  }

  method ReadSparse(n: Node, start: nat, out: array<u64>, from: nat, to: nat)
    requires WF(n) && n.Sparse? && from < to <= out.Length && start + (to - from) <= Len(n)
    modifies out
    ensures Wrote(out[..], old(out[..]), from, Part(n, start, to - from))
    decreases n, 1
  {
    hide WF, WFPatches, Decode, DecodePatched, Len;
    OfSparse(n);
    ghost var was := out[..];
    Fill(out, from, to, n.fill);
    ghost var rows := Repeat(n.fill, n.len);
    assert rows[start..start + (to - from)] == Repeat(n.fill, to - from);
    Overwrite(n.exceptions, rows, start, out, from, to, was);
  }

  // ----- equality searches

  /** A node's length is one an index can hold. */
  lemma {:induction false} LenFits(n: Node)
    requires WF(n)
    ensures Len(n) <= U64_MAX
  {
    match n
    case FoR(_, child) => OfFoR(n); LenFits(child);
    case ChunkedFoR(_, _, child) => OfChunkedFoR(n); LenFits(child);
    case Slice(child, _, _) => OfSlice(n); LenFits(child);
    case Dict(codes, _) => OfDict(n); LenFits(codes);
    case _ =>
  }

  /** What a search adds are offsets of its window. */
  ghost predicate SeenIn(was: seq<nat>, now: seq<nat>, base: nat, len: nat) {
    was <= now && forall i :: |was| <= i < |now| ==> base <= now[i] < base + len
  }

  lemma MatchesSeenIn(was: seq<nat>, rows: seq<u64>, needle: u64, base: nat)
    ensures SeenIn(was, was + Matches(rows, needle, base), base, |rows|)
  {
    hide Matches;
    var found := Matches(rows, needle, base);
    forall i | 0 <= i < |found|
      ensures base <= found[i] < base + |rows|
    {
      MatchesExact(rows, needle, base, found[i]);
    }
  }

  lemma SeenNext(was: seq<nat>, mid: seq<nat>, now: seq<nat>, base: nat, done: nat, more: nat)
    requires SeenIn(was, mid, base, done) && SeenIn(mid, now, base + done, more)
    ensures SeenIn(was, now, base, done + more)
  {
  }

  /** Some row of a frame's window stops at the largest word instead of wrapping. */
  ghost predicate WindowSaturates(n: Node, start: nat, len: nat)
    requires WF(n) && n.FoR? && start + len <= Len(n)
  {
    OfFoR(n);
    !Rows.Raisable(n.reference, Part(n.child, start, len))
  }

  lemma SeenNothing(was: seq<nat>, base: nat, len: nat)
    ensures SeenIn(was, was, base, len)
  {
  }

  lemma SliceSaturates(n: Node)
    requires n.Slice?
    ensures Saturates(n) == Saturates(n.child)
  {
  }

  /** The sink sees the matches of the window's decoded rows, whatever the
      encoding and with no order. At the largest needle no frame of reference
      the search passes through may saturate. */
  method EqInto(n: Node, start: nat, len: nat, needle: u64, base: nat, sink: EqSink)
    requires WF(n) && start + len <= Len(n) && sink.Valid()
    modifies sink
    ensures sink.Valid() && SeenIn(old(sink.seen), sink.seen, base, len)
    ensures Searchable(n, needle) ==> sink.seen == old(sink.seen) + Matches(Part(n, start, len), needle, base)
    ensures n.FoR? && n.reference > 0 && needle == U64_MAX ==>
              (sink.seen == old(sink.seen) + Matches(Part(n, start, len), needle, base) <==> !WindowSaturates(n, start, len))
    decreases n, 2
  {
    hide WF, Decode, Len, Matches, Part, Saturates, SeenIn;
    MatchesSeenIn(sink.seen, Part(n, start, len), needle, base);
    if len == 0 {
      MatchesOfNothing(n, start, needle, base);
      SeenNothing(sink.seen, base, 0);
      return;
    }
    match n
    case Primitive(words) => EqWords(n, start, len, needle, base, sink);
    case Constant(value, _) => EqConstant(n, start, len, needle, base, sink);
    case Sequence(_, _, _) => EqSequence(n, start, len, needle, base, sink);
    case RunEnd(_, _, _, _) => EqRuns(n, start, len, needle, base, sink);
    case FoR(reference, child) => EqRaised(n, start, len, needle, base, sink);
    case Slice(child, at, _) =>
      SlicePart(n, start, len);
      SliceSaturates(n);
      EqInto(child, at + start, len, needle, base, sink);
    case Chunked(_, _) => EqChunks(n, start, len, needle, base, sink);
    case Dict(_, values) =>
      if Len(values) <= len {
        EqCode(n, start, len, needle, base, sink);
      } else {
        EqRead(n, start, len, needle, base, sink);
      }
    case BitPacked(packing, None) =>
      UnpatchedPart(n, start, len);
      BitPacked.EqInto(packing, start, len, needle, base, sink);
    case _ => EqRead(n, start, len, needle, base, sink);
  }

  lemma MatchesOfNothing(n: Node, start: nat, needle: u64, base: nat)
    requires WF(n) && start <= Len(n)
    ensures Matches(Part(n, start, 0), needle, base) == []
  {
    hide WF, Decode, Len;
  }

  lemma SlicePart(n: Node, start: nat, len: nat)
    requires WF(n) && n.Slice? && start + len <= Len(n)
    ensures WF(n.child) && n.start + start + len <= Len(n.child)
    ensures Part(n.child, n.start + start, len) == Part(n, start, len)
  {
    hide WF, Decode, Len;
    OfSlice(n);
    SliceOfSlice(Decode(n.child), n.start, n.start + n.len, start, start + len);
  }

  lemma UnpatchedPart(n: Node, start: nat, len: nat)
    requires WF(n) && n.BitPacked? && n.patches.None? && start + len <= Len(n)
    ensures BitPacked.Holds(n.packing) && start + len <= n.packing.len
    ensures Part(n, start, len) == BitPacked.Rows(n.packing)[start..start + len]
  {
    hide WF, Decode, Len, BitPacked.Rows;
    OfBitPacked(n);
  }

  /** By reading the window in blocks and comparing what was read. */
  method EqRead(n: Node, start: nat, len: nat, needle: u64, base: nat, sink: EqSink)
    requires WF(n) && start + len <= Len(n) && sink.Valid()
    modifies sink
    ensures sink.Valid() && sink.seen == old(sink.seen) + Matches(Part(n, start, len), needle, base)
    decreases n, 1
  {
    hide WF, Decode, Len, Matches;
    var block := new u64[FL_CHUNK](_ => 0);
    var at := start;
    MatchesOfNothing(n, start, needle, base);
    while at < start + len
      invariant start <= at <= start + len && sink.Valid()
      invariant sink.seen == old(sink.seen) + Matches(Part(n, start, at - start), needle, base)
    {
      var count := Min(start + len - at, FL_CHUNK);
      ReadInto(n, at, block, 0, count);
      assert block[..count] == Part(n, at, count);
      PartSplit(n, start, at - start, count);
      MatchesConcat(Part(n, start, at - start), block[..count], needle, base);
      sink.Matching(base + (at - start), block[..count], needle, Words.W64);
      at := at + count;
    }
  }

  lemma PartSplit(n: Node, start: nat, a: nat, b: nat)
    requires WF(n) && start + a + b <= Len(n)
    ensures Part(n, start, a + b) == Part(n, start, a) + Part(n, start + a, b)
  {
    hide WF, Decode, Len;
  }

  method EqWords(n: Node, start: nat, len: nat, needle: u64, base: nat, sink: EqSink)
    requires WF(n) && n.Primitive? && start + len <= Len(n) && sink.Valid()
    modifies sink
    ensures sink.Valid() && sink.seen == old(sink.seen) + Matches(Part(n, start, len), needle, base)
    decreases n, 1
  {
    hide WF, Decode, Len, Matches;
    OfPrimitive(n);
    match Words.Narrow(needle, n.words.width)
    case Some(narrow) => sink.Matching(base, n.words.data[start..start + len], narrow, n.words.width);
    // No word of the width is the needle.
    case None => MatchesNone(Part(n, start, len), needle, base);
  }

  method EqConstant(n: Node, start: nat, len: nat, needle: u64, base: nat, sink: EqSink)
    requires WF(n) && n.Constant? && start + len <= Len(n) && sink.Valid()
    modifies sink
    ensures sink.Valid() && sink.seen == old(sink.seen) + Matches(Part(n, start, len), needle, base)
    decreases n, 1
  {
    hide WF, Decode, Len, Matches;
    OfConstant(n);
    MatchesOfOneValue(Part(n, start, len), n.value, needle, base);
    if n.value == needle {
      sink.Run(base, base + len);
    }
  }

  /** By arithmetic: at most one position of a sequence holds a needle. */
  method EqSequence(n: Node, start: nat, len: nat, needle: u64, base: nat, sink: EqSink)
    requires WF(n) && n.Sequence? && start + len <= Len(n) && sink.Valid()
    modifies sink
    ensures sink.Valid() && sink.seen == old(sink.seen) + Matches(Part(n, start, len), needle, base)
    decreases n, 1
  {
    hide WF, Decode, Len, Matches;
    OfSequence(n);
    ghost var rows := Part(n, start, len);
    SequenceHolds(n.base, n.multiplier, n.len, needle);
    if needle >= n.base && (needle - n.base) % n.multiplier == 0 {
      var at := (needle - n.base) / n.multiplier;
      if start <= at < start + len {
        MatchesOfOnePosition(rows, needle, base, at - start);
        var offset := base + at - start;
        sink.Run(offset, offset + 1);
        return;
      }
    }
    MatchesNone(rows, needle, base);
  }

  lemma SequenceHolds(base: u64, multiplier: u64, len: nat, needle: u64)
    requires Rows.ProgressionFits(base, multiplier, len)
    ensures forall i :: 0 <= i < len ==>
              (Rows.Progression(base, multiplier, len)[i] == needle <==>
               needle >= base && (needle - base) % multiplier == 0 && i == (needle - base) / multiplier)
  {
    forall i | 0 <= i < len
      ensures Rows.Progression(base, multiplier, len)[i] == needle <==>
              needle >= base && (needle - base) % multiplier == 0 && i == (needle - base) / multiplier
    {
      MulMonotone(0, i, multiplier);
      if needle >= base {
        var d := needle - base;
        DivisionIsUnique(d, multiplier, i);
      }
    }
  }

  lemma DivisionIsUnique(d: nat, m: nat, i: nat)
    requires m > 0
    ensures i * m == d <==> d % m == 0 && i == d / m
  {
    var q := d / m;
    assert d == q * m + d % m;
    if i < q {
      MulMonotone(i + 1, q, m);
      assert (i + 1) * m == i * m + m;
    } else if i > q {
      MulMonotone(q + 1, i, m);
      assert (q + 1) * m == q * m + m;
    }
  }

  method EqRuns(n: Node, start: nat, len: nat, needle: u64, base: nat, sink: EqSink)
    requires WF(n) && n.RunEnd? && start + len <= Len(n) && sink.Valid()
    modifies sink
    ensures sink.Valid() && sink.seen == old(sink.seen) + Matches(Part(n, start, len), needle, base)
    decreases n, 1
  {
    hide WF, Decode, Len, Matches, ReadWhole, RunEnds.View, RunEnds.Rows;
    OfRunEnd(n);
    ghost var rows := Part(n, start, len);
    var runs := RunEnds.RunsIn(ReadWhole(n.ends), ReadWhole(n.values), n.offset, n.len, start, len);
    ghost var done := 0;
    MatchesNone(rows[..0], needle, base);
    for i := 0 to |runs|
      invariant done == (if i == 0 then 0 else runs[i - 1].end) <= |rows| && sink.Valid()
      invariant sink.seen == old(sink.seen) + Matches(rows[..done], needle, base)
    {
      assert RunEnds.Fits(runs, rows, i);
      var run := runs[i];
      MatchesOfOneValue(rows[done..run.end], run.value, needle, base + done);
      SeenGrows(old(sink.seen), rows, done, run.end, needle, base);
      if run.value == needle {
        sink.Run(base + run.start, base + run.end);
      }
      done := run.end;
    }
    assert rows[..done] == rows;
  }

  method EqRaised(n: Node, start: nat, len: nat, needle: u64, base: nat, sink: EqSink)
    requires WF(n) && n.FoR? && start + len <= Len(n) && sink.Valid()
    modifies sink
    ensures sink.Valid() && SeenIn(old(sink.seen), sink.seen, base, len)
    ensures Searchable(n, needle) ==> sink.seen == old(sink.seen) + Matches(Part(n, start, len), needle, base)
    ensures n.reference > 0 && needle == U64_MAX ==>
              (sink.seen == old(sink.seen) + Matches(Part(n, start, len), needle, base) <==> !WindowSaturates(n, start, len))
    decreases n, 1
  {
    hide WF, Decode, Len, Matches, SeenIn, Saturates;
    OfFoR(n);
    ghost var rows, stored, was := Part(n, start, len), Part(n.child, start, len), sink.seen;
    if needle >= n.reference {
      EqInto(n.child, start, len, needle - n.reference, base, sink);
      RaisedMatches(n, start, len, needle, base);
      SameTail(was, Matches(stored, needle - n.reference, base), Matches(rows, needle, base));
    } else {
      RaisedNone(n, start, len, needle, base);
      SeenNothing(sink.seen, base, len);
    }
  }

  lemma SameTail(was: seq<nat>, a: seq<nat>, b: seq<nat>)
    ensures was + a == was + b <==> a == b
  {
    assert (was + a)[|was|..] == a && (was + b)[|was|..] == b;
  }

  lemma RaisedNone(n: Node, start: nat, len: nat, needle: u64, base: nat)
    requires WF(n) && n.FoR? && start + len <= Len(n) && needle < n.reference
    ensures Matches(Part(n, start, len), needle, base) == []
  {
    hide WF, Decode, Len, Matches;
    OfFoR(n);
    MatchesNone(Part(n, start, len), needle, base);
  }

  /** Shifting the needle finds the window's matches exactly when, at the largest
      needle, none of the window's rows saturates. */
  lemma RaisedMatches(n: Node, start: nat, len: nat, needle: u64, base: nat)
    requires WF(n) && n.FoR? && start + len <= Len(n) && needle >= n.reference
    ensures WF(n.child) && start + len <= Len(n.child)
    ensures Searchable(n, needle) ==>
              Searchable(n.child, needle - n.reference) && (needle < U64_MAX || !WindowSaturates(n, start, len))
    ensures Matches(Part(n.child, start, len), needle - n.reference, base) == Matches(Part(n, start, len), needle, base) <==>
              needle < U64_MAX || !WindowSaturates(n, start, len)
  {
    hide WF, Decode, Len, Matches;
    OfFoR(n);
    var (rows, stored) := (Part(n, start, len), Part(n.child, start, len));
    assert forall k :: 0 <= k < len ==> rows[k] == Rows.SaturatingAdd(n.reference, stored[k]);
    if needle < U64_MAX || Rows.Raisable(n.reference, stored) {
      assert forall k :: 0 <= k < len ==> (rows[k] == needle <==> stored[k] == needle - n.reference);
      MatchesTogether(rows, needle, stored, needle - n.reference, base);
    } else {
      var k :| 0 <= k < len && n.reference + stored[k] > U64_MAX;
      MatchesExact(rows, needle, base, base + k);
      MatchesExact(stored, needle - n.reference, base, base + k);
    }
  }

  /** Through the needle's code: its values are searched first, and one code
      found is what the codes are searched for. */
  method EqCode(n: Node, start: nat, len: nat, needle: u64, base: nat, sink: EqSink)
    requires WF(n) && n.Dict? && start + len <= Len(n) && sink.Valid()
    modifies sink
    ensures sink.Valid() && SeenIn(old(sink.seen), sink.seen, base, len)
    ensures Searchable(n, needle) ==> sink.seen == old(sink.seen) + Matches(Part(n, start, len), needle, base)
    decreases n, 1
  {
    hide WF, Decode, Len, Matches, Rows.Decoded, Rows.CodesInside, Saturates, SeenIn;
    SeenNothing(sink.seen, base, len);
    DictSaturates(n);
    OfDict(n);
    var code := new EqSink(FindingCode, []);
    EqInto(n.values, 0, Len(n.values), needle, 0, code);
    LenFits(n.values);
    CodeInside(code.seen, Len(n.values));
    CodesOfNeedle(n, start, len, needle, base);
    match code.code
    case NoCode =>
    case One(c) => EqInto(n.codes, start, len, c, base, sink);
    case Several =>
      MatchesSeenIn(sink.seen, Part(n, start, len), needle, base);
      EqRead(n, start, len, needle, base, sink);
  }

  lemma DictSaturates(n: Node)
    requires n.Dict?
    ensures Saturates(n) == Saturates(n.values)
  {
  }

  /** One code found is an offset of the values. */
  lemma CodeInside(seen: seq<nat>, len: nat)
    requires SeenIn([], seen, 0, len)
    ensures CodeIn(seen).One? ==> CodeIn(seen).code < len
  {
  }

  /** What the codes found under the needle say of the rows. */
  lemma CodesOfNeedle(n: Node, start: nat, len: nat, needle: u64, base: nat)
    requires WF(n) && n.Dict? && start + len <= Len(n)
    ensures WF(n.values) && WF(n.codes) && start + len <= Len(n.codes)
    ensures var code := CodeIn(Matches(Part(n.values, 0, Len(n.values)), needle, 0));
            && (code.NoCode? ==> Matches(Part(n, start, len), needle, base) == [])
            && (code.One? ==>
                  && code.code < Len(n.values) <= U64_MAX
                  && Matches(Part(n, start, len), needle, base) == Matches(Part(n.codes, start, len), code.code, base))
  {
    hide WF, Decode, Len, Matches;
    OfDict(n);
    LenFits(n.values);
    var (rows, codes, dict) := (Part(n, start, len), Part(n.codes, start, len), Part(n.values, 0, Len(n.values)));
    assert dict == Decode(n.values);
    var found := Matches(dict, needle, 0);
    forall k | 0 <= k < len
      ensures rows[k] == dict[codes[k]] && (rows[k] == needle <==> codes[k] in found)
    {
      MatchesExact(dict, needle, 0, codes[k]);
    }
    if found == [] {
      MatchesNone(rows, needle, base);
    } else if |found| == 1 {
      MatchesExact(dict, needle, 0, found[0]);
      MatchesTogether(rows, needle, codes, found[0], base);
    }
  }

  method EqChunks(n: Node, start: nat, len: nat, needle: u64, base: nat, sink: EqSink)
    requires WF(n) && n.Chunked? && start + len <= Len(n) && sink.Valid() && len > 0
    modifies sink
    ensures sink.Valid() && SeenIn(old(sink.seen), sink.seen, base, len)
    ensures Searchable(n, needle) ==> sink.seen == old(sink.seen) + Matches(Part(n, start, len), needle, base)
    decreases n, 1, 1
  {
    hide WF, WFChunk, Decode, DecodeChunks, Len, Part, Matches, SeenIn, Saturates;
    OfChunked(n);
    var windows := ChunkWindows(n.chunks, start, len);
    EqWindows(n, start, len, needle, base, sink, windows);
  }

  method EqWindows(n: Node, start: nat, len: nat, needle: u64, base: nat, sink: EqSink, windows: seq<ChunkWindow>)
    requires WF(n) && n.Chunked? && start + len <= Len(n) && sink.Valid()
    requires Tile(windows, n.chunks, start, len, len)
    modifies sink
    ensures sink.Valid() && SeenIn(old(sink.seen), sink.seen, base, len)
    ensures Searchable(n, needle) ==> sink.seen == old(sink.seen) + Matches(Part(n, start, len), needle, base)
    decreases n, 1, 0
  {
    hide WF, Decode, Len, Part, Matches, Tile, DoneBefore, Covers, SeenIn, Saturates;
    ghost var rows, was, done := Part(n, start, len), sink.seen, 0;
    TileEnds(windows, n.chunks, start, len);
    MatchesNone(rows[..0], needle, base);
    SeenNothing(was, base, 0);
    for i := 0 to |windows|
      invariant done == DoneBefore(windows, i) <= |rows| && sink.Valid()
      invariant SeenIn(was, sink.seen, base, done)
      invariant Searchable(n, needle) ==> sink.seen == was + Matches(rows[..done], needle, base)
    {
      TileAt(windows, n.chunks, start, len, i);
      ghost var next := done + windows[i].take;
      SeenGrows(was, rows, done, next, needle, base);
      ghost var mid := sink.seen;
      EqWindow(n, start, len, needle, base, sink, windows[i]);
      SeenNext(was, mid, sink.seen, base, done, windows[i].take);
      done := next;
    }
    assert rows[..done] == rows;
  }

  method EqWindow(n: Node, start: nat, len: nat, needle: u64, base: nat, sink: EqSink, w: ChunkWindow)
    requires WF(n) && n.Chunked? && start + len <= Len(n) && sink.Valid()
    requires Covers(w, n.chunks, start, len)
    modifies sink
    ensures sink.Valid() && SeenIn(old(sink.seen), sink.seen, base + w.done, w.take)
    ensures Searchable(n, needle) ==> sink.seen == old(sink.seen) + Matches(Part(n, start, len)[w.done..w.done + w.take], needle, base + w.done)
    decreases n, 0
  {
    hide WF, WFChunk, Decode, DecodeChunks, Len, Part, Matches, SeenIn;
    WindowRows(n, start, len, w);
    assert Saturates(n.chunks[w.chunk].node) ==> ChunkSaturates(n.chunks[w.chunk]);
    EqInto(n.chunks[w.chunk].node, w.from, w.take, needle, base + w.done, sink);
  }

  lemma OneSaturated(n: Node)
    requires n == FoR(1, Primitive(Words.Words(Words.W64, [U64_MAX])))
    ensures WF(n) && Len(n) == 1 && Decode(n) == Part(n, 0, 1) == [U64_MAX] && WindowSaturates(n, 0, 1)
    ensures Matches(Decode(n), U64_MAX, 0) == [0]
  {
    var rows: seq<u64> := [U64_MAX];
    assert Decode(n.child) == rows && Part(n.child, 0, 1) == rows;
    assert Rows.Raised(1, rows) == rows;
    assert 1 + rows[0] > U64_MAX;
  }

  /** A saturating frame of reference: its row is the largest word, and a search
      for that word misses it. */
  method SaturationHidesTheMatch() returns (found: seq<nat>)
    ensures var n := FoR(1, Primitive(Words.Words(Words.W64, [U64_MAX])));
            WF(n) && Matches(Decode(n), U64_MAX, 0) == [0]
    ensures found != [0]
  {
    hide Matches, WF, Decode, Len, Part, WindowSaturates;
    var n := FoR(1, Primitive(Words.Words(Words.W64, [U64_MAX])));
    OneSaturated(n);
    var sink := new EqSink(Collecting, []);
    EqInto(n, 0, 1, U64_MAX, 0, sink);
    found := sink.offsets;
  }
}
