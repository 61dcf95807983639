/** Encoded arrays resolved into probe trees: metadata only, no child decoded.
    A tree resolved stands for the array's own values. */
module Resolve {
  import opened Base
  import opened Words
  import opened Nodes
  import NodeSearch
  import Rows
  import RunEnds
  import Patches
  import BitPacked
  import Delta

  /** An encoded array, as far as resolution tells arrays apart. A slice names
      its child's address: chunks of one address are slices of one array. */
  datatype Array =
    | Primitive(words: Words)
    | Constant(value: u64, len: nat)
    | Sequence(base: int, multiplier: int, len: nat)
    | RunEnd(ends: Array, values: Array, offset: nat, len: nat)
    | FoR(reference: u64, child: Array)
    | BlockedFoR(references: Array, offset: nat, child: Array)
    | Sparse(fill: u64, exceptions: Exceptions, len: nat)
    | Rle(values: Array, indices: Array, valueOffsets: Array, offset: nat, len: nat)
    | BitPacked(packed: Words, bitWidth: Option<nat>, offset: nat, len: nat, kernel: BitPacked.Kernel, patches: Option<Exceptions>)
    | Delta(bases: Array, deltas: Array, width: Width, offset: nat, len: nat, undelta: Delta.Undelta)
    | Slice(address: nat, child: Array, start: nat, end: nat)
    | Dict(codes: Array, values: Array, len: nat)
    | Shared(source: Array)
    | Chunked(chunks: seq<Array>)
    | Unsupported(len: nat)

  datatype Exceptions = Exceptions(indices: Array, values: Array, offset: nat)

  function Length(a: Array): (len: nat)
    decreases a
  {
    match a
    case Primitive(words) => |words.data|
    case Constant(_, len) => len
    case Sequence(_, _, len) => len
    case RunEnd(_, _, _, len) => len
    case FoR(_, child) => Length(child)
    case BlockedFoR(_, _, child) => Length(child)
    case Sparse(_, _, len) => len
    case Rle(_, _, _, _, len) => len
    case BitPacked(_, _, _, len, _, _) => len
    case Delta(_, _, _, _, len, _) => len
    case Slice(_, _, start, end) => Max(end - start, 0)
    case Dict(_, _, len) => len
    case Shared(source) => Length(source)
    case Chunked(chunks) => OffsetOf(chunks)
    case Unsupported(len) => len
  }

  /** The rows of chunks before one: their lengths added up. */
  function OffsetOf(chunks: seq<Array>): (row: nat)
    decreases chunks
  {
    if chunks == [] then 0 else OffsetOf(chunks[..|chunks| - 1]) + Length(chunks[|chunks| - 1])
  }

  // ----- an array's own values

  ghost predicate StepFits(base: int, multiplier: int, i: int) { 0 <= base + i * multiplier <= U64_MAX }

  /** The first value offset of a run-length array, the base its indices count from. */
  ghost function FirstOf(offsets: seq<u64>): (first: u64) { if offsets == [] then 0 else offsets[0] }

  /** One address, one array. */
  ghost predicate Located(chunks: seq<Array>) {
    forall c, d :: 0 <= c < d < |chunks| && chunks[c].Slice? && chunks[d].Slice? && chunks[c].address == chunks[d].address ==>
      chunks[c].child == chunks[d].child
  }

  /** What building an array checks, and what its encoder keeps. */
  ghost predicate Stands(a: Array)
    decreases a, 0
  {
    match a
    case Primitive(words) => Fit(words) && |words.data| <= U64_MAX
    case Constant(_, len) => len <= U64_MAX
    case Sequence(base, multiplier, len) => len <= U64_MAX && forall i :: 0 <= i < len ==> StepFits(base, multiplier, i)
    case RunEnd(ends, values, offset, len) =>
      Stands(ends) && Stands(values) && RunEnds.View(Values(ends), Values(values), offset, len)
    case FoR(reference, child) => Stands(child) && Rows.Raisable(reference, Values(child))
    case BlockedFoR(references, offset, child) =>
      Stands(references) && Stands(child) && Rows.ReferencesReach(Length(references), offset, Length(child))
    case Sparse(_, exceptions, len) => StandsOver(exceptions, len)
    case Rle(values, indices, valueOffsets, offset, len) =>
      && Stands(values) && Stands(indices) && Stands(valueOffsets)
      && Rows.PlacesInside(Length(values), Values(indices), Values(valueOffsets), FirstOf(Values(valueOffsets)), offset, len)
    case BitPacked(packed, _, offset, len, _, patches) =>
      |packed.data| <= U64_MAX && (patches.Some? ==> StandsOver(patches.value, len))
    case Delta(bases, deltas, _, offset, len, _) => Stands(bases) && Stands(deltas) && offset + len <= U64_MAX
    case Slice(_, child, start, end) => Stands(child) && start <= end <= Length(child)
    case Dict(codes, values, len) =>
      Stands(codes) && Stands(values) && Length(codes) == len && Rows.CodesInside(Values(codes), Length(values))
    case Shared(source) => Stands(source)
    case Chunked(chunks) =>
      (forall c :: 0 <= c < |chunks| ==> Stands(chunks[c])) && Located(chunks) && OffsetOf(chunks) <= U64_MAX
    case Unsupported(_) => true
  }

  ghost predicate StandsOver(e: Exceptions, len: nat)
    decreases e, 0
  {
    && Stands(e.indices) && Stands(e.values) && Length(e.indices) <= Length(e.values)
    && StrictlyAscending(Values(e.indices)) && e.offset + len <= U64_MAX
  }

  /** The values an array stands for; an array that resolution declines by its
      width or its buffers has no say here. */
  ghost function Values(a: Array): (values: seq<u64>)
    ensures |values| == if Stands(a) then Length(a) else 0
    decreases a, 1
  {
    hide RunEnds.View, RunEnds.Rows, Rows.ReferencesReach, Rows.RaisedByChunk, Rows.PlacesInside, Rows.RunLength, Rows.CodesInside, Rows.Decoded, StrictlyAscending;
    if !Stands(a) then [] else
    match a
    case Primitive(words) => words.data
    case Constant(value, len) => Repeat(value, len)
    case Sequence(base, multiplier, len) => Steps(base, multiplier, len)
    case RunEnd(ends, values, offset, len) => RunEnds.Rows(Values(ends), Values(values), offset, len)
    case FoR(reference, child) => Rows.Raised(reference, Values(child))
    case BlockedFoR(references, offset, child) => Rows.RaisedByChunk(Values(references), offset, Values(child))
    case Sparse(fill, exceptions, len) => Over(Repeat(fill, len), exceptions)
    case Rle(values, indices, valueOffsets, offset, len) =>
      Rows.RunLength(Values(values), Values(indices), Values(valueOffsets), FirstOf(Values(valueOffsets)), offset, len)
    case BitPacked(packed, bitWidth, offset, len, kernel, patches) =>
      var rows := Unpacked(packed, bitWidth, offset, len, kernel);
      if patches.None? then rows else Over(rows, patches.value)
    case Delta(bases, deltas, width, offset, len, undelta) =>
      Undone(Delta.Blocks(width, offset, len, undelta), Values(bases), Values(deltas))
    case Slice(_, child, start, end) => Values(child)[start..end]
    case Dict(codes, values, _) => Rows.Decoded(Values(codes), Values(values))
    case Shared(source) => Values(source)
    case Chunked(chunks) => ValuesOf(chunks)
    case Unsupported(len) => Repeat(0, len)
  }

  ghost function Steps(base: int, multiplier: int, len: nat): (values: seq<u64>)
    requires forall i :: 0 <= i < len ==> StepFits(base, multiplier, i)
    ensures |values| == len && forall i :: 0 <= i < len ==> StepFits(base, multiplier, i) && values[i] == base + i * multiplier
  {
    seq(len, i requires 0 <= i < len && StepFits(base, multiplier, i) => StepAt(base, multiplier, i))
  }

  ghost function StepAt(base: int, multiplier: int, i: int): (v: u64)
    requires StepFits(base, multiplier, i)
  {
    base + i * multiplier
  }

  ghost function Unpacked(packed: Words, bitWidth: Option<nat>, offset: nat, len: nat, kernel: BitPacked.Kernel): (rows: seq<u64>)
    requires |packed.data| <= U64_MAX
    ensures |rows| == len
  {
    var packing := if bitWidth.Some? then BitPacked.New(packed, bitWidth.value, offset, len, kernel) else None;
    if packing.Some? then BitPacked.Rows(packing.value) else Repeat(0, len)
  }

  ghost function Undone(d: Delta.Blocks, bases: seq<u64>, deltas: seq<u64>): (rows: seq<u64>)
    ensures |rows| == d.len
  {
    if Delta.Spans(d, |bases|, |deltas|) then Delta.Rows(d, bases, deltas) else Repeat(0, d.len)
  }

  ghost function Over(rows: seq<u64>, e: Exceptions): (r: seq<u64>)
    requires StandsOver(e, |rows|)
    ensures |r| == |rows|
    decreases e, 1
  {
    Patches.Patched(rows, Values(e.indices), Values(e.values), e.offset)
  }

  /** Chunks end to end, empty ones included. */
  ghost function ValuesOf(chunks: seq<Array>): (values: seq<u64>)
    requires forall c :: 0 <= c < |chunks| ==> Stands(chunks[c])
    ensures |values| == OffsetOf(chunks)
    decreases chunks, 0
  {
    if chunks == [] then [] else ValuesOf(chunks[..|chunks| - 1]) + Values(chunks[|chunks| - 1])
  }

  // ----- resolution

  /** The node stands for the array, and no frame of reference in it saturates. */
  ghost predicate Answers(a: Array, n: Node)
    requires Stands(a)
  {
    WF(n) && Decode(n) == Values(a) && !Saturates(n)
  }

  /** Resolution succeeds exactly on the supported set, and then answers. */
  ghost predicate Resolved(a: Array, r: Option<Node>)
    requires Stands(a)
  {
    (r.Some? <==> Supported(a)) && (r.Some? ==> Answers(a, r.value))
  }

  /** A stored integer as a word: a negative one is none. */
  function AsWord(v: int): (r: Option<u64>) {
    if 0 <= v <= U64_MAX then Some(v) else None
  }

  /** The supported set: the encodings above over supported children, with one
      bit width, buffers that hold every row, and steps that do not descend. An
      empty chunk is never looked at. */
  ghost predicate Supported(a: Array)
    decreases a, 0
  {
    match a
    case Primitive(_) => true
    case Constant(_, _) => true
    case Sequence(base, multiplier, _) => AsWord(base).Some? && AsWord(multiplier).Some?
    case RunEnd(ends, values, _, _) => Supported(ends) && Supported(values)
    case FoR(_, child) => Supported(child)
    case BlockedFoR(references, _, child) => Supported(references) && Supported(child)
    case Sparse(_, exceptions, _) => SupportedOver(exceptions)
    case Rle(values, indices, valueOffsets, _, _) => Supported(values) && Supported(indices) && Supported(valueOffsets)
    case BitPacked(packed, bitWidth, offset, len, kernel, patches) =>
      && bitWidth.Some? && BitPacked.Holds(BitPacked.Packing(packed, bitWidth.value, offset, len, kernel))
      && (patches.Some? ==> SupportedOver(patches.value))
    case Delta(bases, deltas, width, offset, len, undelta) =>
      && Supported(bases) && Supported(deltas)
      && Delta.Spans(Delta.Blocks(width, offset, len, undelta), Length(bases), Length(deltas))
    case Slice(_, child, _, _) => Supported(child)
    case Dict(codes, values, _) => Supported(codes) && Supported(values)
    case Shared(source) => Supported(source)
    case Chunked(chunks) => forall c :: 0 <= c < |chunks| ==> SupportedChunk(chunks[c])
    case Unsupported(_) => false
  }

  ghost predicate SupportedChunk(chunk: Array)
    decreases chunk, 1
  {
    Length(chunk) > 0 ==> Supported(chunk)
  }

  ghost predicate SupportedOver(e: Exceptions)
    decreases e
  {
    Supported(e.indices) && Supported(e.values)
  }

  /** The probe tree of an array, or nothing for one outside the supported set. */
  method ResolveNode(a: Array) returns (r: Option<Node>)
    requires Stands(a)
    ensures Resolved(a, r)
    decreases a, 1
  {
    hide Stands, Answers;
    match a
    case Primitive(_) => r := ResolvePrimitive(a);
    case Constant(_, _) => r := ResolveConstant(a);
    case Sequence(_, _, _) => r := ResolveSequence(a);
    case RunEnd(_, _, _, _) => r := ResolveRunEnd(a);
    case FoR(_, _) => r := ResolveFoR(a);
    case BlockedFoR(_, _, _) => r := ResolveBlockedFoR(a);
    case Sparse(_, _, _) => r := ResolveSparse(a);
    case Rle(_, _, _, _, _) => r := ResolveRle(a);
    case BitPacked(_, _, _, _, _, _) => r := ResolveBitPacked(a);
    case Delta(_, _, _, _, _, _) => r := ResolveDelta(a);
    case Slice(_, _, _, _) => r := ResolveSlice(a);
    case Dict(_, _, _) => r := ResolveDict(a);
    case Shared(_) => r := ResolveShared(a);
    case Chunked(_) => r := ResolveChunked(a);
    case Unsupported(_) => r := None;
  }

  method ResolvePrimitive(a: Array) returns (r: Option<Node>)
    requires Stands(a) && a.Primitive?
    ensures Resolved(a, r)
    decreases a, 0
  {
    hide WF, Decode, Len, Length, Values, StandsOver, Located, Saturates;
    var words := a.words;
    IsPrimitive(a);
    r := Some(Node.Primitive(words));
  }

  method ResolveConstant(a: Array) returns (r: Option<Node>)
    requires Stands(a) && a.Constant?
    ensures Resolved(a, r)
    decreases a, 0
  {
    hide WF, Decode, Len, Length, Values, StandsOver, Located, Saturates;
    var value, len := a.value, a.len;
    IsConstant(a);
    r := Some(Node.Constant(value, len));
  }

  method ResolveSequence(a: Array) returns (r: Option<Node>)
    requires Stands(a) && a.Sequence?
    ensures Resolved(a, r)
    decreases a, 0
  {
    hide WF, Decode, Len, Length, Values, StandsOver, Located, Saturates;
    var base, multiplier, len := a.base, a.multiplier, a.len;
    if AsWord(base).None? || AsWord(multiplier).None? {
      return None;
    }
    IsSequence(a);
    r := Some(if multiplier == 0 then Node.Constant(base, len) else Node.Sequence(base, multiplier, len));
  }

  method ResolveRunEnd(a: Array) returns (r: Option<Node>)
    requires Stands(a) && a.RunEnd?
    ensures Resolved(a, r)
    decreases a, 0
  {
    hide WF, Decode, Len, Length, Values, StandsOver, Located, Saturates;
    var ends, values, offset, len := a.ends, a.values, a.offset, a.len;
    var e := ResolveNode(ends);
    var v := ResolveNode(values);
    if e.Some? && v.Some? {
      RunsMatch(a, e.value, v.value);
    }
    if e.None? || v.None? || Len(e.value) != Len(v.value) {
      return None;
    }
    IsRunEnd(a, e.value, v.value);
    r := Some(Node.RunEnd(e.value, v.value, offset, len));
  }

  method ResolveFoR(a: Array) returns (r: Option<Node>)
    requires Stands(a) && a.FoR?
    ensures Resolved(a, r)
    decreases a, 0
  {
    hide WF, Decode, Len, Length, Values, StandsOver, Located, Saturates;
    var reference, child := a.reference, a.child;
    var n := ResolveNode(child);
    if n.None? {
      return None;
    }
    IsFoR(a, n.value);
    r := Some(Node.FoR(reference, n.value));
  }

  method ResolveBlockedFoR(a: Array) returns (r: Option<Node>)
    requires Stands(a) && a.BlockedFoR?
    ensures Resolved(a, r)
    decreases a, 0
  {
    hide WF, Decode, Len, Length, Values, StandsOver, Located, Saturates;
    var references, offset, child := a.references, a.offset, a.child;
    var n := ResolveNode(child);
    var refs := ResolveNode(references);
    if n.None? || refs.None? {
      return None;
    }
    IsChunkedFoR(a, refs.value, n.value);
    r := Some(Node.ChunkedFoR(refs.value, offset, n.value));
  }

  method ResolveSparse(a: Array) returns (r: Option<Node>)
    requires Stands(a) && a.Sparse?
    ensures Resolved(a, r)
    decreases a, 0
  {
    hide WF, Decode, Len, Length, Values, StandsOver, Located, Saturates;
    var fill, exceptions, len := a.fill, a.exceptions, a.len;
    IsOver(a);
    var p := ResolveExceptions(exceptions, len);
    if p.None? {
      return None;
    }
    IsSparse(a, p.value);
    r := Some(Node.Sparse(fill, p.value, len));
  }

  method ResolveRle(a: Array) returns (r: Option<Node>)
    requires Stands(a) && a.Rle?
    ensures Resolved(a, r)
    decreases a, 0
  {
    hide WF, Decode, Len, Length, Values, StandsOver, Located, Saturates;
    var values, indices, valueOffsets, offset, len := a.values, a.indices, a.valueOffsets, a.offset, a.len;
    var firsts := ResolveNode(valueOffsets);
    if firsts.None? {
      return None;
    }
    LenOf(valueOffsets, firsts.value);
    var first := if Len(firsts.value) == 0 then 0 else NodeSearch.ValueAt(firsts.value, 0);
    FirstIs(valueOffsets, firsts.value, first);
    var v := ResolveNode(values);
    var i := ResolveNode(indices);
    if v.None? || i.None? {
      return None;
    }
    IsRle(a, v.value, i.value, firsts.value, first);
    r := Some(Node.Rle(v.value, i.value, firsts.value, first, offset, len));
  }

  method ResolveBitPacked(a: Array) returns (r: Option<Node>)
    requires Stands(a) && a.BitPacked?
    ensures Resolved(a, r)
    decreases a, 0
  {
    hide WF, Decode, Len, Length, Values, StandsOver, Located, Saturates;
    var packed, bitWidth, offset, len, kernel, patches := a.packed, a.bitWidth, a.offset, a.len, a.kernel, a.patches;
    if bitWidth.None? {
      return None;
    }
    var p: Option<PatchProbe> := None;
    if patches.Some? {
      IsOver(a);
      p := ResolveExceptions(patches.value, len);
      if p.None? {
        return None;
      }
    }
    var packing := BitPacked.New(packed, bitWidth.value, offset, len, kernel);
    if packing.None? {
      return None;
    }
    IsBitPacked(a, packing.value, p);
    r := Some(Node.BitPacked(packing.value, p));
  }

  method ResolveDelta(a: Array) returns (r: Option<Node>)
    requires Stands(a) && a.Delta?
    ensures Resolved(a, r)
    decreases a, 0
  {
    hide WF, Decode, Len, Length, Values, StandsOver, Located, Saturates;
    var bases, deltas, width, offset, len, undelta := a.bases, a.deltas, a.width, a.offset, a.len, a.undelta;
    var b := ResolveNode(bases);
    var d := ResolveNode(deltas);
    if b.None? || d.None? {
      return None;
    }
    LenOf(bases, b.value);
    LenOf(deltas, d.value);
    var blocks := Delta.New(width, offset, len, undelta, Len(b.value), Len(d.value));
    if blocks.None? {
      return None;
    }
    IsDelta(a, b.value, d.value, blocks.value);
    r := Some(Node.Delta(b.value, d.value, blocks.value));
  }

  method ResolveSlice(a: Array) returns (r: Option<Node>)
    requires Stands(a) && a.Slice?
    ensures Resolved(a, r)
    decreases a, 0
  {
    hide WF, Decode, Len, Length, Values, StandsOver, Located, Saturates;
    var child, start, end := a.child, a.start, a.end;
    var n := ResolveNode(child);
    if n.None? {
      return None;
    }
    IsSlice(a, n.value);
    r := Some(Node.Slice(n.value, start, end - start));
  }

  method ResolveDict(a: Array) returns (r: Option<Node>)
    requires Stands(a) && a.Dict?
    ensures Resolved(a, r)
    decreases a, 0
  {
    hide WF, Decode, Len, Length, Values, StandsOver, Located, Saturates;
    var codes, values, len := a.codes, a.values, a.len;
    var c := ResolveNode(codes);
    var v := ResolveNode(values);
    if c.Some? {
      LenOf(codes, c.value);
      CodesMatch(a);
    }
    if c.None? || v.None? || Len(c.value) != len {
      return None;
    }
    IsDict(a, c.value, v.value);
    r := Some(Node.Dict(c.value, v.value));
  }

  method ResolveShared(a: Array) returns (r: Option<Node>)
    requires Stands(a) && a.Shared?
    ensures Resolved(a, r)
    decreases a, 0
  {
    hide WF, Decode, Len, Length, Values, StandsOver, Located, Saturates;
    var source := a.source;
    r := ResolveNode(source);
    IsShared(a);
  }

  method ResolveChunked(a: Array) returns (r: Option<Node>)
    requires Stands(a) && a.Chunked?
    ensures Resolved(a, r)
    decreases a, 0
  {
    hide WF, Decode, Len, Length, Values, StandsOver, Located, Saturates;
    var chunks := a.chunks;
    IsChunked(a);
    var nodes := ResolveChunks(chunks);
    if nodes.None? {
      return None;
    }
    r := Some(Node.Chunked(nodes.value, Length(a)));
    AnswersChunked(a, nodes.value);
  }

  ghost predicate AnswersOver(e: Exceptions, p: PatchProbe, len: nat)
    requires StandsOver(e, len)
  {
    p.offset == e.offset && Answers(e.indices, p.indices) && Answers(e.values, p.values)
  }

  method ResolveExceptions(e: Exceptions, ghost len: nat) returns (r: Option<PatchProbe>)
    requires StandsOver(e, len)
    ensures r.Some? ==> AnswersOver(e, r.value, len)
    ensures r.Some? <==> SupportedOver(e)
    decreases e, 0
  {
    hide Stands, Values, WF, Decode, Saturates;
    var indices := ResolveNode(e.indices);
    if indices.None? {
      return None;
    }
    var values := ResolveNode(e.values);
    if values.None? {
      return None;
    }
    r := Some(PatchProbe(indices.value, values.value, e.offset));
  }

  // ----- each encoding

  lemma LenOf(a: Array, n: Node)
    requires Stands(a) && Answers(a, n)
    ensures Len(n) == Length(a) == |Values(a)|
  {
  }

  lemma IsPrimitive(a: Array)
    requires Stands(a) && a.Primitive?
    ensures Answers(a, Node.Primitive(a.words))
  {
  }

  lemma IsConstant(a: Array)
    requires Stands(a) && a.Constant?
    ensures Answers(a, Node.Constant(a.value, a.len))
  {
  }

  lemma IsSequence(a: Array)
    requires Stands(a) && a.Sequence? && AsWord(a.base).Some? && AsWord(a.multiplier).Some?
    ensures a.multiplier == 0 ==> Answers(a, Node.Constant(a.base, a.len))
    ensures a.multiplier != 0 ==> Answers(a, Node.Sequence(a.base, a.multiplier, a.len))
  {
    if a.len > 0 {
      assert StepFits(a.base, a.multiplier, a.len - 1);
    }
    if a.multiplier == 0 {
      assert Steps(a.base, 0, a.len) == Repeat(a.base, a.len);
    } else {
      assert Rows.ProgressionFits(a.base, a.multiplier, a.len);
      assert Steps(a.base, a.multiplier, a.len) == Rows.Progression(a.base, a.multiplier, a.len);
    }
  }

  lemma IsRunEnd(a: Array, ends: Node, values: Node)
    requires Stands(a) && a.RunEnd? && Answers(a.ends, ends) && Answers(a.values, values)
    ensures Answers(a, Node.RunEnd(ends, values, a.offset, a.len))
  {
  }

  lemma RunsMatch(a: Array, ends: Node, values: Node)
    requires Stands(a) && a.RunEnd? && Answers(a.ends, ends) && Answers(a.values, values)
    ensures Len(ends) == Len(values)
  {
    LenOf(a.ends, ends);
    LenOf(a.values, values);
  }

  lemma CodesMatch(a: Array)
    requires Stands(a) && a.Dict?
    ensures Length(a.codes) == a.len
  {
  }

  lemma IsFoR(a: Array, child: Node)
    requires Stands(a) && a.FoR? && Answers(a.child, child)
    ensures Answers(a, Node.FoR(a.reference, child))
  {
  }

  lemma IsChunkedFoR(a: Array, references: Node, child: Node)
    requires Stands(a) && a.BlockedFoR? && Answers(a.references, references) && Answers(a.child, child)
    ensures Answers(a, Node.ChunkedFoR(references, a.offset, child))
  {
    LenOf(a.references, references);
    LenOf(a.child, child);
  }

  lemma IsOver(a: Array)
    requires Stands(a)
    ensures a.Sparse? ==> StandsOver(a.exceptions, a.len)
    ensures a.BitPacked? && a.patches.Some? ==> StandsOver(a.patches.value, a.len)
  {
  }

  lemma IsPatched(e: Exceptions, p: PatchProbe, rows: seq<u64>)
    requires StandsOver(e, |rows|) && AnswersOver(e, p, |rows|)
    ensures WFPatches(p, |rows|) && DecodePatched(rows, p) == Over(rows, e)
  {
    LenOf(e.indices, p.indices);
    LenOf(e.values, p.values);
  }

  lemma IsSparse(a: Array, p: PatchProbe)
    requires Stands(a) && a.Sparse? && StandsOver(a.exceptions, a.len) && AnswersOver(a.exceptions, p, a.len)
    ensures Answers(a, Node.Sparse(a.fill, p, a.len))
  {
    hide AnswersOver;
    IsPatched(a.exceptions, p, Repeat(a.fill, a.len));
  }

  lemma FirstIs(a: Array, n: Node, first: u64)
    requires Stands(a) && Answers(a, n)
    requires first == if Len(n) == 0 then 0 else Row(n, 0)
    ensures first == FirstOf(Values(a))
  {
    LenOf(a, n);
  }

  lemma IsRle(a: Array, values: Node, indices: Node, firsts: Node, first: u64)
    requires Stands(a) && a.Rle? && Answers(a.values, values) && Answers(a.indices, indices) && Answers(a.valueOffsets, firsts)
    requires first == FirstOf(Values(a.valueOffsets))
    ensures Answers(a, Node.Rle(values, indices, firsts, first, a.offset, a.len))
  {
    LenOf(a.values, values);
  }

  lemma IsBitPacked(a: Array, packing: BitPacked.Packing, p: Option<PatchProbe>)
    requires Stands(a) && a.BitPacked? && a.bitWidth.Some? && BitPacked.Holds(packing)
    requires packing == BitPacked.Packing(a.packed, a.bitWidth.value, a.offset, a.len, a.kernel)
    requires p.Some? <==> a.patches.Some?
    requires p.Some? ==> StandsOver(a.patches.value, a.len) && AnswersOver(a.patches.value, p.value, a.len)
    ensures Answers(a, Node.BitPacked(packing, p))
  {
    hide AnswersOver, StandsOver, BitPacked.Holds, BitPacked.Rows;
    if p.Some? {
      IsPatched(a.patches.value, p.value, BitPacked.Rows(packing));
    }
  }

  lemma IsDelta(a: Array, bases: Node, deltas: Node, blocks: Delta.Blocks)
    requires Stands(a) && a.Delta? && Answers(a.bases, bases) && Answers(a.deltas, deltas)
    requires blocks == Delta.Blocks(a.width, a.offset, a.len, a.undelta) && Delta.Spans(blocks, Len(bases), Len(deltas))
    ensures Answers(a, Node.Delta(bases, deltas, blocks))
  {
    LenOf(a.bases, bases);
    LenOf(a.deltas, deltas);
  }

  lemma IsSlice(a: Array, child: Node)
    requires Stands(a) && a.Slice? && Answers(a.child, child)
    ensures Answers(a, Node.Slice(child, a.start, a.end - a.start))
  {
    LenOf(a.child, child);
  }

  lemma IsDict(a: Array, codes: Node, values: Node)
    requires Stands(a) && a.Dict? && Answers(a.codes, codes) && Answers(a.values, values)
    ensures Answers(a, Node.Dict(codes, values))
  {
    LenOf(a.values, values);
  }

  lemma IsShared(a: Array)
    requires Stands(a) && a.Shared?
    ensures Values(a) == Values(a.source)
  {
  }

  // ----- chunks

  lemma IsChunked(a: Array)
    requires Stands(a) && a.Chunked?
    ensures Located(a.chunks) && OffsetOf(a.chunks) <= U64_MAX && forall c :: 0 <= c < |a.chunks| ==> Stands(a.chunks[c])
  {
  }

  /** The nodes lie end to end, none empty, and hold `values`. */
  ghost predicate Hold(nodes: seq<Chunk>, values: seq<u64>) {
    && (forall c :: 0 <= c < |nodes| ==> WFChunk(nodes[c]) && Len(nodes[c].node) > 0 && !ChunkSaturates(nodes[c]))
    && ChunksMeet(nodes) && DecodeChunks(nodes) == values
  }

  lemma AnswersChunked(a: Array, nodes: seq<Chunk>)
    requires Stands(a) && a.Chunked? && Hold(nodes, ValuesOf(a.chunks))
    ensures Answers(a, Node.Chunked(nodes, Length(a)))
  {
  }

  lemma HoldNothing()
    ensures Hold([], [])
  {
  }

  lemma HoldMore(nodes: seq<Chunk>, values: seq<u64>, node: Node, more: seq<u64>)
    requires Hold(nodes, values) && WF(node) && Decode(node) == more != [] && !Saturates(node)
    ensures Hold(nodes + [Chunk(|values|, node)], values + more)
  {
    var now := nodes + [Chunk(|values|, node)];
    assert WFChunk(now[|nodes|]) && !ChunkSaturates(now[|nodes|]);
    forall c | 0 <= c < |now|
      ensures Follows(now, c)
    {
      if c < |nodes| {
        assert Follows(nodes, c);
      }
    }
    assert now[..|nodes|] == nodes;
  }

  lemma ValuesNext(chunks: seq<Array>, i: nat)
    requires i < |chunks| && forall c :: 0 <= c < |chunks| ==> Stands(chunks[c])
    ensures ValuesOf(chunks[..i + 1]) == ValuesOf(chunks[..i]) + Values(chunks[i])
    ensures OffsetOf(chunks[..i]) == |ValuesOf(chunks[..i])|
  {
    assert chunks[..i + 1][..i] == chunks[..i];
  }

  /** Chunks resolved in order: the nodes hold the chunks' values, with no node
      for an empty chunk and one for each run of slices that `Merge` finds. */
  method ResolveChunks(chunks: seq<Array>) returns (r: Option<seq<Chunk>>)
    requires Located(chunks) && forall c :: 0 <= c < |chunks| ==> Stands(chunks[c])
    ensures r.Some? ==> Hold(r.value, ValuesOf(chunks))
    ensures r.Some? <==> forall c :: 0 <= c < |chunks| ==> SupportedChunk(chunks[c])
    decreases chunks, 0
  {
    hide Hold, Stands, Values, ValuesOf, WF, Decode, Length, OffsetOf, Located, Saturates;
    var nodes: seq<Chunk> := [];
    NoChunks(chunks);
    var i := 0;
    while i < |chunks|
      invariant i <= |chunks| && Hold(nodes, ValuesOf(chunks[..i]))
      invariant forall c :: 0 <= c < i ==> SupportedChunk(chunks[c])
    {
      var child := chunks[i];
      ValuesNext(chunks, i);
      LengthIs(child);
      if Length(child) == 0 {
        Empty(ValuesOf(chunks[..i]), Values(child));
        i := i + 1;
        continue;
      }
      var start := OffsetOf(chunks[..i]);
      if child.Slice? {
        var end, j := Merge(chunks, i);
        var parent := ResolveNode(child.child);
        if parent.None? {
          assert !SupportedChunk(chunks[i]);
          return None;
        }
        WindowHolds(chunks, i, j, end, parent.value);
        HoldMore(nodes, ValuesOf(chunks[..i]), Node.Slice(parent.value, child.start, end - child.start), Values(child.child)[child.start..end]);
        nodes := nodes + [Chunk(start, Node.Slice(parent.value, child.start, end - child.start))];
        i := j;
        continue;
      }
      var node := ResolveNode(child);
      if node.None? {
        assert !SupportedChunk(chunks[i]);
        return None;
      }
      HoldMore(nodes, ValuesOf(chunks[..i]), node.value, Values(child));
      nodes := nodes + [Chunk(start, node.value)];
      i := i + 1;
    }
    assert chunks[..|chunks|] == chunks;
    r := Some(nodes);
  }

  lemma NoChunks(chunks: seq<Array>)
    ensures chunks[..0] == [] && ValuesOf([]) == [] && Hold([], [])
  {
    HoldNothing();
  }

  lemma LengthIs(a: Array)
    requires Stands(a)
    ensures |Values(a)| == Length(a)
    ensures a.Slice? ==> Stands(a.child) && a.start <= a.end <= Length(a.child) == |Values(a.child)| && Values(a) == Values(a.child)[a.start..a.end]
  {
  }

  lemma Empty(before: seq<u64>, none: seq<u64>)
    requires none == []
    ensures before + none == before
  {
  }

  /** The window the slices from chunk `i` on make together: they end at `end`,
      before chunk `j`, and hold what the chunks do. */
  method Merge(chunks: seq<Array>, i: nat) returns (end: nat, j: nat)
    requires Located(chunks) && forall c :: 0 <= c < |chunks| ==> Stands(chunks[c])
    requires i < |chunks| && chunks[i].Slice?
    ensures i < j <= |chunks| && Stands(chunks[i].child) && chunks[i].end <= end <= |Values(chunks[i].child)|
    ensures chunks[i].start <= chunks[i].end
    ensures ValuesOf(chunks[..j]) == ValuesOf(chunks[..i]) + Values(chunks[i].child)[chunks[i].start..end]
    ensures forall c :: i <= c < j ==> chunks[c].Slice? && chunks[c].child == chunks[i].child
    ensures j < |chunks| && chunks[j].Slice? && chunks[j].address == chunks[i].address ==> chunks[j].start != end
  {
    hide Stands, Values, ValuesOf, Length, OffsetOf;
    var parent, start := chunks[i].child, chunks[i].start;
    end, j := chunks[i].end, i + 1;
    LengthIs(chunks[i]);
    ValuesNext(chunks, i);
    while j < |chunks|
      invariant i < j <= |chunks| && chunks[i].end <= end <= |Values(parent)|
      invariant forall c :: i <= c < j ==> chunks[c].Slice? && chunks[c].child == chunks[i].child
      invariant ValuesOf(chunks[..j]) == ValuesOf(chunks[..i]) + Values(parent)[start..end]
    {
      var next := chunks[j];
      if !next.Slice? || next.address != chunks[i].address || next.start != end {
        break;
      }
      LengthIs(next);
      ValuesNext(chunks, j);
      WindowGrows(ValuesOf(chunks[..i]), Values(parent), start, end, next.end);
      end, j := next.end, j + 1;
    }
  }

  lemma WindowGrows(before: seq<u64>, parent: seq<u64>, start: nat, end: nat, next: nat)
    requires start <= end <= next <= |parent|
    ensures before + parent[start..end] + parent[end..next] == before + parent[start..next]
  {
    assert parent[start..end] + parent[end..next] == parent[start..next];
  }

  lemma WindowHolds(chunks: seq<Array>, i: nat, j: nat, end: nat, parent: Node)
    requires i < |chunks| && Stands(chunks[i]) && chunks[i].Slice? && Stands(chunks[i].child) && Answers(chunks[i].child, parent)
    requires Length(chunks[i]) > 0 && chunks[i].end <= end <= |Values(chunks[i].child)|
    ensures var (child, start) := (chunks[i].child, chunks[i].start);
            && start < end && Values(child)[start..end] != []
            && WF(Node.Slice(parent, start, end - start)) && !Saturates(Node.Slice(parent, start, end - start))
            && Decode(Node.Slice(parent, start, end - start)) == Values(child)[start..end]
  {
    hide Values;
    LengthIs(chunks[i]);
    LenOf(chunks[i].child, parent);
  }
}
