/** Bit-packing: which packings have every chunk in their buffer, and that the
    three ways of unpacking, in fixed buffers or whole chunks, give the same
    values at every position. What a chunk's words hold is a parameter
    (`kernel`). */
module BitPacked {
  import opened Base
  import opened Buffers
  import opened Words
  import opened Sinks

  /** The bit width, one chunk's words and a position give the value there. */
  type Kernel = (nat, seq<u64>, nat) -> nat

  datatype Packing = Packing(words: Words, bitWidth: nat, offset: nat, len: nat, kernel: Kernel)

  /** Words per 1024-value chunk. */
  function ChunkWords(width: Width, bitWidth: nat): (words: nat) {
    128 * bitWidth / WordBytes(width)
  }

  /** The chunks the values reach. */
  function Chunks(p: Packing): (chunks: nat) {
    DivCeil(p.offset + p.len, FL_CHUNK)
  }

  /** Every word a position may read is in the buffer. */
  predicate Holds(p: Packing) {
    && p.bitWidth <= 8 * WordBytes(p.words.width)
    && p.offset + p.len <= U64_MAX
    && Chunks(p) * ChunkWords(p.words.width, p.bitWidth) <= |p.words.data|
  }

  /** A packing is made exactly when its buffer holds it: no checked sum or
      product of the construction turns one down. */
  function New(words: Words, bitWidth: nat, offset: nat, len: nat, kernel: Kernel): (r: Option<Packing>)
    requires |words.data| <= U64_MAX
    ensures var p := Packing(words, bitWidth, offset, len, kernel); r == if Holds(p) then Some(p) else None
  {
    var bytes := WordBytes(words.width);
    if bitWidth > 8 * bytes then None
    else if offset + len > U64_MAX then None
    else
      var chunks := DivCeil(offset + len, FL_CHUNK);
      var needed := chunks * (128 * bitWidth / bytes);
      if needed > U64_MAX then None
      else if needed <= |words.data| then Some(Packing(words, bitWidth, offset, len, kernel)) else None
  }

  /** Chunk `c`'s words: inside the buffer for every chunk the values reach. */
  function ChunkSlice(p: Packing, c: nat): (words: seq<u64>)
    requires Holds(p) && c < Chunks(p)
    ensures |words| == ChunkWords(p.words.width, p.bitWidth)
  {
    var n := ChunkWords(p.words.width, p.bitWidth);
    ChunkInBuffer(c, Chunks(p), n);
    p.words.data[c * n..(c + 1) * n]
  }

  /** The packed value at a physical position. */
  function Unpack(p: Packing, index: nat): (v: u64)
    requires Holds(p) && index < Chunks(p) * FL_CHUNK
    ensures v < Limit(p.words.width)
  {
    p.kernel(p.bitWidth, ChunkSlice(p, index / FL_CHUNK), index % FL_CHUNK) % Limit(p.words.width)
  }

  /** What a run of physical positions unpacks to. */
  ghost function Positions(p: Packing, first: nat, n: nat): (values: seq<u64>)
    requires Holds(p) && first + n <= p.offset + p.len
    ensures |values| == n && forall k :: 0 <= k < n ==> values[k] == Unpack(p, first + k)
  {
    if n == 0 then [] else Positions(p, first, n - 1) + [Unpack(p, first + n - 1)]
  }

  lemma PositionsSplit(p: Packing, first: nat, a: nat, b: nat)
    requires Holds(p) && first + a + b <= p.offset + p.len
    ensures Positions(p, first, a + b) == Positions(p, first, a) + Positions(p, first + a, b)
  {
    hide Holds, Chunks, Unpack;
  }

  /** The value of row `i` before any patch. */
  function ValueAt(p: Packing, i: nat): (v: u64)
    requires Holds(p) && i < p.len
  {
    if p.bitWidth == 0 then 0 else Unpack(p, i + p.offset)
  }

  /** The rows the packing stands for, patches aside. */
  ghost function Rows(p: Packing): (rows: seq<u64>)
    requires Holds(p)
    ensures |rows| == p.len
  {
    seq(p.len, i requires 0 <= i < p.len => ValueAt(p, i))
  }

  // ----- the read rule

  const UNPACK_ONE_BY_ONE: nat := 6

  /** Past how many values of a chunk the whole of it is unpacked: never more
      than a part buffer holds. */
  function Crossover(width: Width): (n: nat)
    ensures UNPACK_ONE_BY_ONE < n <= PART_MAX
  {
    match width
    case W8 => 16
    case W16 => 32
    case W32 => 96
    case W64 => 128
  }

  const PART_MAX: nat := 128

  datatype Tier = OneByOne | AtPositions | WholeChunk

  function UnpackTier(width: Width, values: nat): (tier: Tier) {
    if values <= UNPACK_ONE_BY_ONE then OneByOne
    else if values <= Crossover(width) then AtPositions
    else WholeChunk
  }

  /** Chunk `c`'s share of the positions `first..last`, counted in the chunk. */
  function ChunkPart(first: nat, last: nat, c: nat): (part: (nat, nat))
    requires first / FL_CHUNK <= c < DivCeil(last, FL_CHUNK) && first < last
    ensures part.0 < part.1 <= FL_CHUNK
    ensures part.1 - part.0 <= last - first
  {
    var at := c * FL_CHUNK;
    (Max(first, at) - at, Min(last, at + FL_CHUNK) - at)
  }

  /** Values handed on by a read, with their offset in its window. */
  datatype Part = Part(at: nat, values: seq<u64>)

  ghost function Joined(parts: seq<Part>): (values: seq<u64>) {
    if parts == [] then [] else Joined(parts[..|parts| - 1]) + parts[|parts| - 1].values
  }

  /** Parts handed on in order tile a window: each starts where those before it end. */
  ghost predicate Tile(parts: seq<Part>, values: seq<u64>) {
    && Joined(parts) == values
    && forall i :: 0 <= i < |parts| ==> parts[i].at == |Joined(parts[..i])|
  }

  lemma TileExtends(parts: seq<Part>, values: seq<u64>, more: seq<u64>)
    requires Tile(parts, values)
    ensures Tile(parts + [Part(|values|, more)], values + more)
  {
    var longer := parts + [Part(|values|, more)];
    assert longer[..|parts|] == parts;
    forall i | 0 <= i < |longer|
      ensures longer[i].at == |Joined(longer[..i])|
    {
      assert i < |parts| ==> longer[..i] == parts[..i];
    }
  }

  lemma TileNothing()
    ensures Tile([], [])
  {
  }

  /** The shortest reads: position by position, through a buffer of six. */
  method UnpackOneByOne(p: Packing, first: nat, n: nat) returns (values: seq<u64>)
    requires Holds(p) && first + n <= p.offset + p.len && n <= UNPACK_ONE_BY_ONE
    ensures values == Positions(p, first, n)
  {
    hide Unpack;
    var buffer := new u64[UNPACK_ONE_BY_ONE](_ => 0);
    for k := 0 to n
      invariant buffer[..k] == Positions(p, first, k)
    {
      buffer[k] := Unpack(p, first + k);
    }
    values := buffer[..n];
  }

  /** The positions of a part of chunk `c` in one batch, into a buffer of `PART_MAX`. */
  method UnpackPositions(p: Packing, c: nat, from: nat, to: nat) returns (values: seq<u64>)
    requires Holds(p) && from <= to <= FL_CHUNK && to - from <= PART_MAX
    requires c * FL_CHUNK + to <= p.offset + p.len && p.bitWidth > 0 && from < to
    ensures values == Positions(p, c * FL_CHUNK + from, to - from)
  {
    var buffer := new u64[PART_MAX](_ => 0);
    var words := ChunkSlice(p, c);
    for k := 0 to to - from
      invariant buffer[..k] == Positions(p, c * FL_CHUNK + from, to - from)[..k]
    {
      UnpackAt(p, c, from + k);
      buffer[k] := p.kernel(p.bitWidth, words, from + k) % Limit(p.words.width);
    }
    values := buffer[..to - from];
  }

  /** A position of a chunk reads that chunk's words. */
  lemma UnpackAt(p: Packing, c: nat, position: nat)
    requires Holds(p) && c < Chunks(p) && position < FL_CHUNK
    ensures c * FL_CHUNK + position < Chunks(p) * FL_CHUNK
    ensures Unpack(p, c * FL_CHUNK + position) == p.kernel(p.bitWidth, ChunkSlice(p, c), position) % Limit(p.words.width)
  {
    hide Chunks, Holds;
    assert (c * FL_CHUNK + position) / FL_CHUNK == c && (c * FL_CHUNK + position) % FL_CHUNK == position;
  }

  /** Chunk `c` whole into a buffer of 1024, and the part of it asked for. */
  method UnpackChunk(p: Packing, c: nat, from: nat, to: nat) returns (values: seq<u64>)
    requires Holds(p) && from < to <= FL_CHUNK
    requires c * FL_CHUNK + to <= p.offset + p.len
    ensures values == Positions(p, c * FL_CHUNK + from, to - from)
  {
    var buffer := new u64[FL_CHUNK](_ => 0);
    var words := ChunkSlice(p, c);
    for k := 0 to FL_CHUNK
      invariant forall j :: 0 <= j < k ==> buffer[j] == p.kernel(p.bitWidth, words, j) % Limit(p.words.width)
    {
      buffer[k] := p.kernel(p.bitWidth, words, k) % Limit(p.words.width);
    }
    values := buffer[from..to];
    forall k | 0 <= k < to - from
      ensures values[k] == Positions(p, c * FL_CHUNK + from, to - from)[k]
    {
      UnpackAt(p, c, from + k);
    }
  }

  /** A part short enough for the fixed buffers. */
  method ReadShortPart(p: Packing, c: nat, from: nat, to: nat) returns (values: seq<u64>)
    requires Holds(p) && p.bitWidth > 0 && from < to <= FL_CHUNK
    requires c * FL_CHUNK + to <= p.offset + p.len
    requires to - from <= Crossover(p.words.width)
    ensures values == Positions(p, c * FL_CHUNK + from, to - from)
  {
    match UnpackTier(p.words.width, to - from)
    case OneByOne => values := UnpackOneByOne(p, c * FL_CHUNK + from, to - from);
    case AtPositions => values := UnpackPositions(p, c, from, to);
    case WholeChunk => assert false;
  }

  /** The parts a read or a search is handed: they tile the positions in order,
      whichever tier unpacked them. */
  method ReadParts(p: Packing, first: nat, n: nat) returns (parts: seq<Part>)
    requires Holds(p) && p.bitWidth > 0 && first + n <= p.offset + p.len
    ensures Tile(parts, Positions(p, first, n))
  {
    hide Positions, Tile, Chunks;
    if UnpackTier(p.words.width, n) == OneByOne {
      var values := UnpackOneByOne(p, first, n);
      TileNothing();
      TileExtends([], [], values);
      assert [] + [Part(0, values)] == [Part(0, values)] && [] + values == values;
      return [Part(0, values)];
    }
    var long := UnpackTier(p.words.width, n) == WholeChunk;
    var last := first + n;
    parts := [];
    TileNothing();
    assert Positions(p, first, 0) == [];
    for c := first / FL_CHUNK to DivCeil(last, FL_CHUNK)
      invariant Tile(parts, Positions(p, first, Covered(first, last, c)))
    {
      var (from, to) := ChunkPart(first, last, c);
      var values;
      if long && UnpackTier(p.words.width, to - from) == WholeChunk {
        values := UnpackChunk(p, c, from, to);
      } else {
        values := ReadShortPart(p, c, from, to);
      }
      CoveredNext(first, last, c);
      var at := c * FL_CHUNK + from - first;
      PositionsSplit(p, first, at, to - from);
      TileExtends(parts, Positions(p, first, at), values);
      parts := parts + [Part(at, values)];
    }
  }

  /** How many of the positions `first..last` the chunks before `c` hold. */
  ghost function Covered(first: nat, last: nat, c: nat): (n: nat)
    requires first < last && first / FL_CHUNK <= c <= DivCeil(last, FL_CHUNK)
    ensures n <= last - first
  {
    if c == first / FL_CHUNK then 0 else Min(c * FL_CHUNK, last) - first
  }

  lemma CoveredNext(first: nat, last: nat, c: nat)
    requires first < last && first / FL_CHUNK <= c < DivCeil(last, FL_CHUNK)
    ensures var (from, to) := ChunkPart(first, last, c);
            && Covered(first, last, c) == c * FL_CHUNK + from - first
            && Covered(first, last, c + 1) == c * FL_CHUNK + to - first
  {
  }

  // ----- bulk reads and searches

  lemma RowsAreUnpacked(p: Packing, start: nat, n: nat)
    requires Holds(p) && start + n <= p.len
    ensures p.bitWidth > 0 ==> Rows(p)[start..start + n] == Positions(p, p.offset + start, n)
    ensures p.bitWidth == 0 ==> Rows(p)[start..start + n] == Repeat(0, n)
  {
    hide Unpack;
    var rows := Rows(p)[start..start + n];
    forall k | 0 <= k < n
      ensures rows[k] == if p.bitWidth == 0 then 0 else Unpack(p, p.offset + start + k)
    {
      assert rows[k] == ValueAt(p, start + k);
    }
  }

  /** The values of rows `start..start + (to - from)`, patches aside, into `out[from..to]`. */
  method ReadInto(p: Packing, start: nat, out: array<u64>, from: nat, to: nat)
    requires Holds(p) && from <= to <= out.Length && start + (to - from) <= p.len
    modifies out
    ensures Wrote(out[..], old(out[..]), from, Rows(p)[start..start + (to - from)])
  {
    hide Holds, Chunks, Unpack, Positions, Rows, Tile, Wrote;
    var n := to - from;
    RowsAreUnpacked(p, start, n);
    if p.bitWidth == 0 {
      Fill(out, from, to, 0);
      return;
    }
    var first := p.offset + start;
    if UnpackTier(p.words.width, n) == OneByOne {
      var values := UnpackOneByOne(p, first, n);
      Put(out, from, values);
      return;
    }
    var parts := ReadParts(p, first, n);
    CopyParts(parts, Positions(p, first, n), out, from);
  }

  method CopyParts(parts: seq<Part>, ghost rows: seq<u64>, out: array<u64>, from: nat)
    requires Tile(parts, rows) && from + |rows| <= out.Length
    modifies out
    ensures Wrote(out[..], old(out[..]), from, rows)
  {
    hide Tile;
    ghost var was, done := out[..], 0;
    for i := 0 to |parts|
      invariant done == |Joined(parts[..i])| <= |rows| && Wrote(out[..], was, from, rows[..done])
    {
      TilePart(parts, rows, i);
      ghost var mid, next := out[..], done + |parts[i].values|;
      Put(out, from + parts[i].at, parts[i].values);
      WroteNext(out[..], mid, was, from, rows, done, parts[i].values);
      done := next;
    }
    TileJoins(parts, rows);
    assert parts[..|parts|] == parts && rows[..done] == rows;
  }

  lemma {:induction false} JoinedPrefix(parts: seq<Part>, i: nat)
    requires i <= |parts|
    ensures Joined(parts[..i]) <= Joined(parts)
    decreases |parts| - i
  {
    if i < |parts| {
      assert parts[..i + 1][..i] == parts[..i];
      JoinedPrefix(parts, i + 1);
    } else {
      assert parts[..i] == parts;
    }
  }

  /** Part `i` of a tiling holds the values after those of the parts before it. */
  lemma TilePart(parts: seq<Part>, values: seq<u64>, i: nat)
    requires Tile(parts, values) && i < |parts|
    ensures var (at, n) := (parts[i].at, |parts[i].values|);
            && at == |Joined(parts[..i])| && at + n == |Joined(parts[..i + 1])| <= |values|
            && parts[i].values == values[at..at + n]
            && Joined(parts[..i + 1]) == Joined(parts[..i]) + parts[i].values
  {
    assert parts[..i + 1][..i] == parts[..i];
    JoinedPrefix(parts, i + 1);
  }

  /** Unpatched rows searched part by part: the sink sees their matches, a
      needle no word of the width can be having none. */
  method EqInto(p: Packing, start: nat, len: nat, needle: u64, base: nat, sink: EqSink)
    requires Holds(p) && start + len <= p.len && sink.Valid()
    modifies sink
    ensures sink.Valid()
    ensures sink.seen == old(sink.seen) + Matches(Rows(p)[start..start + len], needle, base)
  {
    hide Holds, Chunks, Unpack, Rows, Tile, Matches;
    ghost var rows := Rows(p)[start..start + len];
    RowsAreUnpacked(p, start, len);
    if p.bitWidth == 0 {
      MatchesOfOneValue(rows, 0, needle, base);
      if needle == 0 {
        sink.Run(base, base + len);
      }
      return;
    }
    match Narrow(needle, p.words.width)
    case None =>
      MatchesNone(rows, needle, base);
    case Some(narrow) =>
      var parts := ReadParts(p, p.offset + start, len);
      ghost var was := sink.seen;
      MatchesOfNothing(needle, base);
      for i := 0 to |parts|
        invariant sink.Valid() && sink.seen == was + Matches(Joined(parts[..i]), needle, base)
      {
        TilePart(parts, rows, i);
        MatchesConcat(Joined(parts[..i]), parts[i].values, needle, base);
        sink.Matching(base + parts[i].at, parts[i].values, narrow, p.words.width);
      }
      assert parts[..|parts|] == parts;
      TileJoins(parts, rows);
  }

  lemma TileJoins(parts: seq<Part>, values: seq<u64>)
    requires Tile(parts, values)
    ensures Joined(parts) == values
  {
  }

  lemma MatchesOfNothing(needle: u64, at: nat)
    ensures Matches([], needle, at) == []
  {
  }
}
