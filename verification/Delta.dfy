/** Delta encoding, by the block: which blocks a node spans and where its rows
    lie in them, and a cache of decoded blocks that is proved never to change an
    answer. How deltas are undone is a parameter (`undelta`). */
module Delta {
  import opened Base
  import opened Buffers
  import opened Words

  /** A block's deltas, its lane bases and a position give the value there. */
  type Undelta = (seq<u64>, seq<u64>, nat) -> nat

  datatype Blocks = Blocks(width: Width, offset: nat, len: nat, undelta: Undelta)

  /** One base a lane. */
  function Lanes(width: Width): (lanes: nat)
    ensures lanes * 8 * WordBytes(width) == FL_CHUNK
  {
    match width
    case W8 => 128
    case W16 => 64
    case W32 => 32
    case W64 => 16
  }

  function Count(d: Blocks): (blocks: nat) {
    DivCeil(d.offset + d.len, FL_CHUNK)
  }

  /** The first block holds the first row, and the children hold every block. */
  predicate Spans(d: Blocks, bases: nat, deltas: nat) {
    && d.offset < FL_CHUNK
    && Count(d) * FL_CHUNK <= deltas
    && Count(d) * Lanes(d.width) <= bases
  }

  /** A node is made exactly over children that hold every block it spans. */
  function New(width: Width, offset: nat, len: nat, undelta: Undelta, bases: nat, deltas: nat): (r: Option<Blocks>)
    ensures var d := Blocks(width, offset, len, undelta); r == if Spans(d, bases, deltas) then Some(d) else None
  {
    if offset >= FL_CHUNK then None
    else
      var blocks := DivCeil(offset + len, FL_CHUNK);
      if deltas < blocks * FL_CHUNK || bases < blocks * Lanes(width) then None
      else Some(Blocks(width, offset, len, undelta))
  }

  /** A child's value in the stored width. */
  function Stored(v: u64, width: Width): (w: u64)
    ensures w < Limit(width)
  {
    match Narrow(v, width)
    case Some(n) => n
    case None => 0
  }

  function StoredAll(values: seq<u64>, width: Width): (words: seq<u64>)
    ensures |words| == |values|
  {
    seq(|values|, i requires 0 <= i < |values| => Stored(values[i], width))
  }

  /** One block from its own bases and deltas. */
  function DecodeBlock(d: Blocks, bases: seq<u64>, deltas: seq<u64>): (block: seq<u64>)
    ensures |block| == FL_CHUNK
  {
    var chunk, lanes := StoredAll(deltas, d.width), StoredAll(bases, d.width);
    seq(FL_CHUNK, (j: nat) => Undone(d, chunk, lanes, j))
  }

  function Undone(d: Blocks, chunk: seq<u64>, lanes: seq<u64>, j: nat): (v: u64)
    ensures v < Limit(d.width)
  {
    d.undelta(chunk, lanes, j) % Limit(d.width)
  }

  /** Block `b` of the children's values. */
  function BlockOf(d: Blocks, bases: seq<u64>, deltas: seq<u64>, b: nat): (block: seq<u64>)
    requires Spans(d, |bases|, |deltas|) && b < Count(d)
    ensures |block| == FL_CHUNK
  {
    ChunkInBuffer(b, Count(d), FL_CHUNK);
    ChunkInBuffer(b, Count(d), Lanes(d.width));
    DecodeBlock(d, bases[b * Lanes(d.width)..(b + 1) * Lanes(d.width)], deltas[b * FL_CHUNK..(b + 1) * FL_CHUNK])
  }

  /** The first `blocks` blocks, end to end. */
  ghost function Decoded(d: Blocks, bases: seq<u64>, deltas: seq<u64>, blocks: nat): (values: seq<u64>)
    requires Spans(d, |bases|, |deltas|) && blocks <= Count(d)
    ensures |values| == blocks * FL_CHUNK
  {
    if blocks == 0 then [] else Decoded(d, bases, deltas, blocks - 1) + BlockOf(d, bases, deltas, blocks - 1)
  }

  /** The rows the node stands for: every block decoded, the view cut out. */
  ghost function Rows(d: Blocks, bases: seq<u64>, deltas: seq<u64>): (rows: seq<u64>)
    requires Spans(d, |bases|, |deltas|)
    ensures |rows| == d.len
  {
    Decoded(d, bases, deltas, Count(d))[d.offset..d.offset + d.len]
  }

  lemma {:induction false} DecodedAt(d: Blocks, bases: seq<u64>, deltas: seq<u64>, blocks: nat, b: nat, j: nat)
    requires Spans(d, |bases|, |deltas|) && b < blocks <= Count(d) && j < FL_CHUNK
    ensures b * FL_CHUNK + j < |Decoded(d, bases, deltas, blocks)|
    ensures Decoded(d, bases, deltas, blocks)[b * FL_CHUNK + j] == BlockOf(d, bases, deltas, b)[j]
  {
    hide BlockOf, Spans, Count;
    if b < blocks - 1 {
      DecodedAt(d, bases, deltas, blocks - 1, b, j);
    }
  }

  /** A row is its block's value at its place in the block. */
  lemma RowInBlock(d: Blocks, bases: seq<u64>, deltas: seq<u64>, i: nat)
    requires Spans(d, |bases|, |deltas|) && i < d.len
    ensures (d.offset + i) / FL_CHUNK < Count(d)
    ensures Rows(d, bases, deltas)[i] == BlockOf(d, bases, deltas, (d.offset + i) / FL_CHUNK)[(d.offset + i) % FL_CHUNK]
  {
    hide BlockOf, Decoded;
    var physical := d.offset + i;
    DecodedAt(d, bases, deltas, Count(d), physical / FL_CHUNK, physical % FL_CHUNK);
  }

  lemma RowsInBlock(d: Blocks, bases: seq<u64>, deltas: seq<u64>, start: nat, n: nat)
    requires Spans(d, |bases|, |deltas|) && start + n <= d.len && n > 0
    requires (d.offset + start) % FL_CHUNK + n <= FL_CHUNK
    ensures var (b, at) := ((d.offset + start) / FL_CHUNK, (d.offset + start) % FL_CHUNK);
            b < Count(d) && Rows(d, bases, deltas)[start..start + n] == BlockOf(d, bases, deltas, b)[at..at + n]
  {
    hide BlockOf, Rows, Spans, Count;
    var (b, at) := ((d.offset + start) / FL_CHUNK, (d.offset + start) % FL_CHUNK);
    RowInBlock(d, bases, deltas, start);
    var rows, block := Rows(d, bases, deltas)[start..start + n], BlockOf(d, bases, deltas, b)[at..at + n];
    forall k | 0 <= k < n
      ensures rows[k] == block[k]
    {
      RowInBlock(d, bases, deltas, start + k);
      assert (d.offset + start + k) / FL_CHUNK == b && (d.offset + start + k) % FL_CHUNK == at + k;
    }
  }

  /** A cache of decoded blocks, over what reading the children answers. A
      filled block is always what decoding it afresh gives. */
  class DeltaNode {
    const d: Blocks
    const bases: seq<u64>
    const deltas: seq<u64>
    var blocks: seq<Option<seq<u64>>>

    /** Whatever was touched, a kept block is the block decoded afresh. */
    ghost predicate Valid()
      reads this
    {
      && Spans(d, |bases|, |deltas|)
      && |blocks| == Count(d)
      && forall b :: 0 <= b < |blocks| && blocks[b].Some? ==> blocks[b].value == BlockOf(d, bases, deltas, b)
    }

    constructor (d: Blocks, bases: seq<u64>, deltas: seq<u64>)
      requires Spans(d, |bases|, |deltas|)
      ensures Valid() && this.d == d && this.bases == bases && this.deltas == deltas
      ensures forall b :: 0 <= b < |blocks| ==> blocks[b].None?
    {
      this.d, this.bases, this.deltas := d, bases, deltas;
      blocks := seq(Count(d), _ => None);
    }

    /** Block `b`, decoded on first touch: a filled slot never changes, and no other slot does. */
    method Block(b: nat) returns (block: seq<u64>)
      requires Valid() && b < Count(d)
      modifies this`blocks
      ensures Valid() && block == BlockOf(d, bases, deltas, b)
      ensures blocks == old(blocks)[b := Some(block)]
      ensures old(blocks)[b].Some? ==> blocks == old(blocks)
    {
      hide BlockOf;
      if blocks[b].None? {
        blocks := blocks[b := Some(BlockOf(d, bases, deltas, b))];
      }
      block := blocks[b].value;
    }

    method ValueAt(i: nat) returns (v: u64)
      requires Valid() && i < d.len
      modifies this`blocks
      ensures Valid() && v == Rows(d, bases, deltas)[i]
    {
      hide BlockOf, Rows;
      RowInBlock(d, bases, deltas, i);
      var physical := d.offset + i;
      var block := Block(physical / FL_CHUNK);
      v := block[physical % FL_CHUNK];
    }

    /** The rows from `start` into `out[from..to]`, copied block by block. */
    method ReadInto(start: nat, out: array<u64>, from: nat, to: nat)
      requires Valid() && from <= to <= out.Length && start + (to - from) <= d.len
      modifies this`blocks, out
      ensures Valid()
      ensures Wrote(out[..], old(out[..]), from, Rows(d, bases, deltas)[start..start + (to - from)])
    {
      hide BlockOf, Rows, Spans, Count;
      ghost var rows := Rows(d, bases, deltas)[start..start + (to - from)];
      ghost var was := out[..];
      var physical, done := d.offset + start, 0;
      while done < to - from
        invariant 0 <= done <= to - from && physical == d.offset + start + done
        invariant Valid() && Wrote(out[..], was, from, rows[..done])
      {
        var b, at := physical / FL_CHUNK, physical % FL_CHUNK;
        var take := Min(FL_CHUNK - at, to - from - done);
        RowsInBlock(d, bases, deltas, start + done, take);
        var block := Block(b);
        ghost var mid := out[..];
        Put(out, from + done, block[at..at + take]);
        SliceOfSlice(Rows(d, bases, deltas), start, start + (to - from), done, done + take);
        WroteNext(out[..], mid, was, from, rows, done, block[at..at + take]);
        done, physical := done + take, physical + take;
      }
      assert rows[..done] == rows;
    }
  }
}
