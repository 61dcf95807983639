/** The parts of a payload and what its entries name. Pushing a term is proved
    to keep every earlier entry's term and, within the limits, every number an
    `i32`. */
module Payloads {
  import opened Base

  const I32_MAX: int := 0x7FFF_FFFF

  type Text = seq<byte>

  /** The low 32 bits of an integer, read as signed. */
  function AsI32(n: int): (i: int)
    ensures -I32_MAX - 1 <= i <= I32_MAX
    ensures -I32_MAX - 1 <= n <= I32_MAX ==> i == n
  {
    (n + I32_MAX + 1) % (2 * (I32_MAX + 1)) - I32_MAX - 1
  }

  /** A chunk's limits: its rows, the bytes of its distinct terms, and how long
      a term may be that shares the text. */
  datatype Limits = Limits(rows: nat, chunkBytes: nat, largeTerm: nat)

  /** Limits that keep every number of a payload an `i32`: four terms that are
      not large never outgrow the budget, and the budget is an `i32`. */
  predicate Sound(limits: Limits) {
    && 1 <= limits.rows && 4 * limits.rows <= I32_MAX
    && 1 <= limits.largeTerm && 4 * limits.largeTerm <= limits.chunkBytes <= I32_MAX
  }

  function NewLimits(rows: nat, chunkBytes: nat, largeTerm: nat): (r: Option<Limits>)
    ensures r.Some? <==> Sound(Limits(rows, chunkBytes, largeTerm))
    ensures r.Some? ==> r.value == Limits(rows, chunkBytes, largeTerm)
  {
    var row := if largeTerm * 4 <= U64_MAX then Some(largeTerm * 4) else None;
    var valid :=
      && 1 <= rows <= I32_MAX / 4
      && largeTerm >= 1
      && chunkBytes <= I32_MAX
      && row.Some? && row.value <= chunkBytes;
    if valid then Some(Limits(rows, chunkBytes, largeTerm)) else None
  }

  /** A payload's fields. Shared term `k` is `text` from `bounds[2 * k]` to
      `bounds[2 * k + 1]` and named by `k`, large term `j` by `-2 - j`, no term
      by -1. */
  datatype Chunk = Chunk(text: Text, bounds: seq<int>, terms: seq<int>, large: seq<Text>)

  const NONE: int := -1

  ghost predicate BoundsOf(c: Chunk, k: nat)
    requires 2 * k + 1 < |c.bounds|
  {
    0 <= c.bounds[2 * k] <= c.bounds[2 * k + 1] <= |c.text|
  }

  /** A chunk its reader can index: every offset inside the text, every number
      an `i32`. */
  ghost predicate Readable(c: Chunk) {
    && |c.bounds| % 2 == 0
    && |c.text| <= I32_MAX && |c.bounds| / 2 + |c.large| <= I32_MAX
    && forall k :: 0 <= k < |c.bounds| / 2 ==> BoundsOf(c, k)
  }

  /** An entry naming a term of the chunk. */
  predicate Names(c: Chunk, entry: int) {
    0 <= entry < |c.bounds| / 2 || (entry <= -2 && -2 - entry < |c.large|)
  }

  /** The term an entry names. */
  function Spelled(c: Chunk, entry: int): (term: Option<Text>)
    requires Readable(c) && (entry == NONE || Names(c, entry))
  {
    if entry == NONE then None
    else if entry >= 0 then
      assert BoundsOf(c, entry);
      Some(c.text[c.bounds[2 * entry]..c.bounds[2 * entry + 1]])
    else Some(c.large[-2 - entry])
  }

  function SumLengths(terms: seq<Text>): (sum: nat) {
    if terms == [] then 0 else SumLengths(terms[..|terms| - 1]) + |terms[|terms| - 1]|
  }

  /** How much a chunk counts against its budget. */
  function ByteCount(c: Chunk): (n: nat) { |c.text| + SumLengths(c.large) }

  /** Whatever an entry of `a` names, it names in `b`. */
  ghost predicate Keeps(a: Chunk, b: Chunk)
    requires Readable(a) && Readable(b)
  {
    forall entry :: Names(a, entry) ==> Names(b, entry) && Spelled(b, entry) == Spelled(a, entry)
  }

  lemma KeepsShared(a: Chunk, term: Text)
    requires Readable(a) && |a.text| + |term| <= I32_MAX && |a.bounds| / 2 + |a.large| < I32_MAX
    ensures var b := a.(text := a.text + term, bounds := a.bounds + [|a.text|, |a.text| + |term|]);
            Readable(b) && Keeps(a, b) && Names(b, |a.bounds| / 2) && Spelled(b, |a.bounds| / 2) == Some(term)
  {
    var b := a.(text := a.text + term, bounds := a.bounds + [|a.text|, |a.text| + |term|]);
    forall k | 0 <= k < |b.bounds| / 2
      ensures BoundsOf(b, k)
    {
      assert k < |a.bounds| / 2 ==> BoundsOf(a, k);
    }
    forall entry | Names(a, entry)
      ensures Names(b, entry) && Spelled(b, entry) == Spelled(a, entry)
    {
      if entry >= 0 {
        assert BoundsOf(a, entry);
        assert b.text[a.bounds[2 * entry]..a.bounds[2 * entry + 1]] == a.text[a.bounds[2 * entry]..a.bounds[2 * entry + 1]];
      }
    }
    assert b.text[|a.text|..|a.text| + |term|] == term;
  }

  lemma KeepsLarge(a: Chunk, term: Text)
    requires Readable(a) && |a.bounds| / 2 + |a.large| < I32_MAX
    ensures var b := a.(large := a.large + [term]);
            Readable(b) && Keeps(a, b) && Names(b, -1 - |b.large|) && Spelled(b, -1 - |b.large|) == Some(term)
            && SumLengths(b.large) == SumLengths(a.large) + |term|
  {
    var b := a.(large := a.large + [term]);
    assert b.large[..|a.large|] == a.large;
    forall k | 0 <= k < |b.bounds| / 2
      ensures BoundsOf(b, k)
    {
      assert BoundsOf(a, k);
    }
  }

  class Payload {
    var text: Text
    var bounds: seq<int>
    var terms: seq<int>
    var large: seq<Text>

    function Packed(): (c: Chunk)
      reads this
    {
      Chunk(text, bounds, terms, large)
    }

    constructor ()
      ensures Packed() == Chunk([], [], [], []) && Readable(Packed())
    {
      text, bounds, terms, large := [], [], [], [];
    }

    /** Adds a distinct term, in the shared text or, past `largeTerm` bytes, on
        its own. Its entry names it, and every earlier entry what it named. */
    method Push(term: Text, largeTerm: nat) returns (entry: int)
      requires Readable(Packed())
      requires |term| <= largeTerm ==> |text| + |term| <= I32_MAX
      requires |bounds| / 2 + |large| < I32_MAX
      modifies this
      ensures Readable(Packed()) && Names(Packed(), entry) && Spelled(Packed(), entry) == Some(term)
      ensures Keeps(old(Packed()), Packed()) && terms == old(terms)
      ensures ByteCount(Packed()) == ByteCount(old(Packed())) + |term|
      ensures |text| == old(|text|) + if |term| > largeTerm then 0 else |term|
      ensures |bounds| / 2 + |large| == old(|bounds| / 2 + |large|) + 1
    {
      hide Readable, Keeps, BoundsOf, Names, Spelled, SumLengths, AsI32;
      SharedEven(Packed());
      if |term| > largeTerm {
        KeepsLarge(Packed(), term);
        large := large + [term];
        entry := -1 - AsI32(|large|);
      } else {
        KeepsShared(Packed(), term);
        var start := AsI32(|text|);
        text := text + term;
        bounds := bounds + [start, AsI32(|text|)];
        entry := AsI32(|bounds| / 2 - 1);
      }
    }

    /** Names each position's term, from its slot. */
    method SetTerms(slots: seq<nat>, entries: seq<int>)
      requires forall p :: 0 <= p < |slots| ==> slots[p] < |entries|
      modifies this`terms
      ensures |terms| == |slots| && forall p :: 0 <= p < |slots| ==> terms[p] == entries[slots[p]]
    {
      terms := seq(|slots|, p requires 0 <= p < |slots| => entries[slots[p]]);
    }
  }

  lemma SharedEven(c: Chunk)
    requires Readable(c)
    ensures |c.bounds| % 2 == 0 && |c.text| <= I32_MAX
  {
  }

  // ----- rows

  /** A row: one value for each of `s`, `p`, `o`, `g`. */
  datatype Quad<+T> = Quad(s: T, p: T, o: T, g: T)

  function At<T>(row: Quad<T>, column: nat): (v: T)
    requires column < 4
  {
    if column == 0 then row.s else if column == 1 then row.p else if column == 2 then row.o else row.g
  }

  /** The values of rows position by position, four to a row. */
  function Positions<T>(rows: seq<Quad<T>>): (values: seq<T>)
    ensures |values| == 4 * |rows|
    ensures forall p :: 0 <= p < 4 * |rows| ==> values[p] == At(rows[p / 4], p % 4)
  {
    seq(4 * |rows|, p requires 0 <= p < 4 * |rows| => At(rows[p / 4], p % 4))
  }

  lemma PositionsOfPrefix<T>(rows: seq<Quad<T>>, n: nat)
    requires n <= |rows|
    ensures Positions(rows)[..4 * n] == Positions(rows[..n])
  {
    var (a, b) := (Positions(rows)[..4 * n], Positions(rows[..n]));
    forall p | 0 <= p < 4 * n
      ensures a[p] == b[p]
    {
      assert p / 4 < n;
    }
  }

  // ----- the pace

  /** The next pace: what fitted when some rows did not, a doubled one when half
      the budget was left, otherwise this one. */
  function Paced(rows: nat, offered: nat, held: nat, bytes: nat, chunkBytes: nat): (next: nat) {
    if held < offered then Max(held, 1)
    else if bytes <= chunkBytes / 2 then Min(rows * 2, U64_MAX)
    else rows
  }

  /** A pace that stays within its limits. */
  class Pace {
    const limits: Limits
    var rows: nat

    ghost predicate Valid()
      reads this
    {
      Sound(limits) && 1 <= rows <= limits.rows
    }

    constructor (limits: Limits)
      requires Sound(limits)
      ensures Valid() && this.limits == limits && rows == limits.rows
    {
      this.limits, rows := limits, limits.rows;
    }

    function Next(): (l: Limits)
      reads this
      requires Valid()
      ensures Sound(l) && l.rows == rows && l.chunkBytes == limits.chunkBytes && l.largeTerm == limits.largeTerm
    {
      limits.(rows := rows)
    }

    /** Sets the pace from how a chunk turned out. It falls only when some of
        the rows offered did not fit, and then to those that did. */
    method Learn(left: nat, held: nat, bytes: nat)
      requires Valid() && held <= Min(left, rows)
      modifies this
      ensures Valid()
      ensures held < Min(left, old(rows)) ==> rows == Max(held, 1) <= old(rows)
      ensures held == Min(left, old(rows)) ==> old(rows) <= rows <= 2 * old(rows)
      ensures held == Min(left, old(rows)) && bytes <= limits.chunkBytes / 2 ==> rows == Min(2 * old(rows), limits.rows)
    {
      var offered := Min(left, rows);
      rows := Min(Paced(rows, offered, held, bytes, limits.chunkBytes), limits.rows);
    }
  }
}
