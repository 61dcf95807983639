/** Cursors over upstream chunks, and the two streams that read through them.
    Rows taken and rows still to take are proved to add up to the match after
    every call, whatever upstream's chunks and errors. */
module Streams {
  import opened Base
  import opened Payloads
  import opened Encode
  import opened SharedRows
  import opened CodeRows

  /** What upstream yields: a chunk of rows, or an error in its place. */
  datatype Pulled<R> = Good(rows: seq<R>) | Bad

  function Flat<R>(chunks: seq<Pulled<R>>): (rows: seq<R>) {
    if chunks == [] then []
    else (if chunks[0].Good? then chunks[0].rows else []) + Flat(chunks[1..])
  }

  /** How many errors upstream still holds. */
  function Errors<R>(chunks: seq<Pulled<R>>): (n: nat) {
    if chunks == [] then 0 else (if chunks[0].Bad? then 1 else 0) + Errors(chunks[1..])
  }

  datatype Turn = Offered | Failed | Spent

  /** Rows to take: those of one chunk from row `at`, then those upstream. */
  class Cursor<R> {
    var chunks: Option<seq<Pulled<R>>>
    var chunk: Option<seq<R>>
    var at: nat

    predicate Valid()
      reads this
    {
      chunk.Some? ==> at <= |chunk.value|
    }

    /** The rows not taken yet. */
    ghost function Rest(): (rows: seq<R>)
      reads this
      requires Valid()
    {
      (if chunk.Some? then chunk.value[at..] else []) + (if chunks.Some? then Flat(chunks.value) else [])
    }

    ghost function Upstream(): (errors: nat)
      reads this
    {
      if chunks.Some? then Errors(chunks.value) else 0
    }

    /** It holds nothing more: not even what it pulled from. */
    predicate Released()
      reads this
    {
      chunks.None? && chunk.None?
    }

    constructor Pulling(chunks: seq<Pulled<R>>)
      ensures Valid() && Rest() == Flat(chunks)
    {
      this.chunks, chunk, at := Some(chunks), None, 0;
    }

    constructor Of(rows: seq<R>)
      ensures Valid() && Rest() == rows
    {
      chunks, chunk, at := None, Some(rows), 0;
    }

    /** Pulls until the current chunk has a row to take. A spent cursor stays
        spent, and an upstream error loses no row. */
    method Ready() returns (turn: Turn)
      requires Valid()
      modifies this
      ensures Valid() && Rest() == old(Rest())
      ensures turn.Offered? ==> chunk.Some? && at < |chunk.value|
      ensures (turn.Spent? <==> Released()) && (old(Released()) ==> turn.Spent?)
      ensures turn.Spent? ==> Rest() == []
      ensures Upstream() <= old(Upstream()) && (turn.Failed? ==> Upstream() < old(Upstream()))
    {
      while true
        invariant Valid() && Rest() == old(Rest())
        invariant Upstream() <= old(Upstream())
        invariant old(Released()) ==> Released()
        decreases if chunks.Some? then |chunks.value| else 0, if Released() then 0 else 1
      {
        if chunk.Some? && at < |chunk.value| {
          return Offered;
        }
        if chunks.None? || chunks.value == [] {
          chunks, chunk, at := None, None, 0;
          return Spent;
        }
        var pulled := chunks.value[0];
        chunks := Some(chunks.value[1..]);
        match pulled {
          case Bad => return Failed;
          case Good(rows) => chunk, at := Some(rows), 0;
        }
      }
    }

    /** Takes the next `rows` rows of the current chunk. */
    method Take(rows: nat)
      requires Valid() && chunk.Some? && at + rows <= |chunk.value|
      modifies this
      ensures Valid() && rows <= |old(Rest())| && Rest() == old(Rest())[rows..]
      ensures chunk == old(chunk) && at == old(at) + rows && chunks == old(chunks)
    {
      at := at + rows;
    }
  }

  /** A match's codes as bytes, on a machine whose byte order puts the low byte
      first, or last. */
  class CodeStream {
    const cursor: Cursor<Quad<u64>>
    const lowFirst: bool

    constructor (cursor: Cursor<Quad<u64>>, lowFirst: bool)
      ensures this.cursor == cursor && this.lowFirst == lowFirst
    {
      this.cursor, this.lowFirst := cursor, lowFirst;
    }

    /** Writes the bytes of the next rows, as many as `out` and the current
        chunk hold: at least one while any is left and `out` has room. `None`
        for an upstream error. */
    method Next(out: array<seq<byte>>) returns (r: Option<nat>)
      requires cursor.Valid()
      modifies cursor, out
      ensures cursor.Valid()
      ensures r.None? ==> cursor.Rest() == old(cursor.Rest()) && out[..] == old(out[..])
      ensures r.None? ==> cursor.Upstream() < old(cursor.Upstream())
      ensures r.Some? ==> r.value <= out.Length && r.value <= |old(cursor.Rest())|
      ensures r.Some? ==> out[..r.value] == AllBytes(old(cursor.Rest())[..r.value], lowFirst) && out[r.value..] == old(out[r.value..])
      ensures r.Some? ==> cursor.Rest() == old(cursor.Rest())[r.value..]
      ensures r.Some? ==> (r.value == 0 <==> out.Length == 0 || old(cursor.Rest()) == [])
    {
      hide RowBytes;
      if out.Length == 0 {
        return Some(0);
      }
      var turn := cursor.Ready();
      match turn
      case Failed => return None;
      case Spent => return Some(0);
      case Offered =>
        var rows := WriteRows(cursor.chunk.value, cursor.at, out, lowFirst);
        RestStarts(cursor, rows);
        cursor.Take(rows);
        return Some(rows);
    }

    /** A whole run, whatever each call's room: the rows whose bytes were
        written, in order, and those still to come are the match. It stops at an
        upstream error. */
    method Run(rooms: seq<nat>) returns (bytes: seq<seq<byte>>, ghost rows: seq<Quad<u64>>)
      requires cursor.Valid()
      modifies cursor
      ensures cursor.Valid() && bytes == AllBytes(rows, lowFirst) && rows + cursor.Rest() == old(cursor.Rest())
    {
      hide RowBytes;
      bytes, rows := [], [];
      for i := 0 to |rooms|
        invariant cursor.Valid() && bytes == AllBytes(rows, lowFirst) && rows + cursor.Rest() == old(cursor.Rest())
      {
        var out := new seq<byte>[rooms[i]](_ => []);
        ghost var rest := cursor.Rest();
        var written := Next(out);
        if written.None? {
          return;
        }
        Joined(rows, rest, written.value);
        BytesJoined(rows, rest[..written.value], lowFirst);
        bytes, rows := bytes + out[..written.value], rows + rest[..written.value];
      }
    }
  }

  lemma Joined<T>(done: seq<T>, rest: seq<T>, k: nat)
    requires k <= |rest|
    ensures done + rest[..k] + rest[k..] == done + rest
  {
    assert rest[..k] + rest[k..] == rest;
  }

  lemma BytesJoined(a: seq<Quad<u64>>, b: seq<Quad<u64>>, lowFirst: bool)
    ensures AllBytes(a + b, lowFirst) == AllBytes(a, lowFirst) + AllBytes(b, lowFirst)
  {
    hide RowBytes;
  }

  /** Fills `out` from the chunk's row `from` on, or as far as the chunk goes. */
  method WriteRows(chunk: seq<Quad<u64>>, from: nat, out: array<seq<byte>>, lowFirst: bool) returns (rows: nat)
    requires from <= |chunk|
    modifies out
    ensures rows == Min(out.Length, |chunk| - from)
    ensures out[..rows] == AllBytes(chunk[from..from + rows], lowFirst) && out[rows..] == old(out[rows..])
  {
    hide RowBytes;
    rows := Min(out.Length, |chunk| - from);
    for row := 0 to rows
      invariant out[..row] == AllBytes(chunk[from..from + row], lowFirst) && out[rows..] == old(out[rows..])
    {
      out[row] := RowBytes(chunk[from + row], lowFirst);
    }
  }

  lemma RestStarts<R>(cursor: Cursor<R>, rows: nat)
    requires cursor.Valid() && cursor.chunk.Some? && cursor.at + rows <= |cursor.chunk.value|
    ensures rows <= |cursor.Rest()|
    ensures cursor.Rest()[..rows] == cursor.chunk.value[cursor.at..][..rows] == cursor.chunk.value[cursor.at..cursor.at + rows]
  {
  }

  // ----- terms

  /** Where terms come from: codes and their dictionary, or spelled terms. */
  datatype Source =
    | Codes(reader: Reader, codes: Cursor<Quad<nat>>)
    | Spelled(quads: Cursor<Quad<Term>>)

  datatype Next = Sent(payload: Payload) | End | Failure

  /** What each position of some rows of codes spells. */
  ghost function CodeTexts(dict: Dict, rows: seq<Quad<nat>>): (texts: seq<Option<Text>>)
    ensures |texts| == 4 * |rows|
  {
    var codes := Positions(rows);
    seq(|codes|, p requires 0 <= p < |codes| => Lookup(dict, codes[p]))
  }

  ghost function TermTexts(rows: seq<Quad<Term>>): (texts: seq<Option<Text>>)
    ensures |texts| == 4 * |rows|
  {
    var terms := Positions(rows);
    seq(|terms|, p requires 0 <= p < |terms| => Some(terms[p].text))
  }

  /** What a chunk's positions spell. */
  ghost predicate Reads(c: Chunk, texts: seq<Option<Text>>) {
    Readable(c) && |c.terms| == |texts| && forall p :: 0 <= p < |texts| ==> Spells(c, c.terms[p], texts[p])
  }

  /** Taking rows takes their positions. */
  lemma CodeTextsTaken(dict: Dict, rows: seq<Quad<nat>>, held: nat)
    requires held <= |rows|
    ensures CodeTexts(dict, rows)[..4 * held] == CodeTexts(dict, rows[..held])
    ensures CodeTexts(dict, rows)[4 * held..] == CodeTexts(dict, rows[held..])
  {
    hide Positions;
    PositionsOfPrefix(rows, held);
    PositionsAfter(rows, held);
    var (codes, texts) := (Positions(rows), CodeTexts(dict, rows));
    var (first, rest) := (CodeTexts(dict, rows[..held]), CodeTexts(dict, rows[held..]));
    assert forall p :: 0 <= p < 4 * held ==> first[p] == Lookup(dict, codes[..4 * held][p]) == texts[p];
    forall p | 4 * held <= p < |codes|
      ensures rest[p - 4 * held] == texts[p]
    {
      assert codes[4 * held..][p - 4 * held] == codes[p];
    }
  }

  lemma TermTextsTaken(rows: seq<Quad<Term>>, held: nat)
    requires held <= |rows|
    ensures TermTexts(rows)[..4 * held] == TermTexts(rows[..held])
    ensures TermTexts(rows)[4 * held..] == TermTexts(rows[held..])
  {
    hide Positions;
    PositionsOfPrefix(rows, held);
    PositionsAfter(rows, held);
    var (terms, texts) := (Positions(rows), TermTexts(rows));
    var (first, rest) := (TermTexts(rows[..held]), TermTexts(rows[held..]));
    assert forall p :: 0 <= p < 4 * held ==> first[p] == Some(terms[..4 * held][p].text) == texts[p];
    forall p | 4 * held <= p < |terms|
      ensures rest[p - 4 * held] == texts[p]
    {
      assert terms[4 * held..][p - 4 * held] == terms[p];
    }
  }

  lemma CodesRead(dict: Dict, rows: seq<Quad<nat>>, c: Chunk)
    requires Carries(dict, Positions(rows), c)
    ensures Reads(c, CodeTexts(dict, rows))
  {
    hide Spells, Readable, Positions;
  }

  lemma TermsRead(rows: seq<Quad<Term>>, c: Chunk)
    requires SpellsTerms(Positions(rows), c)
    ensures Reads(c, TermTexts(rows))
  {
    hide Spells, Readable, Positions;
  }

  /** What one payload takes of the terms pending: whole rows, at least one and
      at most the pace's, the first of them; within the budget, but for the
      large terms of a single row. */
  ghost predicate Sends(c: Chunk, limits: Limits, was: seq<Option<Text>>, now: seq<Option<Text>>) {
    && 0 < |c.terms| <= |was| && |c.terms| % 4 == 0 && |c.terms| <= 4 * limits.rows
    && Reads(c, was[..|c.terms|]) && now == was[|c.terms|..]
    && |c.text| <= limits.chunkBytes
    && (ByteCount(c) > limits.chunkBytes ==> |c.terms| == 4)
  }

  lemma PositionsAfter<T>(rows: seq<Quad<T>>, n: nat)
    requires n <= |rows|
    ensures Positions(rows)[4 * n..] == Positions(rows[n..])
  {
    var (a, b) := (Positions(rows)[4 * n..], Positions(rows[n..]));
    forall p | 0 <= p < 4 * (|rows| - n)
      ensures a[p] == b[p]
    {
      assert (p + 4 * n) / 4 == p / 4 + n && (p + 4 * n) % 4 == p % 4;
    }
  }

  /** Some row has a code no term is known for. */
  ghost predicate HoldsForeign(dict: Dict, rows: seq<Quad<nat>>) {
    exists p :: 0 <= p < 4 * |rows| && Positions(rows)[p] !in dict
  }

  lemma ForeignInAll(dict: Dict, all: seq<Quad<nat>>, part: seq<Quad<nat>>)
    requires part <= all
    ensures HoldsForeign(dict, part) ==> HoldsForeign(dict, all)
  {
    PositionsOfPrefix(all, |part|);
    assert all[..|part|] == part;
    forall p | 0 <= p < 4 * |part|
      ensures Positions(all)[p] == Positions(part)[p]
    {
      assert Positions(all)[..4 * |part|][p] == Positions(all)[p];
    }
  }

  lemma CutBound(dict: Dict, codes: seq<nat>, limits: Limits, rows: nat, c: Chunk)
    requires Cut(dict, codes, 4, limits, rows, c)
    ensures |c.text| <= limits.chunkBytes && (ByteCount(c) > limits.chunkBytes ==> rows == 1)
  {
  }

  lemma ReadsCount(c: Chunk, texts: seq<Option<Text>>)
    requires Reads(c, texts)
    ensures |c.terms| == |texts|
  {
  }

  /** The current chunk's rows are the first of those not taken. */
  lemma HeapOfPart(all: seq<Quad<Term>>, part: seq<Quad<Term>>, heap: map<nat, Text>)
    requires InHeap(all, heap) && part <= all
    ensures InHeap(part, heap)
  {
    PositionsOfPrefix(all, |part|);
    assert all[..|part|] == part;
    assert forall p :: 0 <= p < 4 * |part| ==> Positions(all)[..4 * |part|][p] == Positions(all)[p];
  }

  lemma HeapOfRest(all: seq<Quad<Term>>, held: nat, heap: map<nat, Text>)
    requires InHeap(all, heap) && held <= |all|
    ensures InHeap(all[held..], heap)
  {
    hide Positions;
    PositionsAfter(all, held);
    var (whole, rest) := (Positions(all), Positions(all[held..]));
    forall p | 0 <= p < |rest|
      ensures TermIn(rest[p], heap)
    {
      assert rest[p] == whole[4 * held..][p] == whole[4 * held + p];
    }
  }

  class TermStream {
    const source: Source
    const pace: Pace
    ghost const heap: map<nat, Text>

    ghost predicate Valid()
      reads this, pace, if source.Codes? then {source.codes} else {}, if source.Spelled? then {source.quads} else {}
    {
      && pace.Valid()
      && (source.Codes? ==> VisitsEach(source.reader) && source.codes.Valid())
      && (source.Spelled? ==> source.quads.Valid() && InHeap(source.quads.Rest(), heap))
    }

    /** The terms still to send, position by position. */
    ghost function Pending(): (texts: seq<Option<Text>>)
      reads this, pace, if source.Codes? then {source.codes} else {}, if source.Spelled? then {source.quads} else {}
      requires Valid()
    {
      match source
      case Codes(reader, codes) => CodeTexts(reader.terms, codes.Rest())
      case Spelled(quads) => TermTexts(quads.Rest())
    }

    ghost function Upstream(): (errors: nat)
      reads this, if source.Codes? then {source.codes} else {}, if source.Spelled? then {source.quads} else {}
    {
      match source
      case Codes(_, codes) => codes.Upstream()
      case Spelled(quads) => quads.Upstream()
    }

    /** A dictionary that may not be read, or has no term for a code to send. */
    ghost predicate Unanswerable()
      reads this, if source.Codes? then {source.codes} else {}
      requires source.Codes? ==> source.codes.Valid()
    {
      source.Codes? && (!source.reader.readable || HoldsForeign(source.reader.terms, source.codes.Rest()))
    }

    constructor (source: Source, limits: Limits, ghost heap: map<nat, Text>)
      requires Payloads.Sound(limits)
      requires source.Codes? ==> VisitsEach(source.reader) && source.codes.Valid()
      requires source.Spelled? ==> source.quads.Valid() && InHeap(source.quads.Rest(), heap)
      ensures Valid() && this.source == source && pace.limits == limits && fresh(pace)
    {
      this.source, this.heap := source, heap;
      pace := new Pace(limits);
    }

    /** The next payload: what it spells is the first of what was pending. A
        failure sends nothing and loses nothing; at the end nothing is pending. */
    method NextPayload() returns (r: Next)
      requires Valid()
      modifies pace, if source.Codes? then {source.codes} else {}, if source.Spelled? then {source.quads} else {}
      ensures Valid()
      ensures r.Sent? ==> fresh(r.payload) && Sends(r.payload.Packed(), old(pace.limits.(rows := pace.rows)), old(Pending()), Pending())
      ensures !r.Sent? ==> Pending() == old(Pending()) && pace.rows == old(pace.rows)
      ensures r.End? ==> Pending() == []
      ensures r.Failure? ==> Upstream() < old(Upstream()) || Unanswerable()
    {
      match source
      case Codes(reader, codes) => r := NextOfCodes(reader, codes, pace);
      case Spelled(quads) => r := NextOfTerms(quads, pace, heap);
    }

    /** The texts of the next payload, as its reader spells them. */
    method NextTexts() returns (r: Next, texts: seq<Option<Text>>)
      requires Valid()
      modifies pace, if source.Codes? then {source.codes} else {}, if source.Spelled? then {source.quads} else {}
      ensures Valid() && old(Pending()) == texts + Pending()
      ensures r.Sent? ==> |texts| >= 4
      ensures !r.Sent? ==> texts == []
      ensures r.End? ==> Pending() == []
    {
      hide TermStream.Valid, TermStream.Pending, Sends, Reads, Readable, Spells, Spellable;
      ghost var (pending, limits) := (Pending(), pace.limits.(rows := pace.rows));
      texts := [];
      r := NextPayload();
      if r.Sent? {
        SendsWhole(r.payload.Packed(), limits, pending, Pending());
        texts := Spell(r.payload);
        ReadsAre(r.payload.Packed(), pending[..|r.payload.terms|], texts);
      }
    }

    /** A whole run: the terms sent, then those pending, are the match's, each
        once and in order, however many calls are made; it stops at a failure
        or at the end. */
    method Run(calls: nat) returns (texts: seq<Option<Text>>, last: Next)
      requires Valid()
      modifies pace, if source.Codes? then {source.codes} else {}, if source.Spelled? then {source.quads} else {}
      ensures Valid() && texts + Pending() == old(Pending())
      ensures last.End? ==> texts == old(Pending())
      ensures last.Sent? ==> |texts| >= 4 * calls
    {
      hide TermStream.Valid, TermStream.Pending;
      texts, last := [], Failure;
      ghost var (all, left) := (Pending(), Pending());
      for i := 0 to calls
        invariant Valid() && left == Pending() && texts + left == all
        invariant if i > 0 then last.Sent? else last.Failure?
        invariant |texts| >= 4 * i
      {
        var more;
        last, more := NextTexts();
        assert texts + (more + Pending()) == texts + more + Pending();
        texts, left := texts + more, Pending();
        if !last.Sent? {
          assert last.End? ==> texts + left == texts;
          return;
        }
      }
    }
  }

  lemma SendsWhole(c: Chunk, limits: Limits, was: seq<Option<Text>>, now: seq<Option<Text>>)
    requires Sends(c, limits, was, now)
    ensures 4 <= |c.terms| <= |was| && now == was[|c.terms|..]
    ensures Reads(c, was[..|c.terms|]) && Spellable(c)
  {
    assert Spells(c, c.terms[0], was[..|c.terms|][0]);
    forall p | 0 <= p < |c.terms|
      ensures c.terms[p] == NONE || Names(c, c.terms[p])
    {
      assert Spells(c, c.terms[p], was[..|c.terms|][p]);
    }
  }

  ghost predicate Spellable(c: Chunk) {
    Readable(c) && forall p :: 0 <= p < |c.terms| ==> c.terms[p] == NONE || Names(c, c.terms[p])
  }

  /** What the other side reads off a payload: each position's term. */
  method Spell(payload: Payload) returns (texts: seq<Option<Text>>)
    requires Spellable(payload.Packed())
    ensures |texts| == |payload.terms|
    ensures forall p :: 0 <= p < |texts| ==> Spells(payload.Packed(), payload.terms[p], texts[p])
  {
    var c := payload.Packed();
    texts := seq(|c.terms|, p requires 0 <= p < |c.terms| => Payloads.Spelled(c, c.terms[p]));
  }

  lemma ReadsAre(c: Chunk, texts: seq<Option<Text>>, spelled: seq<Option<Text>>)
    requires Reads(c, texts) && |spelled| == |c.terms|
    requires forall p :: 0 <= p < |spelled| ==> Spells(c, c.terms[p], spelled[p])
    ensures spelled == texts
  {
    forall p | 0 <= p < |texts|
      ensures spelled[p] == texts[p]
    {
      assert Spells(c, c.terms[p], texts[p]);
    }
  }

  method NextOfCodes(reader: Reader, codes: Cursor<Quad<nat>>, pace: Pace) returns (r: Next)
    requires VisitsEach(reader) && codes.Valid() && pace.Valid()
    modifies codes, pace
    ensures codes.Valid() && pace.Valid()
    ensures r.Sent? ==> fresh(r.payload) && Sends(r.payload.Packed(), old(pace.Next()), CodeTexts(reader.terms, old(codes.Rest())),
                                                  CodeTexts(reader.terms, codes.Rest()))
    ensures !r.Sent? ==> codes.Rest() == old(codes.Rest()) && pace.rows == old(pace.rows)
    ensures r.Failure? ==> codes.Upstream() < old(codes.Upstream()) || !reader.readable || HoldsForeign(reader.terms, codes.Rest())
    ensures r.End? ==> codes.Rest() == []
  {
    hide CodeTexts, Sends, VisitsEach, HoldsForeign;
    var turn := codes.Ready();
    match turn
    case Failed => return Failure;
    case Spent => return End;
    case Offered => r := SendCodes(reader, codes, pace);
  }

  /** The next payload of a cursor with a row to take. */
  method SendCodes(reader: Reader, codes: Cursor<Quad<nat>>, pace: Pace) returns (r: Next)
    requires VisitsEach(reader) && codes.Valid() && pace.Valid() && codes.chunk.Some? && codes.at < |codes.chunk.value|
    modifies codes, pace
    ensures codes.Valid() && pace.Valid() && !r.End?
    ensures r.Sent? ==> fresh(r.payload) && Sends(r.payload.Packed(), old(pace.Next()), CodeTexts(reader.terms, old(codes.Rest())),
                                                  CodeTexts(reader.terms, codes.Rest()))
    ensures !r.Sent? ==> codes.Rest() == old(codes.Rest()) && pace.rows == old(pace.rows)
    ensures r.Failure? ==> !reader.readable || HoldsForeign(reader.terms, codes.Rest())
  {
    hide Positions, CodeTexts, Cut, Carries, Reads, ByteCount, VisitsEach, Flat, Errors, RowsKept;
    var limits := pace.Next();
    var rest := codes.chunk.value[codes.at..];
    ghost var all := codes.Rest();
    var sent := EncodeCodes(reader, rest, limits);
    if !sent.Sent? {
      ForeignInAll(reader.terms, all, rest);
      return Failure;
    }
    var (payload, held) := (sent.payload, sent.held);
    CutBound(reader.terms, Positions(rest[..Min(|rest|, limits.rows)]), limits, held, payload.Packed());
    pace.Learn(|rest|, held, ByteCount(payload.Packed()));
    RestStarts(codes, held);
    assert all[..held] == rest[..held];
    codes.Take(held);
    CodesRead(reader.terms, all[..held], payload.Packed());
    CodeTextsTaken(reader.terms, all, held);
    ReadsCount(payload.Packed(), CodeTexts(reader.terms, all[..held]));
    return Next.Sent(payload);
  }

  method NextOfTerms(quads: Cursor<Quad<Term>>, pace: Pace, ghost heap: map<nat, Text>) returns (r: Next)
    requires quads.Valid() && pace.Valid() && InHeap(quads.Rest(), heap)
    modifies quads, pace
    ensures quads.Valid() && pace.Valid() && InHeap(quads.Rest(), heap)
    ensures r.Sent? ==> fresh(r.payload) && Sends(r.payload.Packed(), old(pace.Next()), TermTexts(old(quads.Rest())), TermTexts(quads.Rest()))
    ensures !r.Sent? ==> quads.Rest() == old(quads.Rest()) && pace.rows == old(pace.rows)
    ensures r.Failure? ==> quads.Upstream() < old(quads.Upstream())
    ensures r.End? ==> quads.Rest() == []
  {
    hide TermTexts, Sends, InHeap;
    var turn := quads.Ready();
    match turn
    case Failed => return Failure;
    case Spent => return End;
    case Offered =>
      var payload := SendTerms(quads, pace, heap);
      return Next.Sent(payload);
  }

  /** The next payload of a cursor with a row to take. */
  method SendTerms(quads: Cursor<Quad<Term>>, pace: Pace, ghost heap: map<nat, Text>) returns (payload: Payload)
    requires quads.Valid() && pace.Valid() && InHeap(quads.Rest(), heap)
    requires quads.chunk.Some? && quads.at < |quads.chunk.value|
    modifies quads, pace
    ensures quads.Valid() && pace.Valid() && InHeap(quads.Rest(), heap)
    ensures fresh(payload) && Sends(payload.Packed(), old(pace.Next()), TermTexts(old(quads.Rest())), TermTexts(quads.Rest()))
  {
    hide Positions, TermTexts, SpellsTerms, Reads, ByteCount, InHeap, NewBytes, SharedAddresses, SentBytes, NewOf, Flat, Errors;
    var limits := pace.Next();
    var rest := quads.chunk.value[quads.at..];
    ghost var all := quads.Rest();
    HeapOfPart(all, rest, heap);
    var held;
    payload, held := EncodeShared(rest, limits, heap);
    pace.Learn(|rest|, held, ByteCount(payload.Packed()));
    RestStarts(quads, held);
    assert all[..held] == rest[..held];
    quads.Take(held);
    HeapOfRest(all, held, heap);
    TermsRead(all[..held], payload.Packed());
    TermTextsTaken(all, held);
    ReadsCount(payload.Packed(), TermTexts(all[..held]));
  }
}
