/** Quads flattened into one length-prefixed buffer, and decoded from it by a
    linear cursor. */
module PackQuads {
  import opened Base
  import opened TermParts

  const U32: nat := 0x1_0000_0000

  function Le32(v: nat): (bytes: seq<byte>)
    ensures |bytes| == 4
  {
    [v % 256, v / 256 % 256, v / 65536 % 256, v / 16777216 % 256]
  }

  function FromLe32(b: seq<byte>): (v: nat)
    requires |b| == 4
    ensures v < U32
  {
    var (b0: int, b1: int, b2: int, b3: int) := (b[0], b[1], b[2], b[3]);
    b0 + 256 * b1 + 65536 * b2 + 16777216 * b3
  }

  lemma Le32RoundTrip(v: nat)
    requires v < U32
    ensures FromLe32(Le32(v)) == v
  {
    assert v / 65536 == v / 256 / 256 && v / 16777216 == v / 65536 / 256;
  }

  // ----- the format

  function Lengthed(s: seq<byte>): (bytes: seq<byte>) { Le32(|s|) + s }

  function Tagged(p: Parts): (bytes: seq<byte>) {
    [p.kind] + (if HasValue(p.kind) then Lengthed(p.value) else []) + (if HasExtra(p.kind) then Lengthed(p.extra) else [])
  }

  function TaggedQuad(q: QuadParts): (bytes: seq<byte>) { Tagged(q.s) + Tagged(q.p) + Tagged(q.o) + Tagged(q.g) }

  function TaggedQuads(quads: seq<QuadParts>): (bytes: seq<byte>) {
    if quads == [] then [] else TaggedQuads(quads[..|quads| - 1]) + TaggedQuad(quads[|quads| - 1])
  }

  function Packed(quads: seq<QuadParts>): (bytes: seq<byte>) { Le32(|quads|) + TaggedQuads(quads) }

  // ----- the writer

  class Packer {
    var buf: array<byte>
    var pos: nat

    ghost predicate Valid()
      reads this
    {
      pos <= buf.Length && buf.Length > 0
    }

    /** What was written. */
    ghost function Contents(): (bytes: seq<byte>)
      reads this, buf
      requires Valid()
    {
      buf[..pos]
    }

    constructor ()
      ensures Valid() && Contents() == [] && fresh(buf)
    {
      buf := new byte[0x1_0000](_ => 0);
      pos := 0;
    }

    /** Makes room for `n` bytes, in a buffer of twice the size as often as it
        takes; what was written is kept. */
    method Ensure(n: nat)
      requires Valid()
      modifies this`buf
      ensures Valid() && Contents() == old(Contents()) && pos + n <= buf.Length
      ensures buf == old(buf) || fresh(buf)
    {
      if pos + n <= buf.Length {
        return;
      }
      var cap := buf.Length * 2;
      while cap < pos + n
        invariant cap > 0
        decreases pos + n - cap
      {
        cap := cap * 2;
      }
      var (was, written) := (buf, pos);
      var larger := new byte[cap](_ => 0);
      for i := 0 to written
        invariant buf == was && larger[..i] == was[..i]
      {
        larger[i] := was[i];
      }
      buf := larger;
    }

    /** Sets bytes there is room for, elsewhere than the position. */
    method Set(at: nat, bytes: seq<byte>)
      requires at + |bytes| <= buf.Length
      modifies buf
      ensures buf[at..at + |bytes|] == bytes
      ensures forall k :: 0 <= k < buf.Length && !(at <= k < at + |bytes|) ==> buf[k] == old(buf[k])
    {
      for i := 0 to |bytes|
        invariant forall k :: 0 <= k < buf.Length ==> buf[k] == if at <= k < at + i then bytes[k - at] else old(buf[k])
      {
        buf[at + i] := bytes[i];
      }
    }

    /** Writes bytes there is room for. */
    method Write(bytes: seq<byte>)
      requires Valid() && pos + |bytes| <= buf.Length
      modifies this`pos, buf
      ensures Valid() && Contents() == old(Contents()) + bytes && buf == old(buf)
    {
      Set(pos, bytes);
      Joined(old(buf[..pos]), bytes, buf[..], pos);
      pos := pos + |bytes|;
    }

    lemma Joined(before: seq<byte>, bytes: seq<byte>, now: seq<byte>, at: nat)
      requires |before| == at && at + |bytes| <= |now|
      requires now[..at] == before && now[at..at + |bytes|] == bytes
      ensures now[..at + |bytes|] == before + bytes
    {
      assert now[..at + |bytes|] == now[..at] + now[at..at + |bytes|];
    }

    method PutTag(tag: byte)
      requires Valid()
      modifies this, buf
      ensures Valid() && Contents() == old(Contents()) + [tag] && (buf == old(buf) || fresh(buf))
    {
      Ensure(1);
      Write([tag]);
    }

    method PutU32(v: nat)
      requires Valid()
      modifies this, buf
      ensures Valid() && Contents() == old(Contents()) + Le32(v) && (buf == old(buf) || fresh(buf))
    {
      Ensure(4);
      Write(Le32(v));
    }

    /** A string: its bytes are encoded past a gap for their length, which is
        known only then. */
    method PutString(s: JsString)
      requires Valid() && Encodes(s)
      modifies this, buf
      ensures Valid() && Contents() == old(Contents()) + Lengthed(s.utf8) && (buf == old(buf) || fresh(buf))
    {
      hide Le32;
      Ensure(4 + s.units * 3);
      ghost var before := buf[..pos];
      Set(pos + 4, s.utf8);
      ghost var coded := buf[..];
      Set(pos, Le32(|s.utf8|));
      GapFilled(before, Le32(|s.utf8|), s.utf8, coded, buf[..], pos);
      pos := pos + 4 + |s.utf8|;
    }

    lemma GapFilled(before: seq<byte>, len: seq<byte>, text: seq<byte>, coded: seq<byte>, now: seq<byte>, at: nat)
      requires |before| == at && |len| == 4 && at + 4 + |text| <= |now| == |coded|
      requires coded[..at] == before && coded[at + 4..at + 4 + |text|] == text
      requires now[at..at + 4] == len && forall k :: 0 <= k < |now| && !(at <= k < at + 4) ==> now[k] == coded[k]
      ensures now[..at + 4 + |text|] == before + (len + text)
    {
      assert now[..at] == coded[..at] && now[at + 4..at + 4 + |text|] == coded[at + 4..at + 4 + |text|];
      assert now[..at + 4 + |text|] == now[..at] + now[at..at + 4] + now[at + 4..at + 4 + |text|];
    }

    /** A value that should be a string: nothing is promised of the buffer when
        it is none. */
    method PutText(v: JsValue) returns (ok: bool)
      requires Valid() && ValueEncodes(v)
      modifies this, buf
      ensures Valid() && (buf == old(buf) || fresh(buf)) && ok == v.Text?
      ensures ok ==> Contents() == old(Contents()) + Lengthed(v.s.utf8)
    {
      ok := v.Text?;
      if ok {
        PutString(v.s);
      }
    }

    /** A term. It is accepted exactly when reading its object gives parts, and
        then its tag and those parts are what is written. */
    method PutTerm(t: JsTerm) returns (ok: bool)
      requires Valid() && TermEncodes(t)
      modifies this, buf
      ensures Valid() && (buf == old(buf) || fresh(buf)) && ok == PartsOf(t).Some?
      ensures ok ==> Contents() == old(Contents()) + Tagged(PartsOf(t).value)
    {
      hide Lengthed;
      if t.Missing? || t.typeName.IsDefaultGraph? {
        PutTag(DEFAULT_GRAPH);
        return true;
      }
      match t.typeName {
        case IsNamedNode =>
          PutTag(NAMED_NODE);
          ok := PutText(t.value);
        case IsBlankNode =>
          PutTag(BLANK_NODE);
          ok := PutText(t.value);
        case IsLiteral =>
          ok := PutLiteral(t);
        case Unknown =>
          return false;
        case IsDefaultGraph =>
          assert false;
      }
    }

    method PutLiteral(t: JsTerm) returns (ok: bool)
      requires Valid() && TermEncodes(t) && t.Term?
      modifies this, buf
      ensures Valid() && (buf == old(buf) || fresh(buf)) && ok == LiteralParts(t).Some?
      ensures ok ==> Contents() == old(Contents()) + Tagged(LiteralParts(t).value)
    {
      hide Lengthed;
      if IsTruthy(t.language) {
        ok := PutTwo(LANG_LITERAL, t.value, t.language);
        return;
      }
      if t.dt.Bare? {
        return false;
      }
      if t.dt.Object? && IsTruthy(t.dt.value) {
        ok := PutTwo(TYPED_LITERAL, t.value, t.dt.value);
      } else {
        PutTag(SIMPLE_LITERAL);
        ok := PutText(t.value);
      }
    }

    method PutTwo(tag: byte, value: JsValue, extra: JsValue) returns (ok: bool)
      requires Valid() && ValueEncodes(value) && ValueEncodes(extra)
      modifies this, buf
      ensures Valid() && (buf == old(buf) || fresh(buf)) && ok == (value.Text? && extra.Text?)
      ensures ok ==> Contents() == old(Contents()) + ([tag] + Lengthed(value.s.utf8) + Lengthed(extra.s.utf8))
    {
      hide Lengthed;
      PutTag(tag);
      ok := PutText(value);
      if ok {
        ok := PutText(extra);
      }
    }

    method PutQuad(q: JsQuad) returns (ok: bool)
      requires Valid() && QuadEncodes(q)
      modifies this, buf
      ensures Valid() && (buf == old(buf) || fresh(buf)) && ok == QuadPartsOf(q).Some?
      ensures ok ==> Contents() == old(Contents()) + TaggedQuad(QuadPartsOf(q).value)
    {
      hide Tagged, PartsOf;
      if q.NoQuad? {
        return false;
      }
      ok := PutTerm(q.s);
      if ok {
        ok := PutTerm(q.p);
      }
      if ok {
        ok := PutTerm(q.o);
      }
      if ok {
        ok := PutTerm(q.g);
      }
    }
  }

  // ----- packing a range

  /** The first quad of a range that is no quad. */
  ghost predicate FirstMalformed(quads: seq<JsQuad>, start: nat, end: nat, i: nat) {
    start <= i < end <= |quads| && QuadPartsOf(quads[i]).None? && forall j :: start <= j < i ==> QuadPartsOf(quads[j]).Some?
  }

  /** The parts of a range of quads. */
  ghost predicate RangeParts(quads: seq<JsQuad>, start: nat, end: nat, parts: seq<QuadParts>) {
    && start <= end <= |quads| && |parts| == end - start
    && forall i :: start <= i < end ==> QuadPartsOf(quads[i]) == Some(parts[i - start])
  }

  datatype Pack = Bytes(bytes: seq<byte>) | Malformed(index: nat)

  /** A range's quads as one buffer, or the index of the first that is none. */
  method PackRange(quads: seq<JsQuad>, start: nat, end: nat) returns (r: Pack, ghost parts: seq<QuadParts>)
    requires start <= end <= |quads| && forall i :: start <= i < end ==> QuadEncodes(quads[i])
    ensures r.Malformed? ==> FirstMalformed(quads, start, end, r.index)
    ensures r.Bytes? ==> RangeParts(quads, start, end, parts) && r.bytes == Packed(parts)
  {
    hide TaggedQuad, Le32, QuadPartsOf;
    var packer := new Packer();
    packer.PutU32(end - start);
    parts := [];
    assert packer.Contents() == Le32(end - start) + TaggedQuads([]);
    for i := start to end
      invariant packer.Valid() && fresh(packer) && fresh(packer.buf)
      invariant |parts| == i - start && forall j :: start <= j < i ==> QuadPartsOf(quads[j]) == Some(parts[j - start])
      invariant packer.Contents() == Le32(end - start) + TaggedQuads(parts)
    {
      var ok := packer.PutQuad(quads[i]);
      if !ok {
        return Malformed(i), [];
      }
      TaggedOneMore(parts, QuadPartsOf(quads[i]).value);
      parts := parts + [QuadPartsOf(quads[i]).value];
    }
    r := Bytes(packer.buf[..packer.pos]);
  }

  lemma TaggedOneMore(quads: seq<QuadParts>, q: QuadParts)
    ensures TaggedQuads(quads + [q]) == TaggedQuads(quads) + TaggedQuad(q)
  {
    assert (quads + [q])[..|quads|] == quads;
  }

  // ----- the cursor

  /** What a read finds at a position: a value and where it ends, or why not. */
  datatype Found<T> = At(value: T, end: nat) | Truncated | BadText

  function FindBytes(bytes: seq<byte>, at: nat, len: nat): (r: Found<seq<byte>>) {
    if at + len <= |bytes| then At(bytes[at..at + len], at + len) else Truncated
  }

  function FindU32(bytes: seq<byte>, at: nat): (r: Found<nat>) {
    match FindBytes(bytes, at, 4)
    case At(b, end) => At(FromLe32(b), end)
    case _ => Truncated
  }

  function FindText(bytes: seq<byte>, at: nat, grammar: Grammar): (r: Found<seq<byte>>) {
    match FindU32(bytes, at)
    case At(len, end) =>
      var text := FindBytes(bytes, end, len);
      if text.At? && !grammar.utf8(text.value) then BadText else text
    case _ => Truncated
  }

  /** The parts of the term at a position, if its tag is one of the six. */
  function FindTerm(bytes: seq<byte>, at: nat, grammar: Grammar): (r: Found<Option<Parts>>) {
    if at >= |bytes| then Truncated
    else if bytes[at] > 5 then At(None, at + 1)
    else
      var kind := bytes[at];
      var value := if HasValue(kind) then FindText(bytes, at + 1, grammar) else At([], at + 1);
      if !value.At? then if value.BadText? then BadText else Truncated
      else
        var extra := if HasExtra(kind) then FindText(bytes, value.end, grammar) else At([], value.end);
        if !extra.At? then if extra.BadText? then BadText else Truncated
        else At(Some(Parts(kind, value.value, extra.value)), extra.end)
  }

  /** A string is found where it was written, whatever is around it. */
  lemma TextIsFound(before: seq<byte>, s: seq<byte>, after: seq<byte>, grammar: Grammar)
    requires |s| < U32 && grammar.utf8(s)
    ensures FindText(before + Lengthed(s) + after, |before|, grammar) == At(s, |before| + |Lengthed(s)|)
  {
    hide Le32, FromLe32;
    var bytes := before + Lengthed(s) + after;
    Le32RoundTrip(|s|);
    assert bytes[|before|..|before| + 4] == Le32(|s|);
    assert bytes[|before| + 4..|before| + 4 + |s|] == s;
  }

  ghost predicate Readable(p: Parts, grammar: Grammar) {
    Proper(p) && (HasValue(p.kind) ==> grammar.utf8(p.value)) && (HasExtra(p.kind) ==> grammar.utf8(p.extra))
  }

  /** A term is found where it was written, whatever is around it. */
  lemma TermIsFound(before: seq<byte>, p: Parts, after: seq<byte>, grammar: Grammar)
    requires Readable(p, grammar)
    ensures FindTerm(before + Tagged(p) + after, |before|, grammar) == At(Some(p), |before| + |Tagged(p)|)
  {
    hide Lengthed, FindText;
    var bytes := before + Tagged(p) + after;
    var value := if HasValue(p.kind) then Lengthed(p.value) else [];
    var extra := if HasExtra(p.kind) then Lengthed(p.extra) else [];
    assert bytes[|before|] == p.kind;
    if HasValue(p.kind) {
      TextIsFound(before + [p.kind], p.value, extra + after, grammar);
      assert bytes == before + [p.kind] + Lengthed(p.value) + (extra + after);
    }
    if HasExtra(p.kind) {
      TextIsFound(before + [p.kind] + value, p.extra, after, grammar);
      assert bytes == before + [p.kind] + value + Lengthed(p.extra) + after;
    }
  }

  class Cursor {
    const bytes: seq<byte>
    const grammar: Grammar
    var pos: nat

    constructor (bytes: seq<byte>, grammar: Grammar)
      ensures this.bytes == bytes && this.grammar == grammar && pos == 0
    {
      this.bytes, this.grammar, pos := bytes, grammar, 0;
    }

    method Take(len: nat) returns (r: Found<seq<byte>>)
      modifies this
      ensures r == FindBytes(bytes, old(pos), len) && pos == if r.At? then r.end else old(pos)
    {
      var end := pos + len;
      if end > |bytes| {
        return Truncated;
      }
      r := At(bytes[pos..end], end);
      pos := end;
    }

    method TakeU32() returns (r: Found<nat>)
      modifies this
      ensures r == FindU32(bytes, old(pos)) && (r.At? ==> pos == r.end)
    {
      var b := Take(4);
      r := if b.At? then At(FromLe32(b.value), b.end) else Truncated;
    }

    method TakeText() returns (r: Found<seq<byte>>)
      modifies this
      ensures r == FindText(bytes, old(pos), grammar) && (r.At? ==> pos == r.end)
    {
      var len := TakeU32();
      if !len.At? {
        return Truncated;
      }
      r := Take(len.value);
      if r.At? && !grammar.utf8(r.value) {
        r := BadText;
      }
    }

    method TakeTerm() returns (r: Found<Option<Parts>>)
      modifies this
      ensures r == FindTerm(bytes, old(pos), grammar) && (r.At? ==> pos == r.end)
    {
      hide FindText;
      var tag := Take(1);
      if !tag.At? {
        return Truncated;
      }
      var kind := tag.value[0];
      if kind > 5 {
        return At(None, pos);
      }
      var value, extra: Found<seq<byte>> := At([], pos), At([], pos);
      if HasValue(kind) {
        value := TakeText();
        if !value.At? {
          return if value.BadText? then BadText else Truncated;
        }
      }
      extra := At([], pos);
      if HasExtra(kind) {
        extra := TakeText();
        if !extra.At? {
          return if extra.BadText? then BadText else Truncated;
        }
      }
      r := At(Some(Parts(kind, value.value, extra.value)), pos);
    }
  }

  // ----- decoding

  datatype Error = IsTruncated | IsBadText | Invalid(index: nat)

  datatype Decoded = Quad(parts: QuadParts) | Failed(error: Error)

  ghost predicate ReadableQuad(q: QuadParts, grammar: Grammar) {
    Readable(q.s, grammar) && Readable(q.p, grammar) && Readable(q.o, grammar) && Readable(q.g, grammar)
  }

  /** One term, built for its position. */
  method TakeBuilt(cur: Cursor, position: Position, index: nat, ghost before: seq<byte>, ghost p: Parts, ghost after: seq<byte>)
    returns (parts: Parts, error: Option<Error>)
    modifies cur
    ensures error.None? ==> Builds(cur.grammar, position, parts)
    ensures cur.bytes == before + Tagged(p) + after && old(cur.pos) == |before| && Readable(p, cur.grammar) ==>
              if Builds(cur.grammar, position, p) then error.None? && parts == p && cur.pos == |before| + |Tagged(p)|
              else error == Some(Invalid(index))
  {
    hide FindTerm, Tagged, Builds, Readable;
    if cur.bytes == before + Tagged(p) + after && Readable(p, cur.grammar) {
      TermIsFound(before, p, after, cur.grammar);
    }
    var r := cur.TakeTerm();
    match r
    case Truncated => return Parts(0, [], []), Some(IsTruncated);
    case BadText => return Parts(0, [], []), Some(IsBadText);
    case At(found, _) =>
      if found.None? || !Builds(cur.grammar, position, found.value) {
        return Parts(0, [], []), Some(Invalid(index));
      }
      return found.value, None;
  }

  /** One quad, each term built for its position. */
  method TakeQuad(cur: Cursor, index: nat, ghost before: seq<byte>, ghost q: QuadParts, ghost after: seq<byte>) returns (r: Decoded)
    modifies cur
    ensures r.Quad? ==> QuadBuilds(cur.grammar, r.parts)
    ensures cur.bytes == before + TaggedQuad(q) + after && old(cur.pos) == |before| && ReadableQuad(q, cur.grammar) ==>
              if QuadBuilds(cur.grammar, q) then r == Quad(q) && cur.pos == |before| + |TaggedQuad(q)|
              else r == Failed(Invalid(index))
  {
    hide Tagged, Builds, Readable;
    var (s, p, o, g) := (Tagged(q.s), Tagged(q.p), Tagged(q.o), Tagged(q.g));
    QuadSplit(before, s, p, o, g, after);
    var subject, error := TakeBuilt(cur, Subject, index, before, q.s, p + o + g + after);
    if error.Some? {
      return Failed(error.value);
    }
    var predicat;
    predicat, error := TakeBuilt(cur, Predicate, index, before + s, q.p, o + g + after);
    if error.Some? {
      return Failed(error.value);
    }
    var objct;
    objct, error := TakeBuilt(cur, Position.Object, index, before + s + p, q.o, g + after);
    if error.Some? {
      return Failed(error.value);
    }
    var graph;
    graph, error := TakeBuilt(cur, Graph, index, before + s + p + o, q.g, after);
    if error.Some? {
      return Failed(error.value);
    }
    r := Quad(QuadParts(subject, predicat, objct, graph));
  }

  lemma QuadSplit(before: seq<byte>, s: seq<byte>, p: seq<byte>, o: seq<byte>, g: seq<byte>, after: seq<byte>)
    ensures before + (s + p + o + g) + after == before + s + (p + o + g + after)
    ensures before + (s + p + o + g) + after == before + s + p + (o + g + after)
    ensures before + (s + p + o + g) + after == before + s + p + o + (g + after)
    ensures before + (s + p + o + g) + after == before + s + p + o + g + after
  {
  }

  /** Quads the constructors accept, up to the first they do not. */
  ghost predicate Accepted(parts: seq<QuadParts>, first: nat, grammar: Grammar, emitted: seq<QuadParts>, error: Option<Error>) {
    && emitted <= parts && (forall i :: 0 <= i < |emitted| ==> QuadBuilds(grammar, parts[i]))
    && (error.None? ==> emitted == parts)
    && (error.Some? ==> error == Some(Invalid(first + |emitted|)) && |emitted| < |parts| && !QuadBuilds(grammar, parts[|emitted|]))
  }

  ghost predicate AllReadable(parts: seq<QuadParts>, grammar: Grammar) {
    |parts| < U32 && forall i :: 0 <= i < |parts| ==> ReadableQuad(parts[i], grammar)
  }

  /** Where quad `i` starts in a packed buffer. */
  ghost function StartOf(parts: seq<QuadParts>, i: nat): (at: nat)
    requires i <= |parts|
  {
    4 + |TaggedQuads(parts[..i])|
  }

  ghost predicate Holds(bytes: seq<byte>, parts: seq<QuadParts>, grammar: Grammar) {
    bytes == Packed(parts) && AllReadable(parts, grammar)
  }

  /** Quad `i` of a packed buffer. */
  method TakeNth(cur: Cursor, index: nat, ghost parts: seq<QuadParts>, ghost i: nat) returns (r: Decoded)
    modifies cur
    ensures r.Quad? ==> QuadBuilds(cur.grammar, r.parts)
    ensures Holds(cur.bytes, parts, cur.grammar) && i < |parts| && old(cur.pos) == StartOf(parts, i) ==>
              if QuadBuilds(cur.grammar, parts[i]) then r == Quad(parts[i]) && cur.pos == StartOf(parts, i + 1)
              else r == Failed(Invalid(index))
  {
    hide TaggedQuad, QuadBuilds, ReadableQuad, Le32, TaggedQuads, Packed;
    ghost var (before, q, after) := ([], QuadParts(Parts(0, [], []), Parts(0, [], []), Parts(0, [], []), Parts(0, [], [])), []);
    if Holds(cur.bytes, parts, cur.grammar) && i < |parts| {
      assert ReadableQuad(parts[i], cur.grammar);
      before, q, after := Le32(|parts|) + TaggedQuads(parts[..i]), parts[i], TaggedAfter(parts, i + 1);
      QuadInside(parts, i);
      TaggedOneMore(parts[..i], parts[i]);
      assert parts[..i] + [parts[i]] == parts[..i + 1];
    }
    r := TakeQuad(cur, index, before, q, after);
  }

  /** Of a packed buffer it gives back every quad packed, in order, up to the
      first a constructor rejects, whose index counts from `first`. Of any bytes
      it gives back only quads the constructors accept. */
  method DecodePacked(bytes: seq<byte>, first: nat, grammar: Grammar, ghost parts: seq<QuadParts>)
    returns (emitted: seq<QuadParts>, error: Option<Error>)
    ensures forall i :: 0 <= i < |emitted| ==> QuadBuilds(grammar, emitted[i])
    ensures Holds(bytes, parts, grammar) ==> Accepted(parts, first, grammar, emitted, error)
  {
    hide QuadBuilds, Holds, StartOf, FindU32, Accepted;
    var cur := new Cursor(bytes, grammar);
    CountIsFound(parts, bytes, grammar);
    emitted := [];
    var n := cur.TakeU32();
    if !n.At? {
      return [], Some(IsTruncated);
    }
    for i := 0 to n.value
      invariant fresh(cur) && cur.bytes == bytes && cur.grammar == grammar
      invariant |emitted| == i && forall j :: 0 <= j < i ==> QuadBuilds(grammar, emitted[j])
      invariant Holds(bytes, parts, grammar) ==> n.value == |parts| && emitted == parts[..i] && cur.pos == StartOf(parts, i)
    {
      var r := TakeNth(cur, first + i, parts, i);
      match r {
        case Failed(e) =>
          AcceptedUpTo(parts, first, grammar, emitted, e);
          return emitted, Some(e);
        case Quad(p) =>
          emitted := emitted + [p];
      }
    }
    error := None;
    AcceptedAll(parts, first, grammar, emitted);
  }

  lemma AcceptedUpTo(parts: seq<QuadParts>, first: nat, grammar: Grammar, emitted: seq<QuadParts>, e: Error)
    requires forall j :: 0 <= j < |emitted| ==> QuadBuilds(grammar, emitted[j])
    ensures |emitted| < |parts| && emitted == parts[..|emitted|] && !QuadBuilds(grammar, parts[|emitted|]) && e == Invalid(first + |emitted|) ==>
              Accepted(parts, first, grammar, emitted, Some(e))
  {
    hide QuadBuilds;
    if |emitted| < |parts| && emitted == parts[..|emitted|] {
      assert forall j :: 0 <= j < |emitted| ==> parts[j] == emitted[j];
    }
  }

  lemma AcceptedAll(parts: seq<QuadParts>, first: nat, grammar: Grammar, emitted: seq<QuadParts>)
    requires forall j :: 0 <= j < |emitted| ==> QuadBuilds(grammar, emitted[j])
    ensures |emitted| == |parts| && emitted == parts[..|parts|] ==> Accepted(parts, first, grammar, emitted, None)
  {
    hide QuadBuilds;
  }

  /** What follows quad `i` in a buffer. */
  lemma QuadInside(parts: seq<QuadParts>, i: nat)
    requires i < |parts|
    ensures Packed(parts) == Le32(|parts|) + TaggedQuads(parts[..i]) + TaggedQuad(parts[i]) + TaggedAfter(parts, i + 1)
  {
    hide TaggedQuad, Le32, TaggedQuads, TaggedAfter;
    TaggedSplit(parts, i + 1);
    assert parts[..i + 1] == parts[..i] + [parts[i]];
    TaggedOneMore(parts[..i], parts[i]);
    var (a, b, c, d) := (Le32(|parts|), TaggedQuads(parts[..i]), TaggedQuad(parts[i]), TaggedAfter(parts, i + 1));
    assert a + (b + c + d) == a + b + c + d;
  }

  ghost function TaggedAfter(parts: seq<QuadParts>, i: nat): (rest: seq<byte>)
    requires i <= |parts|
    decreases |parts| - i
  {
    if i == |parts| then [] else TaggedQuad(parts[i]) + TaggedAfter(parts, i + 1)
  }

  lemma {:induction false} TaggedSplit(parts: seq<QuadParts>, i: nat)
    requires i <= |parts|
    ensures TaggedQuads(parts) == TaggedQuads(parts[..i]) + TaggedAfter(parts, i)
    decreases |parts| - i
  {
    hide TaggedQuad;
    if i == |parts| {
      assert parts[..i] == parts;
    } else {
      TaggedSplit(parts, i + 1);
      assert parts[..i + 1] == parts[..i] + [parts[i]];
      TaggedOneMore(parts[..i], parts[i]);
    }
  }

  lemma CountIsFound(parts: seq<QuadParts>, bytes: seq<byte>, grammar: Grammar)
    ensures Holds(bytes, parts, grammar) ==> FindU32(bytes, 0) == At(|parts|, 4) && StartOf(parts, 0) == 4
  {
    hide Le32, FromLe32;
    if Holds(bytes, parts, grammar) {
      Le32RoundTrip(|parts|);
      assert bytes[0..4] == Le32(|parts|);
      assert parts[..0] == [];
    }
  }

  // ----- a whole array

  const PACK_CHUNK: nat := 0x1_0000

  /** A quad both sides take: it has parts, and its constructors accept them. */
  ghost predicate Taken(q: JsQuad, grammar: Grammar) {
    QuadPartsOf(q).Some? && QuadBuilds(grammar, QuadPartsOf(q).value)
  }

  /** JavaScript strings as an array of quads holds them: encoded as UTF-8 that
      reads back. */
  ghost predicate Sound(q: JsQuad, grammar: Grammar) {
    QuadEncodes(q) && (QuadPartsOf(q).Some? ==> ReadableQuad(QuadPartsOf(q).value, grammar))
  }

  /** The first quads' parts. */
  ghost predicate PartsUpTo(quads: seq<JsQuad>, emitted: seq<QuadParts>) {
    |emitted| <= |quads| && forall i :: 0 <= i < |emitted| ==> QuadPartsOf(quads[i]) == Some(emitted[i])
  }

  /** What a failed decode reports: a quad not taken, in the first range that
      holds one; the range's first with no parts, or else its first rejected by
      a constructor, every quad before it handed on. */
  ghost predicate Reports(quads: seq<JsQuad>, grammar: Grammar, emitted: seq<QuadParts>, index: nat) {
    && index < |quads| && !Taken(quads[index], grammar)
    && var start := index - index % PACK_CHUNK;
    && (forall i :: 0 <= i < start ==> Taken(quads[i], grammar))
    && if QuadPartsOf(quads[index]).None? then
         |emitted| == start && forall i :: start <= i < index ==> QuadPartsOf(quads[i]).Some?
       else
         |emitted| == index && forall i :: start <= i < index ==> Taken(quads[i], grammar)
  }

  /** Decodes the quads of an array range by range: every quad's parts in order
      when all are taken, an error exactly when one is not. */
  method JsArrayDecode(quads: seq<JsQuad>, grammar: Grammar) returns (emitted: seq<QuadParts>, error: Option<Error>)
    requires |quads| + PACK_CHUNK <= U32 && forall i :: 0 <= i < |quads| ==> Sound(quads[i], grammar)
    ensures error.None? <==> forall i :: 0 <= i < |quads| ==> Taken(quads[i], grammar)
    ensures PartsUpTo(quads, emitted) && (error.None? ==> |emitted| == |quads|)
    ensures error.Some? ==> error.value.Invalid? && Reports(quads, grammar, emitted, error.value.index)
  {
    hide QuadPartsOf, QuadBuilds, ReadableQuad, QuadEncodes, Packed;
    emitted := [];
    var start: nat := 0;
    while start < |quads|
      invariant start == |emitted| <= |quads| && PartsUpTo(quads, emitted)
      invariant start < |quads| ==> start % PACK_CHUNK == 0
      invariant forall i :: 0 <= i < start ==> Taken(quads[i], grammar)
      decreases |quads| - start
    {
      var end := Min(start + PACK_CHUNK, |quads|);
      var packed, parts := PackRange(quads, start, end);
      if packed.Malformed? {
        InRange(start, packed.index);
        return emitted, Some(Invalid(packed.index));
      }
      RangeReadable(quads, start, end, parts, grammar);
      var decoded, e := DecodePacked(packed.bytes, start, grammar, parts);
      ghost var before := emitted;
      emitted := emitted + decoded;
      RangeAccepted(quads, start, end, parts, grammar, decoded, e, before, emitted);
      if e.Some? {
        InRange(start, e.value.index);
        return emitted, e;
      }
      start := end;
    }
    error := None;
  }

  lemma InRange(start: nat, index: nat)
    requires start % PACK_CHUNK == 0 && start <= index < start + PACK_CHUNK
    ensures index - index % PACK_CHUNK == start
  {
  }

  lemma RangeReadable(quads: seq<JsQuad>, start: nat, end: nat, parts: seq<QuadParts>, grammar: Grammar)
    requires RangeParts(quads, start, end, parts) && end - start < U32
    requires forall i :: 0 <= i < |quads| ==> Sound(quads[i], grammar)
    ensures AllReadable(parts, grammar)
  {
    forall i | 0 <= i < |parts|
      ensures ReadableQuad(parts[i], grammar)
    {
      assert Sound(quads[start + i], grammar) && QuadPartsOf(quads[start + i]) == Some(parts[start + i - start]);
    }
  }

  /** A range's quads handed on are the array's next ones. */
  lemma RangeAccepted(quads: seq<JsQuad>, start: nat, end: nat, parts: seq<QuadParts>, grammar: Grammar, decoded: seq<QuadParts>,
                      error: Option<Error>, before: seq<QuadParts>, emitted: seq<QuadParts>)
    requires RangeParts(quads, start, end, parts) && Accepted(parts, start, grammar, decoded, error)
    requires PartsUpTo(quads, before) && |before| == start && emitted == before + decoded
    ensures PartsUpTo(quads, emitted) && forall i :: start <= i < |emitted| ==> Taken(quads[i], grammar)
    ensures error.None? ==> |emitted| == end
    ensures error.Some? ==> error.value == Invalid(|emitted|) && |emitted| < end
    ensures error.Some? ==> QuadPartsOf(quads[|emitted|]).Some? && !Taken(quads[|emitted|], grammar)
  {
    hide QuadPartsOf, QuadBuilds;
    forall i | start <= i < |emitted|
      ensures QuadPartsOf(quads[i]) == Some(emitted[i]) && Taken(quads[i], grammar)
    {
      assert emitted[i] == decoded[i - start] == parts[i - start];
    }
    if error.Some? {
      assert QuadPartsOf(quads[|emitted|]) == Some(parts[|emitted| - start]);
    }
  }
}
