/** RDF/JS terms as the quad decoders take them: a kind, a value, an extra. */
module TermParts {
  import opened Base

  /** A JavaScript string: its UTF-16 units counted, its UTF-8 bytes at most
      three a unit. */
  datatype JsString = JsString(units: nat, utf8: seq<byte>)

  ghost predicate Encodes(s: JsString) {
    |s.utf8| <= 3 * s.units && |s.utf8| < 0x1_0000_0000 && (s.utf8 == [] <==> s.units == 0)
  }

  /** A property that should be a string: a string, any other falsy value or
      none, any other truthy value. */
  datatype JsValue = Text(s: JsString) | Falsy | Truthy

  predicate IsTruthy(v: JsValue) { v.Truthy? || (v.Text? && v.s.units > 0) }

  /** A `datatype` property, told apart as far as reading it goes. */
  datatype JsDatatype = NoDatatype | Object(value: JsValue) | Bare

  datatype TypeName = IsNamedNode | IsBlankNode | IsLiteral | IsDefaultGraph | Unknown

  /** `null`, `undefined` or a missing property; or an object. */
  datatype JsTerm = Missing | Term(typeName: TypeName, value: JsValue, language: JsValue, dt: JsDatatype)

  datatype JsQuad = NoQuad | JsQuad(s: JsTerm, p: JsTerm, o: JsTerm, g: JsTerm)

  ghost predicate ValueEncodes(v: JsValue) { v.Text? ==> Encodes(v.s) }

  ghost predicate TermEncodes(t: JsTerm) {
    t.Term? ==> ValueEncodes(t.value) && ValueEncodes(t.language) && (t.dt.Object? ==> ValueEncodes(t.dt.value))
  }

  ghost predicate QuadEncodes(q: JsQuad) {
    q.JsQuad? ==> TermEncodes(q.s) && TermEncodes(q.p) && TermEncodes(q.o) && TermEncodes(q.g)
  }

  const NAMED_NODE: byte := 0
  const BLANK_NODE: byte := 1
  const SIMPLE_LITERAL: byte := 2
  const LANG_LITERAL: byte := 3
  const TYPED_LITERAL: byte := 4
  const DEFAULT_GRAPH: byte := 5

  predicate HasValue(kind: byte) { kind != DEFAULT_GRAPH }

  predicate HasExtra(kind: byte) { kind == LANG_LITERAL || kind == TYPED_LITERAL }

  /** What the validated constructors take. */
  datatype Parts = Parts(kind: byte, value: seq<byte>, extra: seq<byte>)

  /** One of the six kinds, with nothing where it takes nothing. */
  ghost predicate Proper(p: Parts) {
    && p.kind <= 5 && |p.value| < 0x1_0000_0000 && |p.extra| < 0x1_0000_0000
    && (!HasValue(p.kind) ==> p.value == []) && (!HasExtra(p.kind) ==> p.extra == [])
  }

  // ----- reading a term off its object

  /** A `language` or a datatype's `value`: absent when falsy, no term when
      truthy and no string. */
  function LiteralExtra(v: JsValue): (r: Option<Option<seq<byte>>>) {
    match v
    case Text(s) => Some(if s.units > 0 then Some(s.utf8) else None)
    case Falsy => Some(None)
    case Truthy => None
  }

  function LiteralParts(t: JsTerm): (r: Option<Parts>)
    requires t.Term?
  {
    if !t.value.Text? then None
    else
      var value := t.value.s.utf8;
      match LiteralExtra(t.language)
      case None => None
      case Some(Some(language)) => Some(Parts(LANG_LITERAL, value, language))
      case Some(None) =>
        match t.dt
        case NoDatatype => Some(Parts(SIMPLE_LITERAL, value, []))
        case Bare => None
        case Object(iri) =>
          match LiteralExtra(iri)
          case None => None
          case Some(Some(iri)) => Some(Parts(TYPED_LITERAL, value, iri))
          case Some(None) => Some(Parts(SIMPLE_LITERAL, value, []))
  }

  /** Reads a term off its object. */
  function PartsOf(t: JsTerm): (r: Option<Parts>)
    ensures TermEncodes(t) && r.Some? ==> Proper(r.value)
  {
    if t.Missing? then Some(Parts(DEFAULT_GRAPH, [], []))
    else
      match t.typeName
      case IsNamedNode => if t.value.Text? then Some(Parts(NAMED_NODE, t.value.s.utf8, [])) else None
      case IsBlankNode => if t.value.Text? then Some(Parts(BLANK_NODE, t.value.s.utf8, [])) else None
      case IsLiteral => LiteralParts(t)
      case IsDefaultGraph => Some(Parts(DEFAULT_GRAPH, [], []))
      case Unknown => None
  }

  /** What is no term: anything of another type, or with a non-string where a
      string belongs. */
  predicate Malformed(t: JsTerm) {
    t.Term? && (
      || t.typeName.Unknown?
      || (!t.typeName.IsDefaultGraph? && !t.value.Text?)
      || (t.typeName.IsLiteral? && t.language.Truthy?)
      || (t.typeName.IsLiteral? && !IsTruthy(t.language) && (t.dt.Bare? || (t.dt.Object? && t.dt.value.Truthy?))))
  }

  /** Parts are read off exactly the values that are terms; the kind is the
      type's, a literal's that of its language, else of its datatype; the value
      and the extra are the strings. */
  lemma PartsAre(t: JsTerm)
    ensures PartsOf(t).None? <==> Malformed(t)
    ensures !Malformed(t) ==>
              var p := PartsOf(t).value;
              && (p.kind == DEFAULT_GRAPH <==> t.Missing? || t.typeName.IsDefaultGraph?)
              && (p.kind == NAMED_NODE <==> t.Term? && t.typeName.IsNamedNode?)
              && (p.kind == BLANK_NODE <==> t.Term? && t.typeName.IsBlankNode?)
              && (p.kind == LANG_LITERAL <==> t.Term? && t.typeName.IsLiteral? && IsTruthy(t.language))
              && (p.kind == TYPED_LITERAL <==>
                    t.Term? && t.typeName.IsLiteral? && !IsTruthy(t.language) && t.dt.Object? && IsTruthy(t.dt.value))
              && (HasValue(p.kind) ==> p.value == t.value.s.utf8)
              && (p.kind == LANG_LITERAL ==> p.extra == t.language.s.utf8)
              && (p.kind == TYPED_LITERAL ==> p.extra == t.dt.value.s.utf8)
  {
  }

  datatype QuadParts = QuadParts(s: Parts, p: Parts, o: Parts, g: Parts)

  function QuadPartsOf(q: JsQuad): (r: Option<QuadParts>)
  {
    if q.NoQuad? || PartsOf(q.s).None? || PartsOf(q.p).None? || PartsOf(q.o).None? || PartsOf(q.g).None? then None
    else Some(QuadParts(PartsOf(q.s).value, PartsOf(q.p).value, PartsOf(q.o).value, PartsOf(q.g).value))
  }

  // ----- the validated constructors

  /** What parses as an IRI, a blank node label, a language tag, UTF-8. */
  datatype Grammar = Grammar(iri: seq<byte> -> bool, blank: seq<byte> -> bool, tag: seq<byte> -> bool, utf8: seq<byte> -> bool)

  datatype Position = Subject | Predicate | Object | Graph

  /** Whether a position's constructor builds a term. */
  predicate Builds(grammar: Grammar, position: Position, p: Parts) {
    if p.kind == NAMED_NODE then grammar.iri(p.value)
    else if p.kind == BLANK_NODE then !position.Predicate? && grammar.blank(p.value)
    else if p.kind == SIMPLE_LITERAL then position.Object?
    else if p.kind == LANG_LITERAL then position.Object? && grammar.tag(p.extra)
    else if p.kind == TYPED_LITERAL then position.Object? && grammar.iri(p.extra)
    else p.kind == DEFAULT_GRAPH && position.Graph?
  }

  predicate QuadBuilds(grammar: Grammar, q: QuadParts) {
    Builds(grammar, Subject, q.s) && Builds(grammar, Predicate, q.p) && Builds(grammar, Position.Object, q.o) && Builds(grammar, Graph, q.g)
  }
}
