/** The benchmark's dataset generator: row `i` is the tuple of residues of `i`,
    and the moduli are chosen so that no two rows are the same quad. */
module Datasets {
  import opened Base
  import opened Divisors

  // ----- the moduli

  function Product(moduli: seq<nat>): (p: nat) {
    if moduli == [] then 1 else Product(moduli[..|moduli| - 1]) * moduli[|moduli| - 1]
  }

  ghost predicate Positive(moduli: seq<nat>) {
    forall i :: 0 <= i < |moduli| ==> moduli[i] > 0
  }

  ghost predicate PairwiseCoprime(moduli: seq<nat>) {
    forall i, j :: 0 <= i < j < |moduli| ==> Coprime(moduli[i], moduli[j])
  }

  ghost predicate CoprimeToAll(moduli: seq<nat>, k: nat) {
    forall i :: 0 <= i < |moduli| ==> Coprime(moduli[i], k)
  }

  lemma {:induction false} ProductPositive(moduli: seq<nat>)
    requires Positive(moduli)
    ensures Product(moduli) > 0
    decreases |moduli|
  {
    if moduli != [] {
      var last := |moduli| - 1;
      ProductPositive(moduli[..last]);
      MulMonotone(1, Product(moduli[..last]), moduli[last]);
    }
  }

  lemma {:induction false} FactorDivides(moduli: seq<nat>, i: nat)
    requires Positive(moduli) && i < |moduli|
    ensures Divides(moduli[i], Product(moduli))
    decreases |moduli|
  {
    var last := |moduli| - 1;
    var rest := Product(moduli[..last]);
    if i == last {
      assert Times(moduli[last], rest) == moduli[last] * rest == rest * moduli[last];
    } else {
      FactorDivides(moduli[..last], i);
      DividesTimes(moduli[i], rest, moduli[last]);
      assert moduli[last] * rest == rest * moduli[last];
    }
  }

  /** Within one product's length of any number lies one coprime to every
      factor: one more than a multiple of the product. */
  lemma Candidate(moduli: seq<nat>, w: nat) returns (k: nat)
    requires Positive(moduli) && w > 0
    ensures w <= k < w + Product(moduli) && CoprimeToAll(moduli, k)
  {
    ProductPositive(moduli);
    var p := Product(moduli);
    k := w + (1 - w) % p;
    var t := -((1 - w) / p);
    assert 1 - w == p * ((1 - w) / p) + (1 - w) % p;
    assert k == 1 + p * t;
    forall i | 0 <= i < |moduli|
      ensures Coprime(moduli[i], k)
    {
      forall d: nat | d > 0 && Divides(d, moduli[i]) && Divides(d, k)
        ensures d == 1
      {
        FactorDivides(moduli, i);
        DividesTimes(d, moduli[i], DivideBy(moduli[i], p));
        assert DivideBy(moduli[i], p) * moduli[i] == moduli[i] * DivideBy(moduli[i], p) == p;
        DividesSum(d, k, p, -t);
        assert k + -t * p == 1;
        DividesOne(d);
      }
    }
  }

  /** Whether any of the moduli shares a factor with `k`. */
  method SharesFactor(moduli: seq<nat>, k: nat) returns (shares: bool)
    requires Positive(moduli) && k > 0
    ensures shares <==> !CoprimeToAll(moduli, k)
  {
    for i := 0 to |moduli|
      invariant forall j :: 0 <= j < i ==> Coprime(moduli[j], k)
    {
      var g := Gcd(moduli[i], k);
      CoprimeIsGcdOne(moduli[i], k, g);
      if g != 1 {
        return true;
      }
    }
    shares := false;
  }

  /** The wanted count nudged up until it is coprime to those before it: the
      first from it on that is. */
  method Nudge(moduli: seq<nat>, w: nat) returns (k: nat)
    requires Positive(moduli) && w > 0
    ensures k >= w && CoprimeToAll(moduli, k) && k < w + Product(moduli)
    ensures forall j :: w <= j < k ==> !CoprimeToAll(moduli, j)
  {
    hide CoprimeToAll;
    ghost var candidate := Candidate(moduli, w);
    k := w;
    var shares := SharesFactor(moduli, k);
    while shares
      invariant w <= k <= candidate
      invariant shares <==> !CoprimeToAll(moduli, k)
      invariant forall j :: w <= j < k ==> !CoprimeToAll(moduli, j)
      decreases candidate - k
    {
      k := k + 1;
      shares := SharesFactor(moduli, k);
    }
  }

  /** The first number from `w` on coprime to those before it. */
  ghost predicate FirstCoprime(w: nat, k: nat, before: seq<nat>) {
    && k >= w && CoprimeToAll(before, k)
    && forall j :: w <= j < k ==> !CoprimeToAll(before, j)
  }

  lemma FirstIsUnique(w: nat, a: nat, b: nat, before: seq<nat>)
    requires FirstCoprime(w, a, before) && FirstCoprime(w, b, before)
    ensures a == b
  {
  }

  lemma FirstExists(w: nat, before: seq<nat>)
    requires Positive(before) && w > 0
    ensures exists k: nat :: FirstCoprime(w, k, before)
  {
    var bound := Candidate(before, w);
    FirstUpTo(w, w, bound, before);
  }

  lemma {:induction false} FirstUpTo(w: nat, from: nat, bound: nat, before: seq<nat>)
    requires w <= from <= bound && CoprimeToAll(before, bound)
    requires forall j :: w <= j < from ==> !CoprimeToAll(before, j)
    ensures exists k: nat :: FirstCoprime(w, k, before)
    decreases bound - from
  {
    hide CoprimeToAll;
    if CoprimeToAll(before, from) {
      assert FirstCoprime(w, from, before);
    } else {
      FirstUpTo(w, from + 1, bound, before);
    }
  }

  /** The moduli of the counts wanted: each the first number from its count on
      coprime to those before it. */
  ghost function ModuliFor(want: seq<nat>): (got: seq<nat>)
    requires Positive(want)
    ensures |got| == |want| && Positive(got)
    ensures forall i :: 0 <= i < |want| ==> FirstCoprime(want[i], got[i], got[..i])
    decreases |want|
  {
    if want == [] then []
    else
      var last := |want| - 1;
      var before := ModuliFor(want[..last]);
      FirstExists(want[last], before);
      var k: nat :| FirstCoprime(want[last], k, before);
      assert forall i :: 0 <= i <= last ==> (before + [k])[..i] == before[..i];
      before + [k]
  }

  lemma ModuliNext(want: seq<nat>, i: nat, k: nat)
    requires Positive(want) && i < |want| && FirstCoprime(want[i], k, ModuliFor(want[..i]))
    ensures ModuliFor(want[..i + 1]) == ModuliFor(want[..i]) + [k]
  {
    hide FirstCoprime, ModuliFor;
    var (upto, all) := (want[..i + 1], ModuliFor(want[..i + 1]));
    assert upto[..i] == want[..i];
    ModuliSplit(upto);
    FirstIsUnique(want[i], all[i], k, all[..i]);
    assert all == all[..i] + [all[i]];
  }

  lemma ModuliSplit(want: seq<nat>)
    requires Positive(want) && want != []
    ensures ModuliFor(want)[..|want| - 1] == ModuliFor(want[..|want| - 1])
  {
    hide FirstCoprime;
  }

  lemma ModuliAreCoprime(want: seq<nat>)
    requires Positive(want)
    ensures PairwiseCoprime(ModuliFor(want)) && forall i :: 0 <= i < |want| ==> ModuliFor(want)[i] >= want[i]
  {
    hide Coprime;
    var got := ModuliFor(want);
    forall i, j | 0 <= i < j < |got|
      ensures Coprime(got[i], got[j])
    {
      assert FirstCoprime(want[j], got[j], got[..j]);
      assert got[..j][i] == got[i];
    }
  }

  /** One modulus a role; an error when together they cannot tell `n` rows apart. */
  method Moduli(want: seq<nat>, n: nat) returns (r: Option<seq<nat>>)
    requires Positive(want)
    ensures r == if Product(ModuliFor(want)) < n then None else Some(ModuliFor(want))
  {
    hide CoprimeToAll, Product, ModuliFor;
    var moduli: seq<nat> := [];
    NoModuli(want);
    for i := 0 to |want|
      invariant Positive(moduli) && moduli == ModuliFor(want[..i])
    {
      var k := Nudge(moduli, want[i]);
      ModuliNext(want, i, k);
      moduli := moduli + [k];
    }
    assert want[..|want|] == want;
    r := if Product(moduli) < n then None else Some(moduli);
  }

  lemma NoModuli(want: seq<nat>)
    requires Positive(want)
    ensures want[..0] == [] && ModuliFor([]) == []
  {
  }

  // ----- the remainder theorem

  ghost predicate SameResidues(moduli: seq<nat>, i: nat, j: nat)
    requires Positive(moduli)
  {
    forall k :: 0 <= k < |moduli| ==> i % moduli[k] == j % moduli[k]
  }

  lemma {:induction false} ProductCoprime(moduli: seq<nat>, k: nat)
    requires Positive(moduli) && k > 0 && CoprimeToAll(moduli, k)
    ensures Product(moduli) > 0 && Coprime(Product(moduli), k)
    decreases |moduli|
  {
    hide Coprime;
    ProductPositive(moduli);
    if moduli == [] {
      OneIsCoprime(k);
    } else {
      var last := |moduli| - 1;
      ProductPositive(moduli[..last]);
      ProductCoprime(moduli[..last], k);
      CoprimeToProduct(Product(moduli[..last]), moduli[last], k);
    }
  }

  lemma OneIsCoprime(k: nat)
    ensures Coprime(1, k)
  {
    forall d: nat | d > 0 && Divides(d, 1)
      ensures d == 1
    {
      DividesOne(d);
    }
  }

  /** Two rows share every residue exactly when the product divides their distance. */
  lemma {:induction false} Remainders(moduli: seq<nat>, i: nat, j: nat)
    requires Positive(moduli) && PairwiseCoprime(moduli)
    ensures Product(moduli) > 0
    ensures SameResidues(moduli, i, j) <==> Divides(Product(moduli), i - j)
    decreases |moduli|
  {
    ProductPositive(moduli);
    if moduli == [] {
      assert Times(1, i - j) == i - j;
    } else {
      hide Coprime;
      var last := |moduli| - 1;
      var (rest, k, p) := (moduli[..last], moduli[last], Product(moduli[..last]));
      Remainders(rest, i, j);
      SameRemainder(k, i, j);
      if SameResidues(moduli, i, j) {
        assert SameResidues(rest, i, j);
        assert CoprimeToAll(rest, k);
        ProductCoprime(rest, k);
        CoprimeProductDivides(p, k, i - j);
      }
      if Divides(Product(moduli), i - j) {
        DividesFactors(p, k, i - j);
        forall m | 0 <= m < |moduli|
          ensures i % moduli[m] == j % moduli[m]
        {
          assert m < last ==> moduli[m] == rest[m];
        }
      }
    }
  }

  lemma DividesFactors(a: nat, b: nat, n: int)
    requires a > 0 && b > 0 && a * b > 0 && Divides(a * b, n)
    ensures Divides(a, n) && Divides(b, n)
  {
    var k := DivideBy(a * b, n);
    assert Times(a, b * k) == a * (b * k) == (a * b) * k;
    assert Times(b, a * k) == b * (a * k) == (a * b) * k;
  }

  /** The rows `0..n` have distinct residues exactly when the product covers them. */
  lemma DistinctResidues(moduli: seq<nat>, n: nat)
    requires Positive(moduli) && PairwiseCoprime(moduli)
    ensures (forall i: nat, j: nat :: i < j < n ==> !SameResidues(moduli, i, j)) <==> n <= Product(moduli)
  {
    var p: int := Product(moduli);
    if n <= p {
      forall i: nat, j: nat | i < j < n
        ensures !SameResidues(moduli, i, j)
      {
        Remainders(moduli, i, j);
        if Divides(p, i - j) {
          DividesLess(p, i - j);
        }
      }
    } else {
      Remainders(moduli, 0, p);
      assert Times(p, -1) == -p;
      assert SameResidues(moduli, 0, p);
    }
  }

  // ----- terms and quads

  const BASE := "http://data.example.org"

  /** A number in decimal. */
  function Decimal(i: nat): (s: string)
    ensures |s| > 0
  {
    if i < 10 then [Digit(i)] else Decimal(i / 10) + [Digit(i % 10)]
  }

  function Digit(d: nat): (c: char)
    requires d < 10
    ensures '0' <= c <= '9'
  {
    '0' + d as char
  }

  /** Zeros in front, up to `width` characters. */
  function PadStart(s: string, width: nat): (padded: string)
    decreases width - |s|
  {
    if |s| >= width then s else PadStart("0" + s, width)
  }

  function Pad(i: nat, width: nat): (s: string) { PadStart(Decimal(i), width) }

  /** The number a string of digits spells. */
  function Value(s: string): (n: nat) {
    if s == "" then 0 else Value(s[..|s| - 1]) * 10 + (if s[|s| - 1] >= '0' then s[|s| - 1] as nat - '0' as nat else 0)
  }

  lemma {:induction false} DecimalValue(i: nat)
    ensures Value(Decimal(i)) == i
  {
    if i < 10 {
      assert Decimal(i)[..0] == "";
      assert Value("") == 0;
    } else {
      DecimalValue(i / 10);
      assert Decimal(i)[..|Decimal(i)| - 1] == Decimal(i / 10);
    }
  }

  lemma {:induction false} LeadingZero(s: string)
    ensures Value("0" + s) == Value(s)
    decreases |s|
  {
    if s == "" {
      assert "0" + s == "0" && "0"[..0] == "";
    } else {
      LeadingZero(s[..|s| - 1]);
      assert ("0" + s)[..|s|] == "0" + s[..|s| - 1];
    }
  }

  lemma {:induction false} PadValue(s: string, width: nat)
    ensures Value(PadStart(s, width)) == Value(s)
    decreases width - |s|
  {
    if |s| < width {
      LeadingZero(s);
      PadValue("0" + s, width);
    }
  }

  /** Padded numbers behind one prefix are told apart, however wide. */
  lemma PaddedApart(prefix: string, i: nat, j: nat, width: nat)
    ensures prefix + Pad(i, width) == prefix + Pad(j, width) <==> i == j
  {
    DecimalValue(i);
    DecimalValue(j);
    PadValue(Decimal(i), width);
    PadValue(Decimal(j), width);
    var (a, b) := (prefix + Pad(i, width), prefix + Pad(j, width));
    assert a[|prefix|..] == Pad(i, width) && b[|prefix|..] == Pad(j, width);
  }

  datatype Term = NamedNode(value: string) | Literal(value: string) | DefaultGraph

  datatype Quad = Quad(s: Term, p: Term, o: Term, g: Term)

  function SubjectTerm(i: nat): (t: Term) { NamedNode(BASE + "/resource/2026/subject/" + Pad(i, 9)) }

  function PredicateTerm(i: nat): (t: Term) { NamedNode(BASE + "/ontology/2026/property/" + Pad(i, 4)) }

  function GraphTerm(i: nat): (t: Term) { NamedNode(BASE + "/graph/2026/named/" + Pad(i, 6)) }

  /** `tenths` of the objects are literals. */
  function ObjectTerm(i: nat, tenths: int): (t: Term) {
    if i % 10 < tenths then Literal("descriptive object value number " + Pad(i, 9))
    else NamedNode(BASE + "/resource/2026/object/" + Pad(i, 9))
  }

  /** Quad `i` of a dataset whose roles have the term counts `m`. */
  function QuadAt(i: nat, m: seq<nat>, tenths: int): (q: Quad)
    requires |m| == 4 && Positive(m)
  {
    Quad(SubjectTerm(i % m[0]), PredicateTerm(i % m[1]), ObjectTerm(i % m[2], tenths),
         if m[3] == 1 then DefaultGraph else GraphTerm(i % m[3]))
  }

  lemma TermsApart(i: nat, j: nat, tenths: int)
    ensures SubjectTerm(i) == SubjectTerm(j) <==> i == j
    ensures PredicateTerm(i) == PredicateTerm(j) <==> i == j
    ensures GraphTerm(i) == GraphTerm(j) <==> i == j
    ensures ObjectTerm(i, tenths) == ObjectTerm(j, tenths) <==> i == j
  {
    hide Pad;
    PaddedApart(BASE + "/resource/2026/subject/", i, j, 9);
    PaddedApart(BASE + "/ontology/2026/property/", i, j, 4);
    PaddedApart(BASE + "/graph/2026/named/", i, j, 6);
    PaddedApart("descriptive object value number ", i, j, 9);
    PaddedApart(BASE + "/resource/2026/object/", i, j, 9);
  }

  /** Two rows are the same quad exactly when they share every residue: a
      single graph is the default one, its residue always zero. */
  lemma SameQuad(m: seq<nat>, i: nat, j: nat, tenths: int)
    requires |m| == 4 && Positive(m)
    ensures QuadAt(i, m, tenths) == QuadAt(j, m, tenths) <==> SameResidues(m, i, j)
  {
    hide SubjectTerm, PredicateTerm, GraphTerm, ObjectTerm;
    TermsApart(i % m[0], j % m[0], tenths);
    TermsApart(i % m[1], j % m[1], tenths);
    TermsApart(i % m[2], j % m[2], tenths);
    TermsApart(i % m[3], j % m[3], tenths);
    assert m[3] == 1 ==> i % m[3] == 0 && j % m[3] == 0;
  }

  /** The generator accepts exactly the sizes for which every quad is distinct. */
  lemma DistinctQuads(m: seq<nat>, n: nat, tenths: int)
    requires |m| == 4 && Positive(m) && PairwiseCoprime(m)
    ensures (forall i: nat, j: nat :: i < j < n ==> QuadAt(i, m, tenths) != QuadAt(j, m, tenths)) <==> n <= Product(m)
  {
    hide QuadAt, SameResidues, PairwiseCoprime;
    DistinctResidues(m, n);
    forall i: nat, j: nat
      ensures QuadAt(i, m, tenths) == QuadAt(j, m, tenths) <==> SameResidues(m, i, j)
    {
      SameQuad(m, i, j, tenths);
    }
  }

  /** `n` distinct quads, or an error when the moduli cannot cover them. */
  method GenDataset(want: seq<nat>, n: nat, tenths: int) returns (r: Option<seq<Quad>>)
    requires |want| == 4 && Positive(want)
    ensures r.Some? <==> n <= Product(ModuliFor(want))
    ensures r.Some? ==> |r.value| == n && forall i :: 0 <= i < n ==> r.value[i] == QuadAt(i, ModuliFor(want), tenths)
    ensures r.Some? ==> forall i, j :: 0 <= i < j < n ==> r.value[i] != r.value[j]
  {
    hide QuadAt, Product, PairwiseCoprime, ModuliFor;
    r := Generate(want, n, n, tenths);
    ModuliAreCoprime(want);
    DistinctQuads(ModuliFor(want), n, tenths);
  }

  /** The first `take` quads of the same dataset, without the rest. */
  method GenDatasetPrefix(want: seq<nat>, n: nat, take: nat, tenths: int) returns (r: Option<seq<Quad>>)
    requires |want| == 4 && Positive(want)
    ensures r.Some? <==> n <= Product(ModuliFor(want))
    ensures r.Some? ==> |r.value| == Min(take, n)
    ensures r.Some? ==> forall i :: 0 <= i < |r.value| ==> r.value[i] == QuadAt(i, ModuliFor(want), tenths)
  {
    r := Generate(want, n, Min(take, n), tenths);
  }

  method Generate(want: seq<nat>, n: nat, k: nat, tenths: int) returns (r: Option<seq<Quad>>)
    requires |want| == 4 && Positive(want)
    ensures r.Some? <==> n <= Product(ModuliFor(want))
    ensures r.Some? ==> |r.value| == k && forall i :: 0 <= i < k ==> r.value[i] == QuadAt(i, ModuliFor(want), tenths)
  {
    hide QuadAt, Product, FirstCoprime, ModuliFor;
    var m := Moduli(want, n);
    if m.None? {
      return None;
    }
    var out := new Quad[k](_ => Quad(DefaultGraph, DefaultGraph, DefaultGraph, DefaultGraph));
    for i := 0 to k
      invariant forall j :: 0 <= j < i ==> out[j] == QuadAt(j, m.value, tenths)
    {
      out[i] := QuadAt(i, m.value, tenths);
    }
    r := Some(out[..]);
  }

  // ----- the same rows as text

  /** A term as the generator's port spells it. */
  function Spell(t: Term): (s: string) {
    match t
    case NamedNode(value) => "<" + value + ">"
    case Literal(value) => "\"" + value + "\""
    case DefaultGraph => ""
  }

  /** Spelling keeps terms apart, so the port's rows are distinct when the quads are. */
  lemma SpellApart(a: Term, b: Term)
    ensures Spell(a) == Spell(b) <==> a == b
  {
    assert !a.DefaultGraph? ==> Spell(a)[1..|Spell(a)| - 1] == a.value;
    assert !b.DefaultGraph? ==> Spell(b)[1..|Spell(b)| - 1] == b.value;
  }
}
