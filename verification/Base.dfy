/** The integers, options and orderings every other module speaks of. */
module Base {

  const U64_MAX: int := 0xFFFF_FFFF_FFFF_FFFF

  /** A 64-bit unsigned word. Row positions (`usize` on a 64-bit target) are
      plain naturals whose sums the well-formedness predicates keep below
      `U64_MAX`. */
  type u64 = x: int | 0 <= x <= 0xFFFF_FFFF_FFFF_FFFF

  type byte = x: int | 0 <= x < 256

  datatype Option<+T> = None | Some(value: T)

  function Min(a: int, b: int): (m: int) { if a <= b then a else b }

  function Max(a: int, b: int): (m: int) { if a <= b then b else a }

  function Pow2(k: nat): (p: nat)
    ensures p > 0
  {
    if k == 0 then 1 else 2 * Pow2(k - 1)
  }

  function DivCeil(a: nat, b: nat): (q: nat)
    requires b > 0
  {
    (a + b - 1) / b
  }

  ghost predicate Ascending(s: seq<u64>) {
    forall i, j :: 0 <= i <= j < |s| ==> s[i] <= s[j]
  }

  ghost predicate StrictlyAscending(s: seq<u64>) {
    forall i, j :: 0 <= i < j < |s| ==> s[i] < s[j]
  }

  /** `p` splits `s` into the values below `x` and those at or above it: what
      a lower bound of `x` is. */
  ghost predicate IsLower(s: seq<u64>, x: int, p: nat) {
    && p <= |s|
    && (forall k :: 0 <= k < p ==> s[k] < x)
    && (forall k :: p <= k < |s| ==> s[k] >= x)
  }

  /** `p` splits `s` into the values at most `x` and those above it: what an
      upper bound of `x` is. */
  ghost predicate IsUpper(s: seq<u64>, x: int, p: nat) {
    && p <= |s|
    && (forall k :: 0 <= k < p ==> s[k] <= x)
    && (forall k :: p <= k < |s| ==> s[k] > x)
  }

  /** The half-open run of the rows of `s` equal to `x`. */
  ghost predicate IsRun(s: seq<u64>, x: int, lo: nat, hi: nat) {
    IsLower(s, x, lo) && IsUpper(s, x, hi)
  }

  /** The same, counted from `base`. */
  ghost predicate IsRunFrom(s: seq<u64>, x: int, base: int, lo: int, hi: int) {
    base <= lo && base <= hi && IsRun(s, x, lo - base, hi - base)
  }

  /** Some position splits `s` at `x`: all a bound search needs of the order. */
  ghost predicate Splits(s: seq<u64>, x: int) {
    exists p: nat :: IsLower(s, x, p)
  }

  /** The rows equal to `x`, if any, lie together between those below and those above. */
  ghost predicate SplitsAround(s: seq<u64>, x: int) {
    Splits(s, x) && Splits(s, x + 1)
  }

  lemma {:induction false} AscendingSplits(s: seq<u64>, x: int)
    requires Ascending(s)
    ensures Splits(s, x)
    decreases |s|
  {
    if s == [] || s[|s| - 1] < x {
      assert IsLower(s, x, |s|);
    } else {
      var before := s[..|s| - 1];
      AscendingSplits(before, x);
      var p: nat :| IsLower(before, x, p);
      assert IsLower(s, x, p);
    }
  }

  lemma AscendingSplitsAround(s: seq<u64>, x: int)
    requires Ascending(s)
    ensures SplitsAround(s, x)
  {
    AscendingSplits(s, x);
    AscendingSplits(s, x + 1);
  }

  /** Where some position splits the values, a boundary between two neighbours is it. */
  lemma LowerFromNeighbours(s: seq<u64>, x: int, p: nat)
    requires Splits(s, x) && p <= |s|
    requires p > 0 ==> s[p - 1] < x
    requires p < |s| ==> s[p] >= x
    ensures IsLower(s, x, p)
  {
    var q: nat :| IsLower(s, x, q);
    assert p == q;
  }

  /** An upper bound is a lower bound of the next integer. */
  lemma UpperFromNeighbours(s: seq<u64>, x: int, p: nat)
    requires Splits(s, x + 1) && p <= |s|
    requires p > 0 ==> s[p - 1] <= x
    requires p < |s| ==> s[p] > x
    ensures IsUpper(s, x, p)
  {
    LowerFromNeighbours(s, x + 1, p);
  }

  /** Part of split values is split. */
  lemma PartSplits(s: seq<u64>, x: int, a: nat, b: nat)
    requires Splits(s, x) && a <= b <= |s|
    ensures Splits(s[a..b], x)
  {
    var p: nat :| IsLower(s, x, p);
    var part := s[a..b];
    var q: nat := if p <= a then 0 else if p <= b then p - a else b - a;
    assert forall k :: 0 <= k < b - a ==> part[k] == s[a + k];
    assert IsLower(part, x, q);
  }

  /** A bound is unique, so a search that meets it has found the bound. */
  lemma LowerIsUnique(s: seq<u64>, x: int, p: nat, q: nat)
    requires IsLower(s, x, p) && IsLower(s, x, q)
    ensures p == q
  {
    var k := Min(p, q);
    assert k < |s| ==> (s[k] < x <==> k < p);
  }

  function Repeat(value: u64, count: nat): (rows: seq<u64>)
    ensures |rows| == count && forall i :: 0 <= i < count ==> rows[i] == value
  {
    seq(count, _ => value)
  }

  /** Values per FastLanes chunk. */
  const FL_CHUNK: nat := 1024

  lemma RunIsOrdered(s: seq<u64>, x: int, lo: nat, hi: nat)
    requires IsRun(s, x, lo, hi)
    ensures lo <= hi
  {
    var k := Min(lo, hi);
    assert k < |s| ==> (s[k] < x <==> k < lo);
  }

  lemma MulMonotone(a: nat, b: nat, m: nat)
    requires a <= b
    ensures 0 <= a * m <= b * m
  {
    var d := b - a;
    assert (a + d) * m == a * m + d * m;
  }

  /** Of `chunks` pieces of `words` each, piece `c` lies inside. */
  lemma ChunkInBuffer(c: nat, chunks: nat, words: nat)
    requires c < chunks
    ensures 0 <= c * words <= (c + 1) * words <= chunks * words
    ensures (c + 1) * words == c * words + words
  {
    var rest := chunks - c - 1;
    assert (c + 1 + rest) * words == c * words + words + rest * words;
  }

  /** A sequence is its first elements and its last, and so is one it ends. */
  lemma SplitLast<T>(a: seq<T>, b: seq<T>)
    requires b != []
    ensures b == b[..|b| - 1] + [b[|b| - 1]]
    ensures a + b == a + b[..|b| - 1] + [b[|b| - 1]]
  {
  }

  lemma AppendIsAssociative<T>(a: seq<T>, b: seq<T>, c: seq<T>)
    ensures a + b + c == a + (b + c)
  {
  }
}
