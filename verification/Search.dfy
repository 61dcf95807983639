/** Bisection and interpolation over values read one at a time. A range is the
    sequence of what its reads would answer; a probe reads one element, so that
    a search verifying at all shows its probes stay inside. */
module Search {
  import opened Base

  const INTERPOLATION_STEPS: nat := 4
  const INTERPOLATION_MIN: nat := 16

  function Below(s: seq<u64>, x: int): (below: seq<bool>)
    ensures |below| == |s| && forall i :: 0 <= i < |s| ==> below[i] == (s[i] < x)
  {
    seq(|s|, i requires 0 <= i < |s| => s[i] < x)
  }

  function AtMost(s: seq<u64>, x: int): (atMost: seq<bool>)
    ensures |atMost| == |s| && forall i :: 0 <= i < |s| ==> atMost[i] == (s[i] <= x)
  {
    seq(|s|, i requires 0 <= i < |s| => s[i] <= x)
  }

  // ----- bisection

  /** Bisection of `lo..hi`. Whatever the order of the values, the answer has
      `below` on its left and not on its right, wherever those lie inside. */
  function Bisect(below: seq<bool>, lo: nat, hi: nat): (p: nat)
    requires lo <= hi <= |below|
    ensures lo <= p <= hi
    ensures lo < p ==> below[p - 1]
    ensures p < hi ==> !below[p]
    decreases hi - lo
  {
    if lo == hi then lo
    else
      var mid := lo + (hi - lo) / 2;
      if below[mid] then Bisect(below, mid + 1, hi) else Bisect(below, lo, mid)
  }

  function PartitionPoint(below: seq<bool>): (p: nat)
    ensures p <= |below|
    ensures 0 < p ==> below[p - 1]
    ensures p < |below| ==> !below[p]
  {
    Bisect(below, 0, |below|)
  }

  /** The loop the repository runs. */
  method Partition(below: seq<bool>) returns (lo: nat)
    ensures lo == PartitionPoint(below)
  {
    var hi;
    lo, hi := 0, |below|;
    while lo < hi
      invariant lo <= hi <= |below|
      invariant Bisect(below, lo, hi) == PartitionPoint(below)
    {
      var mid := lo + (hi - lo) / 2;
      if below[mid] {
        lo := mid + 1;
      } else {
        hi := mid;
      }
    }
  }

  lemma PartitionIsLower(s: seq<u64>, x: int)
    requires Splits(s, x)
    ensures IsLower(s, x, PartitionPoint(Below(s, x)))
  {
    LowerFromNeighbours(s, x, PartitionPoint(Below(s, x)));
  }

  // ----- the interpolating search

  /** The state of an interpolating search: the window `lo..hi` the answer lies
      in, the first position found holding a value above the needle, the values
      the probes read on each side of the window, and how many there were. */
  datatype Window = Window(lo: nat, hi: nat, past: nat, below: Option<u64>, at: Option<u64>, probes: nat)

  /** What every probe keeps, with no order among the values. */
  ghost predicate Bracketed(w: Window, s: seq<u64>, needle: u64) {
    && w.lo <= w.hi <= w.past <= |s|
    && (w.lo > 0 ==> s[w.lo - 1] < needle)
    && (w.hi < |s| ==> s[w.hi] >= needle)
    && (w.hi == 0 && |s| > 1 ==> s[1] >= needle)
    && (w.past < |s| ==> s[w.past] > needle)
    && (w.below.Some? ==> w.lo > 0 && w.below.value == s[w.lo - 1])
    && (w.at.Some? ==> w.hi < |s| && w.at.value == s[w.hi])
  }

  function Cap(past: nat, i: nat, v: u64, needle: u64): (p: nat) {
    if v > needle && i < past then i else past
  }

  /** Reads index `i` of the window and keeps the side the needle lies on. Index
      0 is read last, once index 1 bounds the window. */
  function Probe(w: Window, s: seq<u64>, i: nat, needle: u64): (r: Window)
    requires Bracketed(w, s, needle) && w.lo <= i < w.hi
    requires i == 0 ==> w.hi == 1
    ensures Bracketed(r, s, needle)
    ensures w.lo <= r.lo <= r.hi <= w.hi
    ensures r.hi - r.lo < w.hi - w.lo && r.hi - r.lo <= Max(i - w.lo, w.hi - i - 1)
    ensures r.probes == w.probes + 1
    ensures w.below.Some? ==> r.below.Some?
    ensures w.at.Some? ==> r.at.Some?
  {
    var past := Cap(w.past, i, s[i], needle);
    if s[i] < needle then w.(lo := i + 1, below := Some(s[i]), past := past, probes := w.probes + 1)
    else w.(hi := i, at := Some(s[i]), past := past, probes := w.probes + 1)
  }

  /** The middle of a window that is not empty. */
  function Middle(lo: nat, hi: nat): (mid: nat)
    requires lo < hi
    ensures lo <= mid < hi && (mid == 0 ==> hi == 1)
    ensures Max(mid - lo, hi - mid - 1) <= (hi - lo) / 2
  {
    lo + (hi - lo) / 2
  }

  lemma WindowInside(w: Window, s: seq<u64>, needle: u64)
    requires Bracketed(w, s, needle)
    ensures w.lo <= w.hi <= |s|
  {
  }

  /** `r` lies inside `w`, and took no more probes than halving `w` down to it. */
  ghost predicate Narrows(w: Window, r: Window) {
    w.lo <= r.lo <= r.hi <= w.hi && r.probes + Halvings(r.hi - r.lo) <= w.probes + Halvings(w.hi - w.lo)
  }

  lemma NarrowsTwice(a: Window, b: Window, c: Window)
    requires Narrows(a, b) && Narrows(b, c)
    ensures Narrows(a, c)
  {
  }

  /** A probe of the middle halves the window. */
  lemma MiddleNarrows(w: Window, s: seq<u64>, needle: u64)
    requires Bracketed(w, s, needle) && w.lo < w.hi
    ensures Narrows(w, Probe(w, s, Middle(w.lo, w.hi), needle))
  {
    hide Bracketed, Halvings, Probe, Middle;
    var next := Probe(w, s, Middle(w.lo, w.hi), needle);
    HalvingsOfHalf(next.hi - next.lo, w.hi - w.lo);
  }

  lemma StillNarrows(w: Window, s: seq<u64>, needle: u64)
    requires Bracketed(w, s, needle)
    ensures Narrows(w, w)
  {
  }

  lemma HalvingsOfHalf(a: nat, b: nat)
    requires b > 0 && a <= b / 2
    ensures Halvings(a) + 1 <= Halvings(b)
  {
    HalvingsMonotone(a, b / 2);
  }

  /** The first phase: closed, or with a value read on each side. */
  function Straddle(w: Window, s: seq<u64>, needle: u64): (r: Window)
    requires Bracketed(w, s, needle)
    ensures Bracketed(r, s, needle) && Narrows(w, r)
    ensures r.lo == r.hi || (r.below.Some? && r.at.Some?)
    decreases w.hi - w.lo
  {
    hide Probe, Bracketed, Narrows, Middle;
    WindowInside(w, s, needle);
    if w.lo < w.hi && (w.below.None? || w.at.None?) then
      var next := Probe(w, s, Middle(w.lo, w.hi), needle);
      MiddleNarrows(w, s, needle);
      WindowInside(next, s, needle);
      NarrowsTwice(w, next, Straddle(next, s, needle));
      Straddle(next, s, needle)
    else
      StillNarrows(w, s, needle);
      w
  }

  /** A position inside the window, in proportion to the needle's place between
      the two values. */
  function SplitPoint(lo: nat, hi: nat, below: u64, at: u64, needle: u64): (split: nat)
    requires 0 < lo < hi && below < needle <= at
    ensures lo <= split < hi
  {
    var ahead := (needle - below) * (hi - lo + 1) / (at - below);
    QuotientBound(needle - below, hi - lo + 1, at - below);
    Max(lo, Min(lo - 1 + ahead, hi - 1))
  }

  lemma QuotientBound(a: nat, b: nat, c: nat)
    requires 0 < a <= c
    ensures 0 <= a * b / c <= b
  {
    assert a * b <= c * b;
    assert a * b / c <= c * b / c;
    assert c * b / c == b;
  }

  /** The interpolation's product fits the 128 bits it is taken in, and the
      position it proposes fits an index, for every window an index can span. */
  lemma SplitFits(lo: nat, hi: nat, below: u64, at: u64, needle: u64)
    requires 0 < lo < hi <= U64_MAX && below < needle <= at
    ensures (needle - below) * (hi - lo + 1) < 0x1_0000_0000_0000_0000_0000_0000_0000_0000
    ensures lo - 1 + (needle - below) * (hi - lo + 1) / (at - below) <= U64_MAX
  {
    QuotientBound(needle - below, hi - lo + 1, at - below);
    ProductBound(needle - below, hi - lo + 1);
  }

  lemma ProductBound(a: nat, b: nat)
    requires a <= U64_MAX && b <= U64_MAX
    ensures a * b < 0x1_0000_0000_0000_0000_0000_0000_0000_0000
  {
    assert a * b <= U64_MAX * b;
  }

  /** The second phase: at most `steps` probes, each inside the window. */
  function Interpolate(w: Window, s: seq<u64>, needle: u64, steps: nat): (r: Window)
    requires Bracketed(w, s, needle)
    ensures Bracketed(r, s, needle)
    ensures w.lo <= r.lo <= r.hi <= w.hi
    ensures r.probes <= w.probes + steps
    decreases w.hi - w.lo
  {
    hide SplitPoint, Halvings, Probe;
    var width := w.hi - w.lo;
    if steps == 0 || w.below.None? || w.at.None? then w
    else if width <= INTERPOLATION_MIN || w.at.value - w.below.value < width / 4 then w
    else
      var split := SplitPoint(w.lo, w.hi, w.below.value, w.at.value, needle);
      var next := Probe(w, s, split, needle);
      Interpolate(next, s, needle, steps - 1)
  }

  /** The last phase: the window closed. */
  function Finish(w: Window, s: seq<u64>, needle: u64): (r: Window)
    requires Bracketed(w, s, needle)
    ensures Bracketed(r, s, needle) && Narrows(w, r) && r.lo == r.hi
    decreases w.hi - w.lo
  {
    hide Probe, Bracketed, Narrows, Middle;
    WindowInside(w, s, needle);
    if w.lo < w.hi then
      var next := Probe(w, s, Middle(w.lo, w.hi), needle);
      MiddleNarrows(w, s, needle);
      WindowInside(next, s, needle);
      NarrowsTwice(w, next, Finish(next, s, needle));
      Finish(next, s, needle)
    else
      StillNarrows(w, s, needle);
      w
  }

  function WholeRange(n: nat): Window { Window(0, n, n, None, None, 0) }

  /** `lo` has a value below the needle on its left and none on its right, and
      `past` is a cap on the needle's rows. */
  ghost predicate Located(r: Window, s: seq<u64>, needle: u64) {
    && r.lo <= r.past <= |s|
    && (r.lo > 0 ==> s[r.lo - 1] < needle)
    && (r.lo < |s| ==> s[r.lo] >= needle)
    && (r.past < |s| ==> s[r.past] > needle)
    && (r.lo == 0 && |s| > 1 ==> s[1] >= needle)
  }

  /** The interpolating search: the answer is `lo`, the cap on the needle's
      rows is `past`. The contract holds with no order among the values. */
  function SearchCapped(s: seq<u64>, needle: u64): (r: Window)
    ensures Located(r, s, needle)
    ensures r.probes <= Halvings(|s|) + INTERPOLATION_STEPS
  {
    hide Halvings, Bracketed, Straddle, Interpolate, Finish, Located, Narrows, WholeRange;
    WholeIsBracketed(s, needle);
    var straddled := Straddle(WholeRange(|s|), s, needle);
    var split := Interpolate(straddled, s, needle, INTERPOLATION_STEPS);
    var r := Finish(split, s, needle);
    BracketSays(r, s, needle);
    ProbesAddUp(|s|, straddled, split, r);
    r
  }

  /** The probes of the three phases. */
  lemma ProbesAddUp(n: nat, straddled: Window, split: Window, r: Window)
    requires Narrows(WholeRange(n), straddled) && Narrows(split, r)
    requires straddled.lo <= split.lo <= split.hi <= straddled.hi && split.probes <= straddled.probes + INTERPOLATION_STEPS
    ensures r.probes <= Halvings(n) + INTERPOLATION_STEPS
  {
    hide Halvings;
    HalvingsMonotone(split.hi - split.lo, straddled.hi - straddled.lo);
  }

  lemma WholeIsBracketed(s: seq<u64>, needle: u64)
    ensures Bracketed(WholeRange(|s|), s, needle)
  {
  }

  /** What a closed window says of its answer and cap. */
  lemma BracketSays(r: Window, s: seq<u64>, needle: u64)
    requires Bracketed(r, s, needle) && r.lo == r.hi
    ensures Located(r, s, needle)
  {
  }

  /** The most probes a bisection of `n` values takes. */
  function Halvings(n: nat): (probes: nat) {
    if n == 0 then 0 else 1 + Halvings(n / 2)
  }

  lemma {:induction false} HalvingsMonotone(a: nat, b: nat)
    requires a <= b
    ensures Halvings(a) <= Halvings(b)
  {
    if a > 0 {
      HalvingsMonotone(a / 2, b / 2);
    }
  }

  /** `Halvings` is the logarithm it stands for: at most `k` exactly below the
      `k`-th power of two. */
  lemma {:induction false} HalvingsIsLogarithm(n: nat, k: nat)
    ensures Halvings(n) <= k <==> n < Pow2(k)
  {
    if n > 0 && k > 0 {
      HalvingsIsLogarithm(n / 2, k - 1);
    }
  }

  lemma StraddleStep(w: Window, s: seq<u64>, needle: u64)
    requires Bracketed(w, s, needle)
    ensures if w.lo < w.hi && (w.below.None? || w.at.None?)
            then Straddle(w, s, needle) == Straddle(Probe(w, s, Middle(w.lo, w.hi), needle), s, needle)
            else Straddle(w, s, needle) == w
  {
    hide Probe, Halvings, Bracketed, Middle;
    WindowInside(w, s, needle);
  }

  lemma InterpolateOneSided(w: Window, s: seq<u64>, needle: u64)
    requires Bracketed(w, s, needle) && (w.below.None? || w.at.None?)
    ensures Interpolate(w, s, needle, INTERPOLATION_STEPS) == w
  {
  }

  lemma InterpolateStep(w: Window, s: seq<u64>, needle: u64, left: nat)
    requires Bracketed(w, s, needle) && w.below.Some? && w.at.Some?
    ensures var width := w.hi - w.lo;
            if left == 0 || width <= INTERPOLATION_MIN || w.at.value - w.below.value < width / 4
            then Interpolate(w, s, needle, left) == w
            else
              var split := SplitPoint(w.lo, w.hi, w.below.value, w.at.value, needle);
              Interpolate(w, s, needle, left) == Interpolate(Probe(w, s, split, needle), s, needle, left - 1)
  {
    hide Probe, SplitPoint;
  }

  /** The three loops the repository runs, counting their probes. */
  method SearchAscendingCapped(s: seq<u64>, needle: u64) returns (lo: nat, past: nat, probes: nat)
    ensures var r := SearchCapped(s, needle); lo == r.lo && past == r.past && probes == r.probes
  {
    hide SplitPoint, Halvings, Probe, Straddle, Interpolate, Middle;
    var w := WholeRange(|s|);
    ghost var straddled := Straddle(w, s, needle);
    while w.lo < w.hi && (w.below.None? || w.at.None?)
      invariant Bracketed(w, s, needle) && Straddle(w, s, needle) == straddled
      decreases w.hi - w.lo
    {
      StraddleStep(w, s, needle);
      w := Probe(w, s, Middle(w.lo, w.hi), needle);
    }
    StraddleStep(w, s, needle);
    ghost var split := Interpolate(straddled, s, needle, INTERPOLATION_STEPS);
    if w.below.Some? && w.at.Some? {
      var left := INTERPOLATION_STEPS;
      while left > 0
        invariant Bracketed(w, s, needle) && Interpolate(w, s, needle, left) == split
        invariant w.below.Some? && w.at.Some?
      {
        InterpolateStep(w, s, needle, left);
        var width := w.hi - w.lo;
        if width <= INTERPOLATION_MIN || w.at.value - w.below.value < width / 4 {
          break;
        }
        w := Probe(w, s, SplitPoint(w.lo, w.hi, w.below.value, w.at.value, needle), needle);
        left := left - 1;
      }
      InterpolateStep(w, s, needle, left);
    } else {
      InterpolateOneSided(w, s, needle);
    }
    assert w == split;
    while w.lo < w.hi
      invariant Bracketed(w, s, needle) && Finish(w, s, needle) == Finish(split, s, needle)
      decreases w.hi - w.lo
    {
      w := Probe(w, s, Middle(w.lo, w.hi), needle);
    }
    lo, past, probes := w.lo, w.past, w.probes;
  }

  // ----- over ascending values

  /** Where some position splits the values at the needle, the answer is that
      position, the one bisection gives, and the cap covers every row equal to
      the needle. */
  lemma SearchIsLower(s: seq<u64>, needle: u64)
    requires Splits(s, needle)
    ensures var r := SearchCapped(s, needle);
            && r.lo == PartitionPoint(Below(s, needle))
            && IsLower(s, needle, r.lo)
            && (forall p: nat :: IsUpper(s, needle, p) ==> r.lo <= p <= r.past)
  {
    hide SearchCapped, PartitionPoint;
    var r := SearchCapped(s, needle);
    LowerFromNeighbours(s, needle, r.lo);
    PartitionIsLower(s, needle);
    LowerIsUnique(s, needle, r.lo, PartitionPoint(Below(s, needle)));
  }

  /** Both bounds from one search: the upper is searched for below the cap
      only. With no order among the values both are still in range. */
  function CappedBounds(s: seq<u64>, needle: u64): (r: (nat, nat))
    ensures r.0 <= r.1 <= |s|
    ensures SplitsAround(s, needle) ==> IsRun(s, needle, r.0, r.1)
  {
    hide SearchCapped, PartitionPoint;
    var found := SearchCapped(s, needle);
    var r := (found.lo, found.lo + PartitionPoint(AtMost(s[found.lo..found.past], needle)));
    assert SplitsAround(s, needle) ==> IsRun(s, needle, r.0, r.1) by {
      if SplitsAround(s, needle) {
        SearchIsLower(s, needle);
        UpperFromNeighbours(s, needle, r.1);
      }
    }
    r
  }

  /** The search most callers run: exact wherever a position splits the values,
      in range over any. */
  function SearchAscending(s: seq<u64>, needle: u64): (p: nat)
    ensures p <= |s|
    ensures Splits(s, needle) ==> IsLower(s, needle, p)
  {
    hide SearchCapped, IsLower;
    assert Splits(s, needle) ==> IsLower(s, needle, SearchCapped(s, needle).lo) by {
      if Splits(s, needle) {
        SearchIsLower(s, needle);
      }
    }
    SearchCapped(s, needle).lo
  }

  function FirstAtLeast(s: seq<u64>, needle: u64): (p: nat)
    ensures p <= |s|
    ensures Splits(s, needle) ==> IsLower(s, needle, p)
  {
    hide PartitionPoint, IsLower;
    assert Splits(s, needle) ==> IsLower(s, needle, PartitionPoint(Below(s, needle))) by {
      if Splits(s, needle) {
        PartitionIsLower(s, needle);
      }
    }
    PartitionPoint(Below(s, needle))
  }
}
