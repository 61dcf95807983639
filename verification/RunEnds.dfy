/** Run-end encoding over a sliced view: `ends` and `values` are kept whole,
    `offset` and `len` say which rows the node still shows. */
module RunEnds {
  import opened Base
  import opened Search

  /** Run ends as the encoding holds them: every run has a row, but for a first
      one that ends at row 0. */
  ghost predicate RunsAscend(ends: seq<u64>) {
    StrictlyAscending(ends)
  }

  /** The rows run-end encoding stands for: each value as often as its run is long. */
  ghost function Expand(ends: seq<u64>, values: seq<u64>): (rows: seq<u64>)
    requires |ends| == |values| && RunsAscend(ends)
    ensures |rows| == if ends == [] then 0 else ends[|ends| - 1]
  {
    if ends == [] then []
    else
      var last := |ends| - 1;
      var before := Expand(ends[..last], values[..last]);
      before + Repeat(values[last], ends[last] - |before|)
  }

  /** Row `row` lies in run `run`. */
  ghost predicate InRun(ends: seq<u64>, run: nat, row: nat) {
    run < |ends| && (run > 0 ==> ends[run - 1] <= row) && row < ends[run]
  }

  /** A row of the expansion holds the value of the run it lies in. */
  lemma {:induction false} ExpandAt(ends: seq<u64>, values: seq<u64>, run: nat, row: nat)
    requires |ends| == |values| && RunsAscend(ends) && InRun(ends, run, row)
    ensures row < |Expand(ends, values)| && Expand(ends, values)[row] == values[run]
  {
    var last := |ends| - 1;
    if run < last {
      ExpandAt(ends[..last], values[..last], run, row);
    }
  }

  // ----- the view

  /** What the encoding asks of a view: the runs reach its last row. */
  ghost predicate View(ends: seq<u64>, values: seq<u64>, offset: nat, len: nat) {
    && |ends| == |values|
    && RunsAscend(ends)
    && offset + len <= U64_MAX
    && (len > 0 ==> |ends| > 0 && offset + len <= ends[|ends| - 1])
  }

  ghost function Rows(ends: seq<u64>, values: seq<u64>, offset: nat, len: nat): (rows: seq<u64>)
    requires View(ends, values, offset, len)
    ensures |rows| == len
  {
    if len == 0 then [] else Expand(ends, values)[offset..offset + len]
  }

  /** The run holding position `pos` of the unsliced rows. */
  function RunOf(ends: seq<u64>, pos: nat): (run: nat)
    ensures run <= |ends|
    ensures run > 0 ==> ends[run - 1] <= pos
    ensures run < |ends| ==> pos < ends[run]
  {
    PartitionPoint(AtMost(ends, pos))
  }

  lemma RunOfHolds(ends: seq<u64>, values: seq<u64>, offset: nat, len: nat, i: nat)
    requires View(ends, values, offset, len) && i < len
    ensures InRun(ends, RunOf(ends, offset + i), offset + i) && RunOf(ends, offset + i) < |values|
    ensures Rows(ends, values, offset, len)[i] == values[RunOf(ends, offset + i)]
  {
    hide RunOf;
    ExpandAt(ends, values, RunOf(ends, offset + i), offset + i);
  }

  /** `first` and `span` name the runs between those of the view's first and last rows. */
  ghost predicate Overlap(ends: seq<u64>, offset: nat, len: nat, first: nat, span: nat) {
    && first + span <= |ends|
    && (len == 0 ==> first == span == 0)
    && (len > 0 ==> span > 0 && InRun(ends, first, offset) && InRun(ends, first + span - 1, offset + len - 1))
  }

  /** A view of all the rows of runs whose first has none. */
  predicate ShowsEmptyRun(ends: seq<u64>, offset: nat, len: nat) {
    len > 0 && offset == 0 && |ends| > 0 && ends[0] == 0 && ends[|ends| - 1] == len
  }

  /** The runs overlapping the view, as the first of them and how many. A view
      of all the rows is taken to overlap every run. */
  function WindowRuns(ends: seq<u64>, ghost values: seq<u64>, offset: nat, len: nat): (r: (nat, nat))
    requires View(ends, values, offset, len)
    ensures r.0 + r.1 <= |ends|
    ensures !ShowsEmptyRun(ends, offset, len) ==> Overlap(ends, offset, len, r.0, r.1)
  {
    hide RunOf, InRun, RunsAscend;
    if len == 0 then (0, 0)
    else if offset == 0 && |ends| > 0 && ends[|ends| - 1] == len then
      WholeOverlaps(ends, len);
      (0, |ends|)
    else
      var first := RunOf(ends, offset);
      var last := RunOf(ends, offset + len - 1);
      SearchedOverlap(ends, values, offset, len);
      (first, Min(last + 1, |ends|) - first)
  }

  lemma WholeOverlaps(ends: seq<u64>, len: nat)
    requires RunsAscend(ends) && |ends| > 0 && len > 0 && ends[|ends| - 1] == len
    ensures ends[0] > 0 ==> InRun(ends, 0, 0) && InRun(ends, |ends| - 1, len - 1)
  {
    RunsOrdered(ends, |ends| - 1);
  }

  lemma SearchedOverlap(ends: seq<u64>, values: seq<u64>, offset: nat, len: nat)
    requires View(ends, values, offset, len) && len > 0
    ensures var (first, last) := (RunOf(ends, offset), RunOf(ends, offset + len - 1));
            first <= last < |ends| && InRun(ends, first, offset) && InRun(ends, last, offset + len - 1)
  {
    hide RunOf, Rows;
    RunOfHolds(ends, values, offset, len, 0);
    RunOfHolds(ends, values, offset, len, len - 1);
    RunsFollowRows(ends, RunOf(ends, offset), offset, RunOf(ends, offset + len - 1), offset + len - 1);
  }

  /** Run `run` starts where the one before it ends, at or past row 0. */
  lemma RunsOrdered(ends: seq<u64>, run: nat)
    requires RunsAscend(ends) && run < |ends|
    ensures run > 0 ==> ends[run - 1] < ends[run]
  {
  }

  /** Rows in order lie in runs in order, and the earlier of two runs ends
      before the later one's rows. */
  lemma RunsFollowRows(ends: seq<u64>, a: nat, row: nat, b: nat, later: nat)
    requires RunsAscend(ends) && InRun(ends, a, row) && InRun(ends, b, later)
    ensures row <= later ==> a <= b
    ensures a < b ==> ends[a] <= ends[b - 1] <= later
  {
    if b < a {
      assert ends[b] <= ends[a - 1];
    } else if a < b {
      assert a == b - 1 || ends[a] < ends[b - 1];
    }
  }

  /** Where a run starts among the view's rows, at most one past them. */
  function RunStart(ends: seq<u64>, run: nat, offset: nat, len: nat): (row: nat)
    requires run <= |ends|
    ensures row <= len
  {
    if run == 0 then 0 else Min(Max(ends[run - 1] - offset, 0), len)
  }

  /** Every overlapping run has a row in the view, where its value is read. */
  lemma RunHasRow(ends: seq<u64>, values: seq<u64>, offset: nat, len: nat, first: nat, span: nat, run: nat)
    returns (row: nat)
    requires View(ends, values, offset, len) && Overlap(ends, offset, len, first, span)
    requires first <= run < first + span
    ensures row < len && InRun(ends, run, offset + row)
    ensures Rows(ends, values, offset, len)[row] == values[run]
  {
    RunRowInside(ends, offset, len, first, span, run);
    row := if run == first then 0 else ends[run - 1] - offset;
    hide RunsAscend, Overlap, InRun;
    ExpandAt(ends, values, run, offset + row);
  }

  /** An overlapping run's first row in the view. */
  lemma RunRowInside(ends: seq<u64>, offset: nat, len: nat, first: nat, span: nat, run: nat)
    requires RunsAscend(ends) && Overlap(ends, offset, len, first, span) && first <= run < first + span
    ensures run > first ==> offset <= ends[run - 1]
    ensures var row := if run == first then 0 else ends[run - 1] - offset;
            row < len && InRun(ends, run, offset + row)
  {
    var last := first + span - 1;
    if first < run {
      assert ends[first] <= ends[run - 1];
    }
    if run < last {
      assert ends[run] <= ends[last - 1];
    }
    RunsOrdered(ends, run);
  }

  /** The overlapping runs' values split where the view's rows do, whatever the
      values of the runs outside it. */
  lemma OverlappingValuesSplit(ends: seq<u64>, values: seq<u64>, offset: nat, len: nat, first: nat, span: nat, x: int)
    requires View(ends, values, offset, len) && Overlap(ends, offset, len, first, span)
    requires Splits(Rows(ends, values, offset, len), x)
    ensures Splits(values[first..first + span], x)
  {
    hide Rows, RunsAscend, InRun, IsLower;
    var p: nat :| IsLower(Rows(ends, values, offset, len), x, p);
    var below := seq(span, i requires 0 <= i < span => values[first + i] < x);
    var k := Search.PartitionPoint(below);
    OverlappingValuesBelow(ends, values, offset, len, first, span, x, p, k);
  }

  lemma OverlappingValuesBelow(ends: seq<u64>, values: seq<u64>, offset: nat, len: nat, first: nat, span: nat, x: int, p: nat, k: nat)
    requires View(ends, values, offset, len) && Overlap(ends, offset, len, first, span) && k <= span
    requires IsLower(Rows(ends, values, offset, len), x, p)
    requires k > 0 ==> values[first + k - 1] < x
    requires k < span ==> values[first + k] >= x
    ensures IsLower(values[first..first + span], x, k)
  {
    hide Rows, RunsAscend;
    var window := values[first..first + span];
    forall i | 0 <= i < span
      ensures window[i] < x <==> i < k
    {
      if i < k - 1 {
        RunsInOrder(ends, values, offset, len, first, span, x, p, first + i, first + k - 1);
      } else if i > k {
        RunsInOrder(ends, values, offset, len, first, span, x, p, first + k, first + i);
      }
    }
  }

  /** Of two overlapping runs the later is below `x` only when the earlier is. */
  lemma RunsInOrder(ends: seq<u64>, values: seq<u64>, offset: nat, len: nat, first: nat, span: nat, x: int, p: nat, i: nat, j: nat)
    requires View(ends, values, offset, len) && Overlap(ends, offset, len, first, span) && first <= i < j < first + span
    requires IsLower(Rows(ends, values, offset, len), x, p)
    ensures values[j] < x ==> values[i] < x
  {
    hide Rows, RunsAscend;
    var a := RunHasRow(ends, values, offset, len, first, span, i);
    var b := RunHasRow(ends, values, offset, len, first, span, j);
    RunsFollowRows(ends, i, offset + a, j, offset + b);
    RunsFollowRows(ends, j, offset + b, i, offset + a);
  }

  /** A view row precedes a run's clamped start exactly when it lies in an earlier run. */
  lemma BeforeRunStart(ends: seq<u64>, offset: nat, len: nat, run: nat, own: nat, row: nat)
    requires RunsAscend(ends) && run <= |ends| && row < len && InRun(ends, own, offset + row)
    ensures row < RunStart(ends, run, offset, len) <==> own < run
  {
    if own < run {
      assert own == run - 1 || ends[own] <= ends[run - 1];
    } else if run > 0 {
      assert run == own || ends[run - 1] <= ends[own - 1];
    }
  }

  /** Splitting the overlapping runs' values splits the view's rows at the
      start of the run split at. */
  lemma RunSplitIsRowSplit(ends: seq<u64>, values: seq<u64>, offset: nat, len: nat, first: nat, span: nat, x: int, k: nat)
    requires View(ends, values, offset, len) && Overlap(ends, offset, len, first, span)
    requires IsLower(values[first..first + span], x, k)
    ensures IsLower(Rows(ends, values, offset, len), x, RunStart(ends, first + k, offset, len))
  {
    hide Rows, RunStart, RunOf, RunsAscend;
    var window := values[first..first + span];
    forall row | 0 <= row < len
      ensures Rows(ends, values, offset, len)[row] < x <==> row < RunStart(ends, first + k, offset, len)
    {
      RunOfHolds(ends, values, offset, len, row);
      var own := RunOf(ends, offset + row);
      BeforeRunStart(ends, offset, len, first + k, own, row);
      RunsFollowRows(ends, first, offset, own, offset + row);
      RunsFollowRows(ends, own, offset + row, first + span - 1, offset + len - 1);
      assert window[own - first] == values[own];
    }
  }

  // ----- the bounds

  function LowerBound(ends: seq<u64>, values: seq<u64>, offset: nat, len: nat, needle: u64): (row: nat)
    requires View(ends, values, offset, len)
    ensures row <= len
  {
    hide SearchCapped, WindowRuns;
    var (first, span) := WindowRuns(ends, values, offset, len);
    var k := SearchCapped(values[first..first + span], needle).lo;
    RunStart(ends, first + k, offset, len)
  }

  /** Exact on every view, one that shows an empty first run included: no row
      lies between the starts of that run and the next. */
  lemma LowerBoundExact(ends: seq<u64>, values: seq<u64>, offset: nat, len: nat, needle: u64)
    requires View(ends, values, offset, len) && Splits(Rows(ends, values, offset, len), needle)
    ensures IsLower(Rows(ends, values, offset, len), needle, LowerBound(ends, values, offset, len, needle))
  {
    hide SearchCapped, WindowRuns, Rows, RunStart, RunsAscend, Overlap, Located;
    var (first, span) := WindowRuns(ends, values, offset, len);
    var window := values[first..first + span];
    var k := SearchCapped(window, needle).lo;
    LocatedInside(window, needle);
    if ShowsEmptyRun(ends, offset, len) {
      WholeWindow(ends, values, offset, len);
      TailFound(ends, values, len, needle);
      RunSplitIsRowSplit(ends, values, 0, len, 1, |ends| - 1, needle, OneLess(k));
      EmptyRunStart(ends, len);
    } else {
      OverlappingValuesSplit(ends, values, offset, len, first, span, needle);
      SearchIsLower(window, needle);
      RunSplitIsRowSplit(ends, values, offset, len, first, span, needle, k);
    }
  }

  lemma LocatedInside(s: seq<u64>, needle: u64)
    ensures SearchCapped(s, needle).lo <= |s|
  {
    hide SearchCapped;
  }

  /** A view of all the rows searches every run. */
  lemma WholeWindow(ends: seq<u64>, values: seq<u64>, offset: nat, len: nat)
    requires View(ends, values, offset, len) && ShowsEmptyRun(ends, offset, len)
    ensures offset == 0 && WindowRuns(ends, values, offset, len) == (0, |ends|) && values[0..|ends|] == values
    ensures |ends| > 1 && Overlap(ends, 0, len, 1, |ends| - 1)
  {
    hide RunOf;
    RunsOrdered(ends, |ends| - 1);
    RunsOrdered(ends, 1);
  }

  function OneLess(k: nat): (r: nat) { if k == 0 then 0 else k - 1 }

  lemma EmptyRunStart(ends: seq<u64>, len: nat)
    requires ShowsEmptyRun(ends, 0, len)
    ensures RunStart(ends, 0, 0, len) == RunStart(ends, 1, 0, len) == 0
  {
  }

  /** Over an empty first run the search finds the split of the other runs'
      values: the first run's own, which may be any, it never takes for theirs. */
  lemma TailFound(ends: seq<u64>, values: seq<u64>, len: nat, needle: u64)
    requires View(ends, values, 0, len) && ShowsEmptyRun(ends, 0, len) && Splits(Rows(ends, values, 0, len), needle)
    ensures |values| > 1 && IsLower(values[1..1 + (|ends| - 1)], needle, OneLess(SearchCapped(values, needle).lo))
  {
    hide SearchCapped, Rows;
    WholeWindow(ends, values, 0, len);
    OverlappingValuesSplit(ends, values, 0, len, 1, |ends| - 1, needle);
    var k := SearchCapped(values, needle).lo;
    var tail := values[1..1 + (|ends| - 1)];
    assert k > 1 ==> tail[k - 2] == values[k - 1];
    LowerFromNeighbours(tail, needle, OneLess(k));
  }

  /** Where the needle's runs end, from run `k` on: more than one may hold it. */
  function PastRun(window: seq<u64>, k: nat, needle: u64): (past: nat)
    requires k <= |window|
    ensures k <= past <= |window|
  {
    if k == |window| || window[k] != needle then k
    else if k + 1 == |window| || window[k + 1] > needle then k + 1
    else k + 1 + PartitionPoint(AtMost(window[k + 1..], needle))
  }

  lemma PastRunIsUpper(window: seq<u64>, k: nat, needle: u64)
    requires Splits(window, needle + 1) && IsLower(window, needle, k)
    ensures IsUpper(window, needle, PastRun(window, k, needle))
  {
    hide PartitionPoint;
    UpperFromNeighbours(window, needle, PastRun(window, k, needle));
  }

  /** One search of the overlapping runs, both bounds from `ends`. */
  function Bounds(ends: seq<u64>, values: seq<u64>, offset: nat, len: nat, needle: u64): (r: (nat, nat))
    requires View(ends, values, offset, len)
    ensures r.0 <= len && r.1 <= len
  {
    hide SearchCapped, WindowRuns, PastRun;
    var (first, span) := WindowRuns(ends, values, offset, len);
    var window := values[first..first + span];
    var k := SearchCapped(window, needle).lo;
    (RunStart(ends, first + k, offset, len), RunStart(ends, first + PastRun(window, k, needle), offset, len))
  }

  /** An empty first run whose value lies above the needle hides the needle's
      rows from the search for both bounds: it stops at that run, whose value is
      not the needle. */
  predicate HidesNeedle(ends: seq<u64>, values: seq<u64>, offset: nat, len: nat, needle: u64) {
    ShowsEmptyRun(ends, offset, len) && |values| > 1 && values[0] > needle && values[1] == needle
  }

  lemma BoundsExact(ends: seq<u64>, values: seq<u64>, offset: nat, len: nat, needle: u64)
    requires View(ends, values, offset, len) && SplitsAround(Rows(ends, values, offset, len), needle)
    requires !HidesNeedle(ends, values, offset, len, needle)
    ensures var r := Bounds(ends, values, offset, len, needle);
            IsRun(Rows(ends, values, offset, len), needle, r.0, r.1)
  {
    hide SearchCapped, PartitionPoint, WindowRuns, PastRun, Rows, RunStart, RunsAscend, Overlap, Located, LowerBound;
    LowerBoundExact(ends, values, offset, len, needle);
    LowerBoundIsFirst(ends, values, offset, len, needle);
    var (first, span) := WindowRuns(ends, values, offset, len);
    var window := values[first..first + span];
    var k := SearchCapped(window, needle).lo;
    LocatedInside(window, needle);
    var past := PastRun(window, k, needle);
    if ShowsEmptyRun(ends, offset, len) {
      WholeWindow(ends, values, offset, len);
      TailPast(ends, values, len, needle);
      RunSplitIsRowSplit(ends, values, 0, len, 1, |ends| - 1, needle + 1, OneLess(past));
      EmptyRunStart(ends, len);
    } else {
      OverlappingValuesSplit(ends, values, offset, len, first, span, needle);
      OverlappingValuesSplit(ends, values, offset, len, first, span, needle + 1);
      SearchIsLower(window, needle);
      PastRunIsUpper(window, k, needle);
      RunSplitIsRowSplit(ends, values, offset, len, first, span, needle + 1, past);
    }
  }

  lemma LowerBoundIsFirst(ends: seq<u64>, values: seq<u64>, offset: nat, len: nat, needle: u64)
    requires View(ends, values, offset, len)
    ensures Bounds(ends, values, offset, len, needle).0 == LowerBound(ends, values, offset, len, needle)
  {
    hide SearchCapped, WindowRuns, PastRun, RunStart;
  }

  /** Over an empty first run that does not hide the needle, the run past it
      splits the other runs' values above it. */
  lemma TailPast(ends: seq<u64>, values: seq<u64>, len: nat, needle: u64)
    requires View(ends, values, 0, len) && ShowsEmptyRun(ends, 0, len) && SplitsAround(Rows(ends, values, 0, len), needle)
    requires !HidesNeedle(ends, values, 0, len, needle)
    ensures SearchCapped(values, needle).lo <= |values| && |values| > 1
    ensures var past := PastRun(values, SearchCapped(values, needle).lo, needle);
            IsLower(values[1..1 + (|ends| - 1)], needle + 1, OneLess(past))
  {
    hide SearchCapped, Rows, PartitionPoint;
    TailFound(ends, values, len, needle);
    WholeWindow(ends, values, 0, len);
    OverlappingValuesSplit(ends, values, 0, len, 1, |ends| - 1, needle + 1);
    var tail := values[1..1 + (|ends| - 1)];
    var past := PastRun(values, SearchCapped(values, needle).lo, needle);
    assert past > 1 ==> tail[past - 2] == values[past - 1];
    LowerFromNeighbours(tail, needle + 1, OneLess(past));
  }

  /** Wherever the rows split around the needle, both bounds are right exactly
      when no empty first run hides it. */
  lemma BoundsRightIff(ends: seq<u64>, values: seq<u64>, offset: nat, len: nat, needle: u64)
    requires View(ends, values, offset, len) && SplitsAround(Rows(ends, values, offset, len), needle)
    ensures var r := Bounds(ends, values, offset, len, needle);
            IsRun(Rows(ends, values, offset, len), needle, r.0, r.1) <==> !HidesNeedle(ends, values, offset, len, needle)
  {
    hide SearchCapped, PartitionPoint, Rows, Bounds;
    if HidesNeedle(ends, values, offset, len, needle) {
      HiddenGoUnfound(ends, values, len, needle);
    } else {
      BoundsExact(ends, values, offset, len, needle);
    }
  }

  lemma HiddenGoUnfound(ends: seq<u64>, values: seq<u64>, len: nat, needle: u64)
    requires View(ends, values, 0, len) && SplitsAround(Rows(ends, values, 0, len), needle)
    requires HidesNeedle(ends, values, 0, len, needle)
    ensures Bounds(ends, values, 0, len, needle) == (0, 0)
    ensures len > 0 && Rows(ends, values, 0, len)[0] == needle
  {
    hide SearchCapped, PartitionPoint, Rows, RunOf, WindowRuns;
    WholeWindow(ends, values, 0, len);
    TailFound(ends, values, len, needle);
    var tail := values[1..1 + (|ends| - 1)];
    assert tail[0] == needle;
    RunsOrdered(ends, 1);
    ExpandFirst(ends, values, len);
  }

  /** Over an empty first run the first row is the next run's. */
  lemma ExpandFirst(ends: seq<u64>, values: seq<u64>, len: nat)
    requires View(ends, values, 0, len) && ShowsEmptyRun(ends, 0, len)
    ensures |values| > 1 && Rows(ends, values, 0, len)[0] == values[1]
  {
    RunsOrdered(ends, |ends| - 1);
    RunsOrdered(ends, 1);
    ExpandAt(ends, values, 1, 0);
  }

  /** An empty first run's value, which no row holds, is searched with the rest
      when the view shows all the rows: the needle's rows go unfound by the
      search for both bounds, and are found by each bound's own. */
  lemma EmptyFirstRunHidesTheNeedle()
    ensures View([0, 1], [9, 3], 0, 1) && Rows([0, 1], [9, 3], 0, 1) == [3]
    ensures Bounds([0, 1], [9, 3], 0, 1, 3) == (0, 0)
    ensures LowerBound([0, 1], [9, 3], 0, 1, 3) == 0 && LowerBound([0, 1], [9, 3], 0, 1, 4) == 1
  {
    hide SearchCapped, Rows, Bounds, LowerBound;
    var ends: seq<u64>, values: seq<u64> := [0, 1], [9, 3];
    ExpandFirst(ends, values, 1);
    var rows := Rows(ends, values, 0, 1);
    assert IsLower(rows, 3, 0) && IsLower(rows, 4, 1);
    HiddenGoUnfound(ends, values, 1, 3);
    LowerBoundExact(ends, values, 0, 1, 3);
    LowerBoundExact(ends, values, 0, 1, 4);
  }

  // ----- the walk

  /** One run of a walk: rows `start..end` of the walked window hold `value`. */
  datatype Run = Run(start: nat, end: nat, value: u64)

  /** Run `i` starts where the one before it ends, and holds its rows' value. */
  ghost predicate Fits(runs: seq<Run>, rows: seq<u64>, i: nat)
    requires i < |runs|
  {
    && runs[i].start <= runs[i].end <= |rows|
    && runs[i].start == (if i == 0 then 0 else runs[i - 1].end)
    && forall row :: runs[i].start <= row < runs[i].end ==> rows[row] == runs[i].value
  }

  /** The runs walked, end to end, cover `0..upto`. */
  ghost predicate Tile(runs: seq<Run>, rows: seq<u64>, upto: nat) {
    && upto == (if runs == [] then 0 else runs[|runs| - 1].end)
    && forall i :: 0 <= i < |runs| ==> Fits(runs, rows, i)
  }

  lemma TileExtends(runs: seq<Run>, rows: seq<u64>, upto: nat, end: nat, value: u64)
    requires Tile(runs, rows, upto) && upto <= end <= |rows|
    requires forall row :: upto <= row < end ==> rows[row] == value
    ensures Tile(runs + [Run(upto, end, value)], rows, end)
  {
    var more := runs + [Run(upto, end, value)];
    forall i | 0 <= i < |more|
      ensures Fits(more, rows, i)
    {
      assert i < |runs| ==> Fits(runs, rows, i);
    }
  }

  /** Rows in one run of a view hold its value. */
  lemma RowsOfRun(ends: seq<u64>, values: seq<u64>, offset: nat, whole: nat, run: nat, from: nat, to: nat)
    requires View(ends, values, offset, whole) && from <= to <= whole
    requires from < to ==> InRun(ends, run, offset + from) && offset + to <= ends[run]
    ensures from < to ==> forall row :: from <= row < to ==> Rows(ends, values, offset, whole)[row] == values[run]
  {
    forall row | from <= row < to
      ensures Rows(ends, values, offset, whole)[row] == values[run]
    {
      ExpandAt(ends, values, run, offset + row);
    }
  }

  /** The runs that tile the rows `start..start + len` of a view. */
  method RunsIn(ends: seq<u64>, values: seq<u64>, offset: nat, whole: nat, start: nat, len: nat) returns (runs: seq<Run>)
    requires View(ends, values, offset, whole) && start + len <= whole
    ensures Tile(runs, Rows(ends, values, offset, whole)[start..start + len], len)
  {
    hide RunOf, Rows, Tile;
    var first, last := start + offset, start + offset + len;
    ghost var rows := Rows(ends, values, offset, whole)[start..start + len];
    var run: nat := RunOf(ends, first);
    var at := first;
    runs := [];
    TileNothing(rows);
    while at < last
      invariant first <= at <= last
      invariant at < last ==> InRun(ends, run, at)
      invariant Tile(runs, rows, at - first)
      decreases last - at
    {
      RunsOrdered(ends, run);
      var end := Min(Max(ends[run], at), last);
      RowsOfRun(ends, values, offset, whole, run, at - offset, end - offset);
      TileExtends(runs, rows, at - first, end - first, values[run]);
      runs := runs + [Run(at - first, end - first, values[run])];
      at, run := end, run + 1;
      if at < last {
        RunsOrdered(ends, run);
      }
    }
  }

  lemma TileNothing(rows: seq<u64>)
    ensures Tile([], rows, 0)
  {
  }
}
