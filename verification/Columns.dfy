/** A file column cut into leaves: which rows each holds, and what the column
    is when they are laid end to end. */
module Columns {
  import opened Base
  import opened Search
  import opened Nodes

  /** A rebuilt array: its values, and the probe its encoding resolves to, when
      it does. */
  datatype Encoded = Encoded(values: seq<u64>, probe: Option<Node>)

  /** A probe answers for its array's values. */
  ghost predicate Faithful(arr: Encoded) {
    arr.probe.Some? ==> WF(arr.probe.value) && Decode(arr.probe.value) == arr.values
  }

  /** One flat leaf: the segment holding its array, its first row, how many it
      holds, and the dictionary its codes index, when it holds codes. */
  datatype Leaf = Leaf(segment: nat, rowOffset: nat, rowCount: nat, dict: Option<nat>)

  function LeafEnd(leaf: Leaf): (row: nat) { leaf.rowOffset + leaf.rowCount }

  /** Codes composed with their dictionary's values: a probe over both when
      both resolve, declined otherwise. */
  function Compose(codes: Encoded, dict: Encoded): (arr: Encoded)
    requires forall i :: 0 <= i < |codes.values| ==> codes.values[i] < |dict.values|
  {
    Encoded(seq(|codes.values|, i requires 0 <= i < |codes.values| => dict.values[codes.values[i]]),
            if codes.probe.Some? && dict.probe.Some? then Some(Dict(codes.probe.value, dict.probe.value)) else None)
  }

  lemma ComposeIsFaithful(codes: Encoded, dict: Encoded)
    requires Faithful(codes) && Faithful(dict)
    requires forall i :: 0 <= i < |codes.values| ==> codes.values[i] < |dict.values|
    ensures Faithful(Compose(codes, dict))
  {
  }

  /** A column's leaves, the segments of the dictionaries they share, what
      fetching each segment rebuilds, and which fetches never fail. */
  datatype Column = Column(leaves: seq<Leaf>, dicts: seq<nat>, content: nat -> Encoded, reachable: nat -> bool)

  ghost predicate LeafFits(c: Column, k: nat)
    requires k < |c.leaves|
  {
    var leaf := c.leaves[k];
    && leaf.rowCount > 0
    && leaf.rowOffset == (if k == 0 then 0 else LeafEnd(c.leaves[k - 1]))
    && |c.content(leaf.segment).values| == leaf.rowCount
    && Faithful(c.content(leaf.segment))
    && (leaf.dict.Some? ==>
          && leaf.dict.value < |c.dicts|
          && Faithful(c.content(c.dicts[leaf.dict.value]))
          && forall i :: 0 <= i < leaf.rowCount ==>
               c.content(leaf.segment).values[i] < |c.content(c.dicts[leaf.dict.value]).values|)
  }

  /** Leaves tile the column in row order, each non-empty and holding its rows. */
  ghost predicate WFColumn(c: Column) {
    (forall k :: 0 <= k < |c.leaves| ==> LeafFits(c, k)) && RowCount(c) <= U64_MAX
  }

  function RowCount(c: Column): (rows: nat) {
    if c.leaves == [] then 0 else LeafEnd(c.leaves[|c.leaves| - 1])
  }

  /** What leaf `k`'s array is, its dictionary's values composed in. */
  function LeafArray(c: Column, k: nat): (arr: Encoded)
    requires k < |c.leaves| && (c.leaves[k].dict.Some? ==> c.leaves[k].dict.value < |c.dicts|)
    requires c.leaves[k].dict.Some? ==>
               forall i :: 0 <= i < |c.content(c.leaves[k].segment).values| ==>
                 c.content(c.leaves[k].segment).values[i] < |c.content(c.dicts[c.leaves[k].dict.value]).values|
  {
    var codes := c.content(c.leaves[k].segment);
    match c.leaves[k].dict
    case None => codes
    case Some(d) => Compose(codes, c.content(c.dicts[d]))
  }

  ghost function LeafValues(c: Column, k: nat): (values: seq<u64>)
    requires WFColumn(c) && k < |c.leaves|
    ensures |values| == c.leaves[k].rowCount > 0
  {
    assert LeafFits(c, k);
    LeafArray(c, k).values
  }

  lemma LeafIsFaithful(c: Column, k: nat)
    requires WFColumn(c) && k < |c.leaves|
    ensures LeafFits(c, k) && Faithful(LeafArray(c, k))
  {
    assert LeafFits(c, k);
    match c.leaves[k].dict
    case None =>
    case Some(d) => ComposeIsFaithful(c.content(c.leaves[k].segment), c.content(c.dicts[d]));
  }

  /** The rows of the first `k` leaves. */
  ghost function Upto(c: Column, k: nat): (values: seq<u64>)
    requires WFColumn(c) && k <= |c.leaves|
    ensures |values| == if k == 0 then 0 else LeafEnd(c.leaves[k - 1])
  {
    if k == 0 then [] else
    assert LeafFits(c, k - 1);
    Upto(c, k - 1) + LeafValues(c, k - 1)
  }

  /** The column itself. */
  ghost function Flat(c: Column): (values: seq<u64>)
    requires WFColumn(c)
    ensures |values| == RowCount(c)
  {
    Upto(c, |c.leaves|)
  }

  lemma LeafFollows(c: Column, k: nat)
    requires WFColumn(c) && k < |c.leaves|
    ensures c.leaves[k].rowCount > 0 && c.leaves[k].rowOffset == if k == 0 then 0 else LeafEnd(c.leaves[k - 1])
  {
    assert LeafFits(c, k);
  }

  lemma {:induction false} UptoHolds(c: Column, n: nat, k: nat)
    requires WFColumn(c) && k < n <= |c.leaves|
    ensures LeafEnd(c.leaves[k]) <= |Upto(c, n)|
    ensures Upto(c, n)[c.leaves[k].rowOffset..LeafEnd(c.leaves[k])] == LeafValues(c, k)
  {
    hide LeafValues, WFColumn;
    LeafFollows(c, n - 1);
    var (before, own) := (Upto(c, n - 1), LeafValues(c, n - 1));
    assert Upto(c, n) == before + own;
    if k < n - 1 {
      UptoHolds(c, n - 1, k);
      assert (before + own)[..|before|] == before;
    }
  }

  /** A leaf holds the column's rows from its own first. */
  lemma FlatHolds(c: Column, k: nat)
    requires WFColumn(c) && k < |c.leaves|
    ensures LeafEnd(c.leaves[k]) <= RowCount(c)
    ensures Flat(c)[c.leaves[k].rowOffset..LeafEnd(c.leaves[k])] == LeafValues(c, k)
  {
    UptoHolds(c, |c.leaves|, k);
  }

  lemma FlatRow(c: Column, k: nat, j: nat)
    requires WFColumn(c) && k < |c.leaves| && j < c.leaves[k].rowCount
    ensures c.leaves[k].rowOffset + j < RowCount(c)
    ensures Flat(c)[c.leaves[k].rowOffset + j] == LeafValues(c, k)[j]
  {
    hide Flat, LeafValues, RowCount;
    FlatHolds(c, k);
    assert Flat(c)[c.leaves[k].rowOffset..LeafEnd(c.leaves[k])][j] == LeafValues(c, k)[j];
  }

  lemma {:induction false} LeavesInOrder(c: Column, a: nat, b: nat)
    requires WFColumn(c) && a < b < |c.leaves|
    ensures LeafEnd(c.leaves[a]) <= c.leaves[b].rowOffset
    decreases b
  {
    assert LeafFits(c, b);
    if a < b - 1 {
      LeavesInOrder(c, a, b - 1);
    }
  }

  ghost function LeafLast(c: Column, k: nat): (v: u64)
    requires WFColumn(c) && k < |c.leaves|
  {
    assert LeafFits(c, k);
    LeafValues(c, k)[c.leaves[k].rowCount - 1]
  }

  // ----- where a window's bound lies

  /** Leaf `k` is the first that ends past the row, one past the last leaf when
      none does. */
  ghost predicate Holding(c: Column, row: nat, k: nat) {
    && k <= |c.leaves|
    && (k > 0 ==> LeafEnd(c.leaves[k - 1]) <= row)
    && (k < |c.leaves| ==> row < LeafEnd(c.leaves[k]))
  }

  function LeafHolding(c: Column, row: nat): (k: nat)
    ensures Holding(c, row, k)
  {
    var ended := seq(|c.leaves|, k requires 0 <= k < |c.leaves| => LeafEnd(c.leaves[k]) <= row);
    PartitionPoint(ended)
  }

  /** A row of the column lies in the leaf holding it. */
  lemma HoldingInside(c: Column, row: nat, k: nat)
    requires WFColumn(c) && row < RowCount(c) && Holding(c, row, k)
    ensures k < |c.leaves| && c.leaves[k].rowOffset <= row < LeafEnd(c.leaves[k])
  {
    if k < |c.leaves| {
      assert LeafFits(c, k);
    }
  }

  /** The part of the window `from..to` in leaf `k`. */
  function PartStart(c: Column, k: nat, from: nat): (row: nat)
    requires k < |c.leaves|
  {
    Max(from, c.leaves[k].rowOffset)
  }

  function PartEnd(c: Column, k: nat, to: nat): (row: nat)
    requires k < |c.leaves|
  {
    Min(to, LeafEnd(c.leaves[k]))
  }

  /** The rows `a..b` of the window `from..to` hold the bound of `needle`: every
      row of the window before them is below it, every row past them at or above. */
  ghost predicate Bounding(c: Column, from: nat, to: nat, needle: int, a: nat, b: nat)
    requires WFColumn(c) && to <= RowCount(c)
  {
    && from <= a < b <= to
    && (forall row :: from <= row < a ==> Flat(c)[row] < needle)
    && (forall row :: b <= row < to ==> Flat(c)[row] >= needle)
  }

  /** Of a window's leaves each has a part of it. */
  lemma LeafPart(c: Column, from: nat, to: nat, first: nat, last: nat, k: nat)
    requires WFColumn(c) && from < to <= RowCount(c)
    requires Holding(c, from, first) && Holding(c, to - 1, last) && first <= k <= last
    ensures k < |c.leaves| && from <= PartStart(c, k, from) < PartEnd(c, k, to) <= to
    ensures PartStart(c, k, from) > from ==> k > first && from < c.leaves[k].rowOffset == LeafEnd(c.leaves[k - 1])
    ensures PartEnd(c, k, to) < to ==> k < last && LeafEnd(c.leaves[k]) < to
  {
    hide RowCount;
    HoldingInside(c, from, first);
    HoldingInside(c, to - 1, last);
    LeafFollows(c, k);
    if first < k {
      LeavesInOrder(c, first, k);
    }
    if k < last {
      LeavesInOrder(c, k, last);
    }
  }

  /** The row before a window's part in leaf `k` is below the needle when the
      leaf before it is, and the part's last reaches it when the leaf does. */
  lemma PartEdges(c: Column, from: nat, to: nat, needle: int, first: nat, last: nat, k: nat)
    requires WFColumn(c) && from < to <= RowCount(c)
    requires Holding(c, from, first) && Holding(c, to - 1, last) && first <= k <= last
    requires k > first ==> LeafLast(c, k - 1) < needle
    requires k < last ==> LeafLast(c, k) >= needle
    ensures k < |c.leaves| && from <= PartStart(c, k, from) < PartEnd(c, k, to) <= to
    ensures PartStart(c, k, from) > from ==> Flat(c)[PartStart(c, k, from) - 1] < needle
    ensures PartEnd(c, k, to) < to ==> Flat(c)[PartEnd(c, k, to) - 1] >= needle
  {
    hide Flat, LeafValues, RowCount, WFColumn;
    LeafPart(c, from, to, first, last, k);
    LeafFollows(c, k);
    FlatRow(c, k, c.leaves[k].rowCount - 1);
    if k > first {
      LeafFollows(c, k - 1);
      FlatRow(c, k - 1, c.leaves[k - 1].rowCount - 1);
    }
  }

  /** Over an ascending window, the first leaf from its first on whose last
      value reaches the needle, its last leaf at the latest, holds the bound. */
  lemma LeafBounds(c: Column, from: nat, to: nat, needle: int, first: nat, last: nat, k: nat)
    requires WFColumn(c) && from < to <= RowCount(c)
    requires Holding(c, from, first) && Holding(c, to - 1, last) && first <= k <= last
    requires k > first ==> LeafLast(c, k - 1) < needle
    requires k < last ==> LeafLast(c, k) >= needle
    ensures k < |c.leaves| && from <= PartStart(c, k, from) < PartEnd(c, k, to) <= to
    ensures Ascending(Flat(c)[from..to]) ==> Bounding(c, from, to, needle, PartStart(c, k, from), PartEnd(c, k, to))
  {
    hide Flat, LeafLast, RowCount, WFColumn, PartStart, PartEnd, Holding;
    PartEdges(c, from, to, needle, first, last, k);
    if Ascending(Flat(c)[from..to]) {
      EdgesBound(Flat(c), from, to, needle, PartStart(c, k, from), PartEnd(c, k, to));
    }
  }

  /** In an ascending window, what lies before a row below the needle is below
      it, and past one that reaches it reaches it. */
  lemma EdgesBound(values: seq<u64>, from: nat, to: nat, needle: int, a: nat, b: nat)
    requires from <= a < b <= to <= |values| && Ascending(values[from..to])
    requires a > from ==> values[a - 1] < needle
    requires b < to ==> values[b - 1] >= needle
    ensures forall row :: from <= row < a ==> values[row] < needle
    ensures forall row :: b <= row < to ==> values[row] >= needle
  {
    var rows := values[from..to];
    assert forall row :: from <= row < to ==> values[row] == rows[row - from];
    forall row | from <= row < a
      ensures values[row] < needle
    {
      assert rows[row - from] <= rows[a - 1 - from];
    }
    forall row | b <= row < to
      ensures values[row] >= needle
    {
      assert rows[b - 1 - from] <= rows[row - from];
    }
  }

  /** The bound within those rows is the window's bound. */
  lemma PartBoundIsWindowBound(c: Column, from: nat, to: nat, needle: int, a: nat, b: nat, p: nat)
    requires WFColumn(c) && to <= RowCount(c) && Bounding(c, from, to, needle, a, b)
    requires IsLower(Flat(c)[a..b], needle, p)
    ensures IsLower(Flat(c)[from..to], needle, a + p - from)
  {
    hide Flat, RowCount;
    var (rows, part) := (Flat(c)[from..to], Flat(c)[a..b]);
    forall i | 0 <= i < to - from
      ensures rows[i] < needle <==> i < a + p - from
    {
      var row := from + i;
      if a <= row < b {
        assert part[row - a] == rows[i];
      }
    }
  }

  /** A bound within the first leaf whose last value reaches the needle is the
      column's, and the column's end is when there is no such leaf. */
  lemma GlobalLower(c: Column, needle: int, k: nat, p: nat)
    requires WFColumn(c) && Ascending(Flat(c)) && k <= |c.leaves|
    requires k > 0 ==> LeafLast(c, k - 1) < needle
    requires k < |c.leaves| ==> LeafLast(c, k) >= needle && IsLower(LeafValues(c, k), needle, p)
    ensures IsLower(Flat(c), needle, if k == |c.leaves| then RowCount(c) else c.leaves[k].rowOffset + p)
  {
    hide Flat, LeafValues;
    if k == |c.leaves| {
      if k > 0 {
        assert LeafFits(c, k - 1);
        FlatRow(c, k - 1, c.leaves[k - 1].rowCount - 1);
        assert Flat(c)[RowCount(c) - 1] < needle;
      }
    } else {
      FlatHolds(c, k);
      assert LeafFits(c, 0) && LeafFits(c, k) && LeafFits(c, |c.leaves| - 1);
      assert Flat(c)[0..RowCount(c)] == Flat(c);
      LeafBounds(c, 0, RowCount(c), needle, 0, |c.leaves| - 1, k);
      PartBoundIsWindowBound(c, 0, RowCount(c), needle, c.leaves[k].rowOffset, LeafEnd(c.leaves[k]), p);
    }
  }

  lemma LeafAscends(c: Column, k: nat)
    requires WFColumn(c) && Ascending(Flat(c)) && k < |c.leaves|
    ensures Ascending(LeafValues(c, k))
  {
    hide Flat, LeafValues, RowCount;
    FlatHolds(c, k);
    assert LeafFits(c, k);
    var part := Flat(c)[c.leaves[k].rowOffset..LeafEnd(c.leaves[k])];
    forall i, j | 0 <= i <= j < |part|
      ensures part[i] <= part[j]
    {
    }
  }
}
