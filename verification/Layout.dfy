/** The column index: searches and reads over leaves that are fetched when a
    search first needs them. Every answer is stated of the flat column, and what
    it fetched, what it left alone and why it may be missing besides. */
module Layout {
  import opened Base
  import opened Buffers
  import opened Search
  import opened Sinks
  import opened Nodes
  import opened Columns
  import NodeSearch
  import SortedProbe

  /** An answer, or why there is none: a fetch failed, or a leaf has no probe. */
  datatype Answer<+T> = Failed | Declined | Found(value: T)

  /** How many cells are filled. */
  function Filled<T>(cells: seq<Option<T>>): (n: nat) {
    if cells == [] then 0 else Filled(cells[..|cells| - 1]) + (if cells[|cells| - 1].Some? then 1 else 0)
  }

  lemma {:induction false} FilledByOne<T>(cells: seq<Option<T>>, k: nat, value: T)
    requires k < |cells| && cells[k].None?
    ensures Filled(cells[k := Some(value)]) == Filled(cells) + 1
  {
    var last := |cells| - 1;
    if k < last {
      FilledByOne(cells[..last], k, value);
      assert cells[k := Some(value)][..last] == cells[..last][k := Some(value)];
    } else {
      assert cells[k := Some(value)][..last] == cells[..last];
    }
  }

  ghost predicate Kept<T>(was: seq<Option<T>>, now: seq<Option<T>>) {
    |was| == |now| && forall k :: 0 <= k < |was| && was[k].Some? ==> now[k] == was[k]
  }

  /** The cells of a column: each leaf's array and probe, each leaf's last
      value, each shared dictionary's values. */
  datatype Cells = Cells(leaves: seq<Option<Encoded>>, lasts: seq<Option<u64>>, dicts: seq<Option<Encoded>>)

  /** A filled cell holds what a fresh fetch, decode or read would answer. */
  ghost predicate Sound(c: Column, cells: Cells)
    requires WFColumn(c)
  {
    && |cells.leaves| == |cells.lasts| == |c.leaves| && |cells.dicts| == |c.dicts|
    && (forall k :: 0 <= k < |c.leaves| && cells.leaves[k].Some? ==> LeafFits(c, k) && cells.leaves[k].value == LeafArray(c, k))
    && (forall k :: 0 <= k < |c.leaves| && cells.lasts[k].Some? ==> cells.lasts[k].value == LeafLast(c, k))
    && (forall d :: 0 <= d < |c.dicts| && cells.dicts[d].Some? ==> cells.dicts[d].value == c.content(c.dicts[d]))
  }

  /** Cells are written once: a filled one keeps its value. */
  ghost predicate Grew(was: Cells, now: Cells) {
    Kept(was.leaves, now.leaves) && Kept(was.lasts, now.lasts) && Kept(was.dicts, now.dicts)
  }

  lemma GrewTwice(a: Cells, b: Cells, c: Cells)
    requires Grew(a, b) && Grew(b, c)
    ensures Grew(a, c)
  {
  }

  lemma GrewNot(a: Cells)
    ensures Grew(a, a)
  {
  }

  function Fetched(cells: Cells): (leaves: nat) { Filled(cells.leaves) }

  /** Rows of the column, from `from` to before `to`. */
  datatype Range = Range(from: nat, to: nat)

  // ----- why an answer is missing

  ghost predicate LeafReachable(c: Column, k: nat)
    requires k < |c.leaves|
  {
    var leaf := c.leaves[k];
    c.reachable(leaf.segment) && (leaf.dict.Some? && leaf.dict.value < |c.dicts| ==> c.reachable(c.dicts[leaf.dict.value]))
  }

  ghost predicate LeafDeclines(c: Column, k: nat)
    requires k < |c.leaves|
  {
    LeafFits(c, k) && LeafArray(c, k).probe.None?
  }

  /** Some leaf of `from..to` may not be fetched; has an encoding that declines. */
  ghost predicate SomeUnreachable(c: Column, from: nat, to: nat) {
    exists k :: from <= k < to && k < |c.leaves| && !LeafReachable(c, k)
  }

  ghost predicate SomeDeclines(c: Column, from: nat, to: nat) {
    exists k :: from <= k < to && k < |c.leaves| && LeafDeclines(c, k)
  }

  /** An answer is missing only for a leaf of `from..to`. */
  ghost predicate Justified<T>(c: Column, r: Answer<T>, from: nat, to: nat) {
    (r.Failed? ==> SomeUnreachable(c, from, to)) && (r.Declined? ==> SomeDeclines(c, from, to))
  }

  lemma Wider(c: Column, from: nat, to: nat, a: nat, b: nat)
    requires a <= from && to <= b
    ensures SomeUnreachable(c, from, to) ==> SomeUnreachable(c, a, b)
    ensures SomeDeclines(c, from, to) ==> SomeDeclines(c, a, b)
  {
  }

  lemma ThisLeaf(c: Column, k: nat, from: nat, to: nat)
    requires from <= k < to && k < |c.leaves|
    ensures !LeafReachable(c, k) ==> SomeUnreachable(c, from, to)
    ensures LeafDeclines(c, k) ==> SomeDeclines(c, from, to)
  {
  }

  lemma OnlyThisLeaf(c: Column, k: nat)
    requires k < |c.leaves|
    ensures SomeUnreachable(c, k, k + 1) ==> !LeafReachable(c, k)
    ensures SomeDeclines(c, k, k + 1) ==> LeafDeclines(c, k)
  {
  }

  // ----- which cells an answer touches

  /** Only leaves of `from..to` were fetched or had their last value read. */
  ghost predicate OnlyLeaves(was: Cells, now: Cells, from: nat, to: nat) {
    && |was.leaves| == |now.leaves| && |was.lasts| == |now.lasts|
    && (forall k :: 0 <= k < |was.leaves| && !(from <= k < to) ==> now.leaves[k] == was.leaves[k])
    && (forall k :: 0 <= k < |was.lasts| && !(from <= k < to) ==> now.lasts[k] == was.lasts[k])
  }

  lemma OnlyLeavesTwice(a: Cells, b: Cells, c: Cells, from: nat, to: nat)
    requires OnlyLeaves(a, b, from, to) && OnlyLeaves(b, c, from, to)
    ensures OnlyLeaves(a, c, from, to)
  {
  }

  lemma OnlyLeavesNot(cells: Cells, from: nat, to: nat)
    ensures OnlyLeaves(cells, cells, from, to)
  {
  }

  /** A step within a range of leaves keeps to the range. */
  lemma TouchesWithin<T>(c: Column, was: Cells, mid: Cells, now: Cells, r: Answer<T>, a: nat, b: nat, from: nat, to: nat)
    requires OnlyLeaves(was, mid, from, to) && OnlyLeaves(mid, now, a, b) && Justified(c, r, a, b) && from <= a && b <= to
    ensures OnlyLeaves(was, now, from, to) && Justified(c, r, from, to)
  {
    hide OnlyLeaves, SomeUnreachable, SomeDeclines;
    OnlyLeavesWider(mid, now, a, b, from, to);
    OnlyLeavesTwice(was, mid, now, from, to);
    Wider(c, a, b, from, to);
  }

  lemma OnlyLeavesWider(was: Cells, now: Cells, from: nat, to: nat, a: nat, b: nat)
    requires OnlyLeaves(was, now, from, to) && a <= from && to <= b
    ensures OnlyLeaves(was, now, a, b)
  {
  }

  /** Leaf `k` has a row of the window `from..to`. */
  ghost predicate Overlaps(c: Column, k: nat, from: nat, to: nat)
    requires k < |c.leaves|
  {
    c.leaves[k].rowOffset < to && from < LeafEnd(c.leaves[k])
  }

  /** Only leaves overlapping the window `from..to` were touched, and an answer
      is missing only for one of them. */
  ghost predicate OnlyWindow<T>(c: Column, was: Cells, now: Cells, r: Answer<T>, from: nat, to: nat) {
    && |was.leaves| == |was.lasts| == |now.leaves| == |now.lasts| == |c.leaves|
    && (forall k :: 0 <= k < |c.leaves| && !Overlaps(c, k, from, to) ==>
          now.leaves[k] == was.leaves[k] && now.lasts[k] == was.lasts[k])
    && (r.Failed? ==> exists k :: 0 <= k < |c.leaves| && Overlaps(c, k, from, to) && !LeafReachable(c, k))
    && (r.Declined? ==> exists k :: 0 <= k < |c.leaves| && Overlaps(c, k, from, to) && LeafDeclines(c, k))
  }

  /** A window's part touches what the window allows. */
  lemma OnlyWindowWider<T, U>(c: Column, was: Cells, mid: Cells, now: Cells, r: Answer<T>, s: Answer<U>, from: nat, to: nat, a: nat, b: nat)
    requires OnlyWindow(c, was, mid, r, from, to) && OnlyWindow(c, mid, now, s, a, b) && from <= a && b <= to
    ensures OnlyWindow(c, was, now, s, from, to)
  {
    hide LeafReachable, LeafDeclines;
    assert forall k :: 0 <= k < |c.leaves| && Overlaps(c, k, a, b) ==> Overlaps(c, k, from, to);
  }

  lemma NothingTouched<T>(c: Column, cells: Cells, value: T, from: nat, to: nat)
    requires |cells.leaves| == |cells.lasts| == |c.leaves|
    ensures OnlyWindow(c, cells, cells, Found(value), from, to)
  {
  }

  /** An answer touches no leaf more than the search it came from, and is
      missing where that one is. */
  lemma OnlyWindowAs<T, U>(c: Column, was: Cells, now: Cells, r: Answer<T>, s: Answer<U>, from: nat, to: nat)
    requires OnlyWindow(c, was, now, r, from, to)
    requires (s.Failed? ==> r.Failed?) && (s.Declined? ==> r.Declined?)
    ensures OnlyWindow(c, was, now, s, from, to)
  {
  }

  /** The leaves from the one holding the window's first row to the one holding
      its last are those that overlap it. */
  lemma WindowLeaves<T>(c: Column, was: Cells, now: Cells, r: Answer<T>, from: nat, to: nat, first: nat, last: nat)
    requires WFColumn(c) && from < to <= RowCount(c) && Holding(c, from, first) && Holding(c, to - 1, last)
    requires |was.leaves| == |was.lasts| == |now.leaves| == |now.lasts| == |c.leaves|
    requires OnlyLeaves(was, now, first, last + 1) && Justified(c, r, first, last + 1)
    ensures OnlyWindow(c, was, now, r, from, to)
  {
    hide LeafReachable, LeafDeclines, RowCount;
    HoldingInside(c, from, first);
    HoldingInside(c, to - 1, last);
    forall k | 0 <= k < |c.leaves|
      ensures Overlaps(c, k, from, to) <==> first <= k <= last
    {
      LeafFollows(c, k);
      if k < first {
        LeavesInOrder(c, k, first);
      } else if first < k {
        LeavesInOrder(c, first, k);
      }
      if k < last {
        LeavesInOrder(c, k, last);
      } else if last < k {
        LeavesInOrder(c, last, k);
      }
    }
  }

  // ----- what bounds and counts rely on of the probes

  ghost predicate LeafRight(c: Column, k: nat, needle: u64)
    requires k < |c.leaves|
  {
    LeafFits(c, k) && LeafArray(c, k).probe.Some? ==> RightAt(LeafArray(c, k).probe.value, needle)
  }

  /** The node's search for both bounds finds the needle's rows. */
  ghost predicate RightAt(n: Node, needle: u64) {
    !Hides(n, needle) && (needle < U64_MAX || !FrameSaturates(n))
  }

  /** No leaf's probe hides the needle from its search for both bounds. */
  ghost predicate BoundsFind(c: Column, needle: u64) {
    forall k :: 0 <= k < |c.leaves| ==> LeafRight(c, k, needle)
  }

  ghost predicate LeafSearchable(c: Column, k: nat, needle: u64)
    requires k < |c.leaves|
  {
    LeafFits(c, k) && LeafArray(c, k).probe.Some? ==> Searchable(LeafArray(c, k).probe.value, needle)
  }

  /** Every leaf's probe sees the needle's rows through its encoding. */
  ghost predicate CountsFind(c: Column, needle: u64) {
    forall k :: 0 <= k < |c.leaves| ==> LeafSearchable(c, k, needle)
  }

  /** A segment's array, rebuilt; nothing when the request fails. */
  method FetchFlat(c: Column, segment: nat) returns (r: Option<Encoded>)
    ensures r.Some? ==> r.value == c.content(segment)
    ensures r.None? ==> !c.reachable(segment)
  {
    var arrives: bool := *;
    r := if arrives || c.reachable(segment) then Some(c.content(segment)) else None;
  }

  /** A row window inside one leaf: the leaf's probe, its first row, and the
      window in the leaf's own rows. */
  datatype LeafRows = LeafRows(probe: Node, rowOffset: nat, from: nat, to: nat)

  ghost predicate Shows(c: Column, l: LeafRows)
    requires WFColumn(c)
  {
    && WF(l.probe) && l.from < l.to <= Len(l.probe)
    && l.rowOffset + l.to <= RowCount(c)
    && Part(l.probe, l.from, l.to - l.from) == Flat(c)[l.rowOffset + l.from..l.rowOffset + l.to]
  }

  ghost predicate InLeaf(l: LeafRows) {
    WF(l.probe) && l.from < l.to <= Len(l.probe)
  }

  ghost function LeafRowsValues(l: LeafRows): (values: seq<u64>)
    requires InLeaf(l)
    ensures |values| == l.to - l.from
  {
    Part(l.probe, l.from, l.to - l.from)
  }

  /** Over a window that splits around the needle, as an ascending one does,
      `r` is its rows equal to it. */
  ghost predicate FoundIn(l: LeafRows, needle: u64, r: Range) {
    InLeaf(l) && SplitsAround(LeafRowsValues(l), needle) ==> IsRunFrom(LeafRowsValues(l), needle, RowsFrom(l), r.from, r.to)
  }

  /** Bounds in a leaf's window, counted in the column's rows. */
  function LeafRowsBounds(l: LeafRows, needle: u64): (r: Range)
    requires InLeaf(l)
    ensures RowsFrom(l) <= r.from <= r.to <= RowsTo(l) && FoundIn(l, needle, r)
  {
    hide WF, Len, Part, SplitsAround, IsRun, SortedProbe.BoundsIn;
    var (lo, hi) := SortedProbe.BoundsIn(l.probe, l.from, l.to, needle);
    Range(l.rowOffset + lo, l.rowOffset + hi)
  }

  lemma FoundWhenAscending(l: LeafRows, needle: u64, r: Range)
    requires InLeaf(l) && FoundIn(l, needle, r)
    ensures Ascending(LeafRowsValues(l)) ==> IsRunFrom(LeafRowsValues(l), needle, RowsFrom(l), r.from, r.to)
  {
    if Ascending(LeafRowsValues(l)) {
      AscendingSplitsAround(LeafRowsValues(l), needle);
    }
  }

  /** The values at the column's `rows`, all in the window. */
  method LeafRowsValuesAt(l: LeafRows, rows: seq<nat>, out: array<u64>)
    requires InLeaf(l) && out.Length == |rows|
    requires SortedProbe.AllIn(rows, RowsFrom(l), RowsFrom(l) + |LeafRowsValues(l)|)
    modifies out
    ensures out[..] == SortedProbe.Picked(LeafRowsValues(l), RowsFrom(l), rows)
  {
    hide WF, Decode, Len;
    SortedProbe.LenOfDecode(l.probe);
    assert rows[0..|rows|] == rows;
    ghost var was := out[..];
    SortedProbe.ReadRows(l.probe, l.rowOffset, rows, 0, |rows|, out);
    WroteAll(out[..], was, SortedProbe.Picked(Decode(l.probe), l.rowOffset, rows));
  }

  lemma LeafShows(c: Column, k: nat, probe: Node, a: nat, b: nat)
    requires WFColumn(c) && k < |c.leaves| && WF(probe) && Decode(probe) == LeafValues(c, k)
    requires c.leaves[k].rowOffset <= a < b <= LeafEnd(c.leaves[k])
    ensures Shows(c, LeafRows(probe, c.leaves[k].rowOffset, a - c.leaves[k].rowOffset, b - c.leaves[k].rowOffset))
  {
    hide WF, Decode, LeafValues, Flat, RowCount;
    FlatHolds(c, k);
    var offset := c.leaves[k].rowOffset;
    SliceOfSlice(Flat(c), offset, LeafEnd(c.leaves[k]), a - offset, b - offset);
  }

  class ColumnChunks {
    const column: Column
    var cells: Cells

    ghost predicate Valid()
      reads this
    {
      WFColumn(column) && Sound(column, cells)
    }

    constructor (column: Column)
      requires WFColumn(column)
      ensures Valid() && this.column == column && Fetched(cells) == 0
    {
      this.column := column;
      cells := Cells(seq(|column.leaves|, _ => None), seq(|column.leaves|, _ => None), seq(|column.dicts|, _ => None));
      new;
      NoneFilled(cells.leaves);
    }

    lemma SameSize()
      requires Valid()
      ensures |cells.leaves| == |cells.lasts| == |column.leaves|
    {
    }

    // ----- the cells

    /** A dictionary's values, from their cell or newly fetched into it. */
    method DictArray(d: nat) returns (r: Option<Encoded>)
      requires Valid() && d < |column.dicts|
      modifies this
      ensures Valid() && Grew(old(cells), cells) && cells.leaves == old(cells.leaves) && cells.lasts == old(cells.lasts)
      ensures r.Some? ==> r.value == column.content(column.dicts[d]) && cells.dicts[d] == r
      ensures r.None? ==> !column.reachable(column.dicts[d])
    {
      if cells.dicts[d].Some? {
        return cells.dicts[d];
      }
      var fetched := FetchFlat(column, column.dicts[d]);
      if fetched.Some? {
        cells := cells.(dicts := cells.dicts[d := fetched]);
      }
      r := fetched;
    }

    /** Leaf `k`'s array, from its cell or newly fetched into it: no other
        leaf's cell changes. */
    method ChunkLeaf(k: nat) returns (r: Option<Encoded>)
      requires Valid() && k < |column.leaves|
      modifies this
      ensures Valid() && Grew(old(cells), cells) && Fetched(cells) <= Fetched(old(cells)) + 1
      ensures r.Some? ==> LeafFits(column, k) && r.value == LeafArray(column, k) && cells.leaves[k] == r
      ensures old(cells.leaves[k]).Some? ==> cells == old(cells) && r == cells.leaves[k]
      ensures OnlyLeaves(old(cells), cells, k, k + 1)
      ensures r.None? ==> !LeafReachable(column, k)
    {
      if cells.leaves[k].Some? {
        return cells.leaves[k];
      }
      assert LeafFits(column, k);
      var leaf := column.leaves[k];
      var fetched := FetchFlat(column, leaf.segment);
      if fetched.None? {
        return None;
      }
      var arr := fetched.value;
      if leaf.dict.Some? {
        var dict := DictArray(leaf.dict.value);
        if dict.None? {
          return None;
        }
        arr := Compose(arr, dict.value);
      }
      FilledByOne(cells.leaves, k, arr);
      cells := cells.(leaves := cells.leaves[k := Some(arr)]);
      r := cells.leaves[k];
    }

    method ChunkProbe(k: nat) returns (r: Answer<Node>)
      requires Valid() && k < |column.leaves|
      modifies this
      ensures Valid() && Grew(old(cells), cells) && Fetched(cells) <= Fetched(old(cells)) + 1
      ensures r.Found? ==> WF(r.value) && Decode(r.value) == LeafValues(column, k)
      ensures r.Found? ==> Len(r.value) == column.leaves[k].rowCount > 0
      ensures r.Found? ==> LeafFits(column, k) && LeafArray(column, k).probe == Some(r.value)
      ensures OnlyLeaves(old(cells), cells, k, k + 1) && Justified(column, r, k, k + 1)
    {
      hide LeafReachable, OnlyLeaves, SomeUnreachable, SomeDeclines, Sound, Grew, Fetched, WF, Decode, Len;
      var leaf := ChunkLeaf(k);
      ThisLeaf(column, k, k, k + 1);
      match leaf
      case None => r := Failed;
      case Some(arr) =>
        LeafIsFaithful(column, k);
        r := match arr.probe case Some(probe) => Found(probe) case None => Declined;
    }

    /** Leaf `k`'s last value, from its cell or newly read into it. */
    method ChunkLast(k: nat) returns (r: Answer<u64>)
      requires Valid() && k < |column.leaves|
      modifies this
      ensures Valid() && Grew(old(cells), cells) && Fetched(cells) <= Fetched(old(cells)) + 1
      ensures r.Found? ==> r.value == LeafLast(column, k)
      ensures OnlyLeaves(old(cells), cells, k, k + 1) && Justified(column, r, k, k + 1)
    {
      hide SomeUnreachable, SomeDeclines, OnlyLeaves, WF, Decode, Len, LeafArray, Fetched;
      if cells.lasts[k].Some? {
        OnlyLeavesNot(cells, k, k + 1);
        return Found(cells.lasts[k].value);
      }
      var probe := ChunkProbe(k);
      match probe
      case Failed => r := Failed;
      case Declined => r := Declined;
      case Found(node) =>
        var last := NodeSearch.ValueAt(node, Len(node) - 1);
        ghost var before := cells;
        SetLast(k, last);
        OnlyLeavesTwice(old(cells), before, cells, k, k + 1);
        r := Found(last);
    }

    method SetLast(k: nat, last: u64)
      requires Valid() && k < |column.leaves| && last == LeafLast(column, k)
      modifies this
      ensures Valid() && Grew(old(cells), cells) && Fetched(cells) == Fetched(old(cells))
      ensures OnlyLeaves(old(cells), cells, k, k + 1)
    {
      hide LeafLast, LeafArray;
      if cells.lasts[k].None? {
        cells := cells.(lasts := cells.lasts[k := Some(last)]);
      }
    }

    /** The first of leaves `from..to` whose last value reaches the needle, by
        bisection: at most a halving's worth of leaves newly fetched. */
    method FirstReaching(from: nat, to: nat, needle: u64) returns (r: Answer<nat>)
      requires Valid() && from <= to <= |column.leaves|
      modifies this
      ensures Valid() && Grew(old(cells), cells) && Fetched(cells) <= Fetched(old(cells)) + Halvings(to - from)
      ensures r.Found? ==> from <= r.value <= to
      ensures r.Found? && from < r.value ==> LeafLast(column, r.value - 1) < needle
      ensures r.Found? && r.value < to ==> LeafLast(column, r.value) >= needle
      ensures OnlyLeaves(old(cells), cells, from, to) && Justified(column, r, from, to)
    {
      hide SomeUnreachable, SomeDeclines, OnlyLeaves, Sound, Grew, Fetched, LeafLast, WFColumn;
      var lo, hi := from, to;
      GrewNot(cells);
      OnlyLeavesNot(cells, from, to);
      while lo < hi
        invariant from <= lo <= hi <= to
        invariant Valid() && Grew(old(cells), cells) && OnlyLeaves(old(cells), cells, from, to)
        invariant Fetched(cells) + Halvings(hi - lo) <= Fetched(old(cells)) + Halvings(to - from)
        invariant from < lo ==> LeafLast(column, lo - 1) < needle
        invariant hi < to ==> LeafLast(column, hi) >= needle
      {
        var mid := lo + (hi - lo) / 2;
        HalvingsMonotone(hi - mid - 1, (hi - lo) / 2);
        HalvingsMonotone(mid - lo, (hi - lo) / 2);
        ghost var before := cells;
        var last := ChunkLast(mid);
        GrewTwice(old(cells), before, cells);
        TouchesWithin(column, old(cells), before, cells, last, mid, mid + 1, from, to);
        match last {
          case Failed => return Failed;
          case Declined => return Declined;
          case Found(v) =>
            if v < needle {
              lo := mid + 1;
            } else {
              hi := mid;
            }
        }
      }
      r := Found(lo);
    }

    // ----- global bounds

    /** First row of the column at or above the needle. A search newly fetches
        at most a halving's worth of leaves, and one more. */
    method LowerBound(needle: u64) returns (r: Answer<nat>)
      requires Valid()
      modifies this
      ensures Valid() && Grew(old(cells), cells)
      ensures Fetched(cells) <= Fetched(old(cells)) + Halvings(|column.leaves|) + 1
      ensures r.Found? ==> r.value <= RowCount(column)
      ensures r.Found? && Ascending(Flat(column)) ==> IsLower(Flat(column), needle, r.value)
      ensures Justified(column, r, 0, |column.leaves|)
    {
      hide SomeUnreachable, SomeDeclines, OnlyLeaves, Sound, Grew, Fetched, LeafLast, LeafValues, Flat, WF, Decode, Len, NodeSearch.LowerBound;
      var reached := FirstReaching(0, |column.leaves|, needle);
      ghost var before := cells;
      match reached {
        case Failed => return Failed;
        case Declined => return Declined;
        case Found(k) =>
          if k == |column.leaves| {
            GlobalLowerIf(column, needle, k, 0);
            return Found(RowCount(column));
          }
          var probe := ChunkProbe(k);
          GrewTwice(old(cells), before, cells);
          Wider(column, k, k + 1, 0, |column.leaves|);
          match probe {
            case Failed => return Failed;
            case Declined => return Declined;
            case Found(node) =>
              var p := NodeSearch.LowerBound(node, needle);
              LeafSplits(column, k, needle);
              GlobalLowerIf(column, needle, k, p);
              FlatHolds(column, k);
              return Found(column.leaves[k].rowOffset + p);
          }
      }
    }

    /** The rows of the column equal to the needle, a run that crosses any
        number of leaves included. */
    method Bounds(needle: u64) returns (r: Answer<Range>)
      requires Valid()
      modifies this
      ensures Valid() && Grew(old(cells), cells)
      ensures Fetched(cells) <= Fetched(old(cells)) + 2 * (Halvings(|column.leaves|) + 1)
      ensures r.Found? && Ascending(Flat(column)) && BoundsFind(column, needle) ==> IsRun(Flat(column), needle, r.value.from, r.value.to)
      ensures Justified(column, r, 0, |column.leaves|)
    {
      hide SomeUnreachable, SomeDeclines, OnlyLeaves, Sound, Grew, Fetched, LeafLast, LeafValues, Flat, WF, Decode, Len, NodeSearch.Bounds, RightAt;
      var reached := FirstReaching(0, |column.leaves|, needle);
      ghost var before := cells;
      match reached {
        case Failed => return Failed;
        case Declined => return Declined;
        case Found(k) =>
          if k == |column.leaves| {
            NoRowReaches(column, needle);
            return Found(Range(RowCount(column), RowCount(column)));
          }
          var probe := ChunkProbe(k);
          GrewTwice(old(cells), before, cells);
          Wider(column, k, k + 1, 0, |column.leaves|);
          match probe {
            case Failed => return Failed;
            case Declined => return Declined;
            case Found(node) =>
              ghost var found := cells;
              assert BoundsFind(column, needle) ==> LeafRight(column, k, needle);
              r := BoundsFrom(k, node, needle);
              GrewTwice(old(cells), found, cells);
          }
      }
    }

    /** The same once the leaf holding the needle's first row is found. */
    method BoundsFrom(k: nat, node: Node, needle: u64) returns (r: Answer<Range>)
      requires Valid() && k < |column.leaves| && WF(node) && Decode(node) == LeafValues(column, k)
      requires Len(node) == column.leaves[k].rowCount
      requires k > 0 ==> LeafLast(column, k - 1) < needle
      requires LeafLast(column, k) >= needle
      modifies this
      ensures Valid() && Grew(old(cells), cells)
      ensures Fetched(cells) <= Fetched(old(cells)) + Halvings(|column.leaves|) + 1
      ensures r.Found? && Ascending(Flat(column)) && RightAt(node, needle) ==> IsRun(Flat(column), needle, r.value.from, r.value.to)
      ensures Justified(column, r, 0, |column.leaves|)
    {
      hide SomeUnreachable, SomeDeclines, OnlyLeaves, Sound, Grew, Fetched, LeafLast, LeafValues, Flat, WF, Decode, Len, NodeSearch.Bounds, RightAt;
      var leaf := column.leaves[k];
      var (lo, hi) := NodeSearch.Bounds(node, needle);
      var lower := leaf.rowOffset + lo;
      LeafRun(column, k, node, needle);
      GlobalRun(column, needle, k, lo, hi, RightAt(node, needle));
      GrewNot(cells);
      if hi < leaf.rowCount {
        return Found(Range(lower, leaf.rowOffset + hi));
      }
      if needle == U64_MAX {
        FlatHolds(column, k);
        return Found(Range(lower, Max(RowCount(column), lower)));
      }
      var upper := LowerBound(needle + 1);
      match upper {
        case Failed => return Failed;
        case Declined => return Declined;
        case Found(u) => return Found(Range(lower, Max(u, lower)));
      }
    }

    // ----- bounds in a window

    /** A leaf's part of the window that the needle's bound lies in, when the
        window ascends. No leaf outside the window is touched. */
    method WindowLeaf(from: nat, to: nat, needle: u64) returns (r: Answer<LeafRows>)
      requires Valid() && from < to <= RowCount(column)
      modifies this
      ensures Valid() && Grew(old(cells), cells)
      ensures r.Found? ==> Shows(column, r.value)
      ensures r.Found? ==> var (a, b) := (RowsFrom(r.value), RowsTo(r.value));
                           && from <= a < b <= to
                           && (Ascending(Flat(column)[from..to]) ==> Bounding(column, from, to, needle, a, b))
      ensures OnlyWindow(column, old(cells), cells, r, from, to)
    {
      hide SomeUnreachable, SomeDeclines, OnlyLeaves, Sound, Grew, Fetched, LeafLast, LeafValues, Flat, WF, Decode, Len, LeafHolding, RowCount, Shows, Bounding, OnlyWindow;
      var first := LeafHolding(column, from);
      var last := Max(LeafHolding(column, to - 1), first);
      LeavesHoldInOrder(column, from, to - 1, first, LeafHolding(column, to - 1));
      HoldingInside(column, to - 1, last);
      ghost var was := cells;
      var k, probe := ReachedProbe(first, last, needle);
      WindowLeaves(column, was, cells, probe, from, to, first, last);
      match probe {
        case Failed => r := Failed;
        case Declined => r := Declined;
        case Found(node) =>
          LeafBounds(column, from, to, needle, first, last, k);
          var offset := column.leaves[k].rowOffset;
          LeafShows(column, k, node, PartStart(column, k, from), PartEnd(column, k, to));
          r := Found(LeafRows(node, offset, PartStart(column, k, from) - offset, PartEnd(column, k, to) - offset));
      }
      OnlyWindowAs(column, was, cells, probe, r, from, to);
    }

    /** The probe of the first of leaves `first..last` whose last value reaches
        the needle, of leaf `last` when none does. */
    method ReachedProbe(first: nat, last: nat, needle: u64) returns (k: nat, probe: Answer<Node>)
      requires Valid() && first <= last < |column.leaves|
      modifies this
      ensures Valid() && Grew(old(cells), cells)
      ensures |cells.leaves| == |cells.lasts| == |old(cells.leaves)| == |old(cells.lasts)| == |column.leaves|
      ensures OnlyLeaves(old(cells), cells, first, last + 1) && Justified(column, probe, first, last + 1)
      ensures probe.Found? ==> first <= k <= last && WF(probe.value) && Decode(probe.value) == LeafValues(column, k)
      ensures probe.Found? && k > first ==> LeafLast(column, k - 1) < needle
      ensures probe.Found? && k < last ==> LeafLast(column, k) >= needle
    {
      hide SomeUnreachable, SomeDeclines, OnlyLeaves, Sound, Grew, Fetched, LeafLast, LeafValues, Flat, WF, Decode, Len;
      ghost var was := cells;
      SameSize();
      OnlyLeavesNot(was, first, last + 1);
      var reached := FirstReaching(first, last, needle);
      TouchesWithin(column, was, was, cells, reached, first, last, first, last + 1);
      ghost var before := cells;
      SameSize();
      k := 0;
      match reached {
        case Failed => return 0, Failed;
        case Declined => return 0, Declined;
        case Found(r) =>
          k := r;
      }
      probe := ChunkProbe(k);
      GrewTwice(was, before, cells);
      TouchesWithin(column, was, before, cells, probe, k, k + 1, first, last + 1);
      SameSize();
    }

    /** The rows of `from..to` equal to the needle. Only the window need
        ascend, and what lies outside it does not bear on the answer. */
    method BoundsIn(from: nat, to: nat, needle: u64) returns (r: Answer<Range>)
      requires Valid() && to <= RowCount(column)
      modifies this
      ensures Valid() && Grew(old(cells), cells)
      ensures r.Found? && from < to ==> from <= r.value.from <= to
      ensures r.Found? && from >= to ==> r.value == Range(from, from)
      ensures r.Found? && from < to && Ascending(Flat(column)[from..to]) ==>
                from <= r.value.to && IsRun(Flat(column)[from..to], needle, r.value.from - from, r.value.to - from)
      ensures OnlyWindow(column, old(cells), cells, r, from, to)
    {
      hide SomeUnreachable, SomeDeclines, OnlyLeaves, OnlyWindow, Overlaps, FoundIn, SortedProbe.FoundIn, Sound, Grew, Flat, WF, Decode, Len, RowCount, Shows, Bounding, LeafRowsBounds, InLeaf, LeafRowsValues;
      GrewNot(cells);
      if from >= to {
        SameSize();
        NothingTouched(column, cells, Range(from, from), from, to);
        return Found(Range(from, from));
      }
      ghost var was := cells;
      var leaf := WindowLeaf(from, to, needle);
      match leaf {
        case Failed =>
          r := Failed;
          OnlyWindowAs(column, was, cells, leaf, r, from, to);
        case Declined =>
          r := Declined;
          OnlyWindowAs(column, was, cells, leaf, r, from, to);
        case Found(rows) =>
          ShownInProbe(column, rows);
          var bounds := LeafRowsBounds(rows, needle);
          FoundWhenAscending(rows, needle, bounds);
          WindowRun(column, from, to, needle, rows, bounds);
          if bounds.to < RowsTo(rows) || bounds.to == to {
            r := Found(bounds);
          } else if needle == U64_MAX {
            r := Found(Range(bounds.from, to));
          } else {
            ghost var before := cells;
            var rest := WindowLeaf(bounds.to, to, needle + 1);
            GrewTwice(was, before, cells);
            OnlyWindowWider(column, was, before, cells, leaf, rest, from, to, bounds.to, to);
            match rest {
              case Failed => r := Failed;
              case Declined => r := Declined;
              case Found(past) =>
                ShownInProbe(column, past);
                var found := LeafRowsBounds(past, needle + 1);
                FoundWhenAscending(past, needle + 1, found);
                RestRun(column, from, bounds.to, to, needle, past, found.from);
                r := Found(Range(bounds.from, found.from));
            }
            OnlyWindowAs(column, was, cells, rest, r, from, to);
            return;
          }
          OnlyWindowAs(column, was, cells, leaf, r, from, to);
      }
    }

    // ----- reads

    /** The rows `from..to` as a window of the one leaf holding them all;
        declined when they span leaves. */
    method RowsInLeaf(from: nat, to: nat) returns (r: Answer<LeafRows>)
      requires Valid() && from < to <= RowCount(column)
      modifies this
      ensures Valid() && Grew(old(cells), cells)
      ensures r.Found? ==> Shows(column, r.value) && RowsFrom(r.value) == from && RowsTo(r.value) == to
      ensures r.Failed? ==> exists k :: 0 <= k < |column.leaves| && Overlaps(column, k, from, to) && !LeafReachable(column, k)
      ensures r.Declined? ==> exists k :: 0 <= k < |column.leaves| && Overlaps(column, k, from, to) && (LeafDeclines(column, k) || LeafEnd(column.leaves[k]) < to)
    {
      hide SomeUnreachable, SomeDeclines, OnlyLeaves, Sound, Grew, Fetched, LeafValues, Flat, WF, Decode, Len, LeafHolding, RowCount, Shows;
      GrewNot(cells);
      var k := LeafHolding(column, from);
      HoldingInside(column, from, k);
      assert Overlaps(column, k, from, to);
      OnlyThisLeaf(column, k);
      if to > LeafEnd(column.leaves[k]) {
        return Declined;
      }
      var probe := ChunkProbe(k);
      match probe {
        case Failed => return Failed;
        case Declined => return Declined;
        case Found(node) =>
          var offset := column.leaves[k].rowOffset;
          LeafShows(column, k, node, from, to);
          return Found(LeafRows(node, offset, from - offset, to - offset));
      }
    }

    /** The value of one row. Needs no order. */
    method ValueAt(row: nat) returns (r: Answer<u64>)
      requires Valid() && row < RowCount(column)
      modifies this
      ensures Valid() && Grew(old(cells), cells)
      ensures r.Found? ==> r.value == Flat(column)[row]
      ensures Justified(column, r, 0, |column.leaves|)
    {
      hide SomeUnreachable, SomeDeclines, OnlyLeaves, Sound, Grew, Fetched, LeafValues, Flat, WF, Decode, Len, LeafHolding, NodeSearch.ValueAt;
      var holding := LeafHolding(column, row);
      HoldingInside(column, row, holding);
      var k := Min(holding, |column.leaves| - 1);
      var probe := ChunkProbe(k);
      Wider(column, k, k + 1, 0, |column.leaves|);
      match probe {
        case Failed => return Failed;
        case Declined => return Declined;
        case Found(node) =>
          var local := row - column.leaves[k].rowOffset;
          FlatRow(column, k, local);
          return Found(NodeSearch.ValueAt(node, local));
      }
    }

    /** Point reads of any list of rows, one probe for each stretch of it that
        stays in a leaf. Needs no order. */
    method ValuesAt(rows: seq<nat>) returns (r: Answer<seq<u64>>)
      requires Valid() && SortedProbe.AllIn(rows, 0, |Flat(column)|)
      modifies this
      ensures Valid() && Grew(old(cells), cells)
      ensures r.Found? ==> r.value == SortedProbe.Picked(Flat(column), 0, rows)
      ensures Justified(column, r, 0, |column.leaves|)
    {
      hide SomeUnreachable, SomeDeclines, OnlyLeaves, Sound, Grew, Fetched, LeafValues, Flat, WF, Decode, Len, LeafHolding, RowCount, WFColumn, Wrote;
      GrewNot(cells);
      if |rows| == 1 {
        var one := ValueAt(rows[0]);
        match one {
          case Failed => return Failed;
          case Declined => return Declined;
          case Found(v) => return Found([v]);
        }
      }
      var values := new u64[|rows|](_ => 0);
      ghost var picked, was := SortedProbe.Picked(Flat(column), 0, rows), values[..];
      WroteNothing(was, 0, picked);
      var i := 0;
      while i < |rows|
        invariant 0 <= i <= |rows| && fresh(values)
        invariant Valid() && Grew(old(cells), cells)
        invariant Wrote(values[..], was, 0, picked[..i])
      {
        ghost var before, mid := cells, values[..];
        var done := ReadInLeaf(rows, i, values);
        GrewTwice(old(cells), before, cells);
        match done {
          case Failed => return Failed;
          case Declined => return Declined;
          case Found(end) =>
            ghost var now := values[..];
            WroteNext(now, mid, was, 0, picked, i, picked[i..end]);
            i := end;
        }
      }
      assert picked[..|rows|] == picked;
      WroteAll(values[..], was, picked);
      return Found(values[..]);
    }

    /** Reads the list's rows from row `i` on until it leaves their leaf, and
        answers where it does. */
    method ReadInLeaf(rows: seq<nat>, i: nat, values: array<u64>) returns (r: Answer<nat>)
      requires Valid() && SortedProbe.AllIn(rows, 0, |Flat(column)|) && i < |rows| == values.Length
      modifies this, values
      ensures Valid() && Grew(old(cells), cells) && Justified(column, r, 0, |column.leaves|)
      ensures r.Found? ==> i < r.value <= |rows|
      ensures r.Found? ==> Wrote(values[..], old(values[..]), i, SortedProbe.Picked(Flat(column), 0, rows)[i..r.value])
    {
      hide SomeUnreachable, SomeDeclines, OnlyLeaves, Sound, Grew, Fetched, LeafValues, Flat, WF, Decode, Len, LeafHolding, RowCount, WFColumn, Wrote;
      var k := LeafHolding(column, rows[i]);
      HoldingInside(column, rows[i], k);
      var end := i + RowsInside(column, k, rows[i..]);
      var probe := ChunkProbe(k);
      Wider(column, k, k + 1, 0, |column.leaves|);
      match probe
      case Failed => r := Failed;
      case Declined => r := Declined;
      case Found(node) =>
        InsideLeaf(column, k, rows, i, end);
        SortedProbe.ReadRows(node, column.leaves[k].rowOffset, rows, i, end, values);
        r := Found(end);
    }

    /** The same for rows that ascend, where a leaf that declines is read as
        well. */
    method Take(rows: seq<nat>) returns (r: Option<seq<u64>>)
      requires Valid() && SortedProbe.AllIn(rows, 0, |Flat(column)|)
      requires RowsAscend(rows)
      modifies this
      ensures Valid() && Grew(old(cells), cells)
      ensures r.Some? ==> r.value == SortedProbe.Picked(Flat(column), 0, rows)
      ensures r.None? ==> SomeUnreachable(column, 0, |column.leaves|)
    {
      hide SomeUnreachable, SomeDeclines, OnlyLeaves, Sound, Grew, Fetched, LeafArray, Flat, RowCount, WFColumn, LeafFits, RowsBelow, HoldingFrom;
      ghost var picked := SortedProbe.Picked(Flat(column), 0, rows);
      var taken: seq<u64>, i: nat, k: nat := [], 0, 0;
      GrewNot(cells);
      while i < |rows|
        invariant i <= |rows| && taken == picked[..i]
        invariant Valid() && Grew(old(cells), cells)
        invariant i < |rows| ==> k <= |column.leaves| && (k > 0 ==> LeafEnd(column.leaves[k - 1]) <= rows[i])
      {
        k := HoldingFrom(column, rows[i], k);
        HoldingInside(column, rows[i], k);
        var to := RowsBelow(rows, i, LeafEnd(column.leaves[k]));
        ghost var before := cells;
        var leaf := ChunkLeaf(k);
        GrewTwice(old(cells), before, cells);
        ThisLeaf(column, k, 0, |column.leaves|);
        if leaf.None? {
          return None;
        }
        var part := TakeInLeaf(column, k, leaf.value, rows, i, to);
        taken, i := taken + part, to;
      }
      r := Some(taken);
    }

    /** The count of a window's rows equal to the needle, a leaf that declines
        counted on its values. */
    method CountEq(from: nat, to: nat, needle: u64) returns (r: Option<nat>)
      requires Valid() && from <= to <= RowCount(column)
      modifies this
      ensures Valid() && Grew(old(cells), cells)
      ensures r.Some? && CountsFind(column, needle) ==> r.value == |Matches(Flat(column)[from..to], needle, 0)|
      ensures r.None? ==> SomeUnreachable(column, 0, |column.leaves|)
    {
      hide SomeUnreachable, SomeDeclines, OnlyLeaves, Sound, Grew, Fetched, LeafValues, LeafArray, Flat, RowCount, WFColumn, WF, Decode, Len, Matches, LeafHolding, Searchable;
      var count, at := 0, from;
      GrewNot(cells);
      ghost var rows := Flat(column)[from..to];
      MatchesNone(rows[..0], needle, 0);
      while at < to
        invariant from <= at <= to && Valid() && Grew(old(cells), cells)
        invariant CountsFind(column, needle) ==> count == |Matches(rows[..at - from], needle, 0)|
      {
        var k := LeafHolding(column, at);
        HoldingInside(column, at, k);
        var end := Min(to, LeafEnd(column.leaves[k]));
        ghost var before := cells;
        var leaf := ChunkLeaf(k);
        GrewTwice(old(cells), before, cells);
        ThisLeaf(column, k, 0, |column.leaves|);
        if leaf.None? {
          return None;
        }
        assert CountsFind(column, needle) ==> LeafSearchable(column, k, needle);
        var more := CountInLeaf(column, k, leaf.value, at, end, needle);
        CountGrows(rows, at - from, end - from, needle);
        SliceOfSlice(Flat(column), from, to, at - from, end - from);
        count, at := count + more, end;
      }
      assert rows[..to - from] == rows;
      r := Some(count);
    }
  }

  /** How many of `rows`, from the first, lie in leaf `k`. */
  function RowsInside(c: Column, k: nat, rows: seq<nat>): (n: nat)
    requires k < |c.leaves|
    ensures n <= |rows| && forall i :: 0 <= i < n ==> c.leaves[k].rowOffset <= rows[i] < LeafEnd(c.leaves[k])
    ensures rows != [] && c.leaves[k].rowOffset <= rows[0] < LeafEnd(c.leaves[k]) ==> n > 0
  {
    if rows == [] || !(c.leaves[k].rowOffset <= rows[0] < LeafEnd(c.leaves[k])) then 0
    else
      var rest := RowsInside(c, k, rows[1..]);
      assert forall i :: 0 < i < rest + 1 ==> rows[i] == rows[1..][i - 1];
      1 + rest
  }

  /** Rows inside a leaf pick from its values what they pick from the column. */
  lemma InsideLeaf(c: Column, k: nat, rows: seq<nat>, from: nat, to: nat)
    requires WFColumn(c) && k < |c.leaves| && from <= to <= |rows|
    requires SortedProbe.AllIn(rows, 0, |Flat(c)|)
    requires to - from <= RowsInside(c, k, rows[from..])
    ensures SortedProbe.AllIn(rows[from..to], c.leaves[k].rowOffset, c.leaves[k].rowOffset + |LeafValues(c, k)|)
    ensures SortedProbe.Picked(LeafValues(c, k), c.leaves[k].rowOffset, rows[from..to]) ==
            SortedProbe.Picked(Flat(c), 0, rows)[from..to]
  {
    hide LeafValues, Flat, WFColumn, RowCount, RowsInside;
    forall i | from <= i < to
      ensures c.leaves[k].rowOffset <= rows[i] < LeafEnd(c.leaves[k])
      ensures Flat(c)[rows[i]] == LeafValues(c, k)[rows[i] - c.leaves[k].rowOffset]
    {
      assert rows[i] == rows[from..][i - from];
      FlatRow(c, k, rows[i] - c.leaves[k].rowOffset);
    }
  }

  lemma LeafRead(c: Column, k: nat)
    requires WFColumn(c) && k < |c.leaves|
    ensures LeafFits(c, k) && LeafArray(c, k).values == LeafValues(c, k)
    ensures |LeafValues(c, k)| == c.leaves[k].rowCount && LeafEnd(c.leaves[k]) <= RowCount(c)
  {
    assert LeafFits(c, k);
    FlatHolds(c, k);
  }

  /** The leaf holding a row at or past those of the leaves before `k`. */
  function HoldingFrom(c: Column, row: nat, k: nat): (r: nat)
    requires k <= |c.leaves| && (k > 0 ==> LeafEnd(c.leaves[k - 1]) <= row)
    ensures k <= r && Holding(c, row, r)
  {
    hide PartitionPoint;
    var rest := c.leaves[k..];
    var p := PartitionPoint(EndedFrom(rest, row));
    assert p > 0 ==> rest[p - 1] == c.leaves[k + p - 1];
    assert p < |rest| ==> rest[p] == c.leaves[k + p];
    k + p
  }

  function EndedFrom(leaves: seq<Leaf>, row: nat): (ended: seq<bool>)
    ensures |ended| == |leaves| && forall i :: 0 <= i < |leaves| ==> ended[i] == (LeafEnd(leaves[i]) <= row)
  {
    seq(|leaves|, i requires 0 <= i < |leaves| => LeafEnd(leaves[i]) <= row)
  }

  ghost predicate RowsAscend(rows: seq<nat>) {
    forall i, j :: 0 <= i <= j < |rows| ==> rows[i] <= rows[j]
  }

  /** Where the ascending `rows` from `from` on first reach `end`. */
  function RowsBelow(rows: seq<nat>, from: nat, end: nat): (to: nat)
    requires RowsAscend(rows) && from <= |rows|
    ensures from <= to <= |rows| && (to < |rows| ==> rows[to] >= end)
    ensures forall i :: from <= i < to ==> rows[from] <= rows[i] < end
    ensures from < |rows| && rows[from] < end ==> from < to
  {
    from + PartitionPoint(seq(|rows| - from, i requires 0 <= i < |rows| - from => rows[from + i] < end))
  }

  /** Ascending rows from one in leaf `k` on, before its end, lie inside it. */
  lemma BelowIsInside(c: Column, k: nat, rows: seq<nat>, from: nat, to: nat)
    requires WFColumn(c) && k < |c.leaves| && from < to <= |rows|
    requires SortedProbe.AllIn(rows, 0, |Flat(c)|)
    requires forall i :: from <= i < to ==> c.leaves[k].rowOffset <= rows[i] < LeafEnd(c.leaves[k])
    ensures SortedProbe.AllIn(rows[from..to], c.leaves[k].rowOffset, c.leaves[k].rowOffset + |LeafValues(c, k)|)
    ensures SortedProbe.Picked(LeafValues(c, k), c.leaves[k].rowOffset, rows[from..to]) ==
            SortedProbe.Picked(Flat(c), 0, rows)[from..to]
  {
    hide LeafValues, Flat, WFColumn, RowCount;
    forall i | from <= i < to
      ensures Flat(c)[rows[i]] == LeafValues(c, k)[rows[i] - c.leaves[k].rowOffset]
    {
      FlatRow(c, k, rows[i] - c.leaves[k].rowOffset);
    }
  }

  method TakeInLeaf(c: Column, k: nat, leaf: Encoded, rows: seq<nat>, from: nat, to: nat) returns (part: seq<u64>)
    requires WFColumn(c) && k < |c.leaves| && LeafFits(c, k) && leaf == LeafArray(c, k)
    requires SortedProbe.AllIn(rows, 0, |Flat(c)|) && from < to <= |rows|
    requires forall i :: from <= i < to ==> c.leaves[k].rowOffset <= rows[i] < LeafEnd(c.leaves[k])
    ensures part == SortedProbe.Picked(Flat(c), 0, rows)[from..to]
  {
    hide LeafValues, LeafArray, Flat, WFColumn, RowCount, LeafFits;
    LeafRead(c, k);
    BelowIsInside(c, k, rows, from, to);
    part := TakeRows(leaf.values, c.leaves[k].rowOffset, rows[from..to]);
  }

  /** An array's values at `rows`, counted from its first. */
  method TakeRows(values: seq<u64>, offset: nat, rows: seq<nat>) returns (taken: seq<u64>)
    requires SortedProbe.AllIn(rows, offset, offset + |values|)
    ensures taken == SortedProbe.Picked(values, offset, rows)
  {
    taken := [];
    for i := 0 to |rows|
      invariant taken == SortedProbe.Picked(values, offset, rows)[..i]
    {
      taken := taken + [values[rows[i] - offset]];
    }
  }

  method CountInLeaf(c: Column, k: nat, leaf: Encoded, from: nat, to: nat, needle: u64) returns (count: nat)
    requires WFColumn(c) && k < |c.leaves| && LeafFits(c, k) && leaf == LeafArray(c, k)
    requires c.leaves[k].rowOffset <= from <= to <= LeafEnd(c.leaves[k])
    ensures to <= RowCount(c) && (LeafSearchable(c, k, needle) ==> count == |Matches(Flat(c)[from..to], needle, 0)|)
  {
    hide LeafValues, LeafArray, Flat, RowCount, WFColumn, WF, Decode, Len, Matches, LeafFits;
    LeafRead(c, k);
    LeafIsFaithful(c, k);
    FlatHolds(c, k);
    var (a, b) := (from - c.leaves[k].rowOffset, to - c.leaves[k].rowOffset);
    SliceOfSlice(Flat(c), c.leaves[k].rowOffset, LeafEnd(c.leaves[k]), a, b);
    match leaf.probe
    case Some(node) =>
      SortedProbe.LenOfDecode(node);
      count := SortedProbe.CountEq(node, a, b - a, needle);
    case None => count := TallyWide(leaf.values[a..b], needle);
  }

  lemma CountGrows(rows: seq<u64>, done: nat, next: nat, needle: u64)
    requires done <= next <= |rows|
    ensures |Matches(rows[..next], needle, 0)| ==
            |Matches(rows[..done], needle, 0)| + |Matches(rows[done..next], needle, 0)|
  {
    SeenGrows([], rows, done, next, needle, 0);
    MatchesMoved(rows[done..next], needle, done);
  }

  function RowsFrom(l: LeafRows): (row: nat) { l.rowOffset + l.from }

  function RowsTo(l: LeafRows): (row: nat) { l.rowOffset + l.to }

  lemma ShownInProbe(c: Column, l: LeafRows)
    requires WFColumn(c) && Shows(c, l)
    ensures InLeaf(l) && RowsFrom(l) < RowsTo(l) <= RowCount(c)
    ensures LeafRowsValues(l) == Flat(c)[RowsFrom(l)..RowsTo(l)]
  {
  }

  lemma LeavesHoldInOrder(c: Column, a: nat, b: nat, first: nat, last: nat)
    requires WFColumn(c) && a <= b < RowCount(c) && Holding(c, a, first) && Holding(c, b, last)
    ensures first <= last < |c.leaves|
  {
    HoldingInside(c, a, first);
    HoldingInside(c, b, last);
    if last < first {
      LeavesInOrder(c, last, first);
    }
  }

  /** What the bounds in the leaf say of the window: its lower bound, and its
      upper bound unless the needle's rows reach the end of the leaf's part. */
  lemma WindowRun(c: Column, from: nat, to: nat, needle: u64, l: LeafRows, r: Range)
    requires WFColumn(c) && to <= RowCount(c) && from <= RowsFrom(l) < RowsTo(l) <= to
    requires RowsFrom(l) <= r.from <= r.to <= RowsTo(l)
    requires Ascending(Flat(c)[from..to]) ==> Bounding(c, from, to, needle, RowsFrom(l), RowsTo(l))
    requires var (a, b) := (RowsFrom(l), RowsTo(l));
             Ascending(Flat(c)[a..b]) ==> IsRun(Flat(c)[a..b], needle, r.from - a, r.to - a)
    ensures Ascending(Flat(c)[from..to]) ==>
              && IsLower(Flat(c)[from..to], needle, r.from - from)
              && (r.to < RowsTo(l) || r.to == to || needle == U64_MAX ==>
                    IsUpper(Flat(c)[from..to], needle, (if r.to < RowsTo(l) then r.to else to) - from))
              && (r.to == RowsTo(l) ==> forall row :: from <= row < r.to ==> Flat(c)[row] <= needle)
  {
    hide Flat, RowCount;
    var (a, b) := (RowsFrom(l), RowsTo(l));
    var (rows, part) := (Flat(c)[from..to], Flat(c)[a..b]);
    if Ascending(rows) {
      PartAscends(Flat(c), from, to, a, b);
      PartBoundIsWindowBound(c, from, to, needle, a, b, r.from - a);
      forall row | from <= row < to
        ensures rows[row - from] == Flat(c)[row]
        ensures row < r.to ==> Flat(c)[row] <= needle
        ensures r.to < b && r.to <= row ==> Flat(c)[row] > needle
      {
        assert a <= row < b ==> part[row - a] == Flat(c)[row];
        assert r.to < b ==> part[r.to - a] == rows[r.to - from] > needle;
      }
    }
  }

  /** Part of an ascending window ascends. */
  lemma PartAscends(values: seq<u64>, from: nat, to: nat, a: nat, b: nat)
    requires from <= a <= b <= to <= |values| && Ascending(values[from..to])
    ensures Ascending(values[a..b])
  {
    var (rows, part) := (values[from..to], values[a..b]);
    assert forall i :: 0 <= i < b - a ==> part[i] == rows[(a - from) + i];
  }

  /** What the bound found past the leaf's part says of the window. */
  lemma RestRun(c: Column, from: nat, mid: nat, to: nat, needle: u64, l: LeafRows, upper: nat)
    requires WFColumn(c) && from <= mid < to <= RowCount(c) && needle < U64_MAX
    requires mid <= RowsFrom(l) < RowsTo(l) <= to && RowsFrom(l) <= upper <= RowsTo(l)
    requires Ascending(Flat(c)[mid..to]) ==> Bounding(c, mid, to, needle + 1, RowsFrom(l), RowsTo(l))
    requires var (a, b) := (RowsFrom(l), RowsTo(l));
             Ascending(Flat(c)[a..b]) ==> IsLower(Flat(c)[a..b], needle + 1, upper - a)
    ensures Ascending(Flat(c)[from..to]) && (forall row :: from <= row < mid ==> Flat(c)[row] <= needle) ==>
              IsUpper(Flat(c)[from..to], needle, upper - from)
  {
    hide Flat, RowCount;
    var (a, b) := (RowsFrom(l), RowsTo(l));
    var (rows, rest, part) := (Flat(c)[from..to], Flat(c)[mid..to], Flat(c)[a..b]);
    if Ascending(rows) && forall row :: from <= row < mid ==> Flat(c)[row] <= needle {
      PartAscends(Flat(c), from, to, mid, to);
      PartAscends(Flat(c), from, to, a, b);
      PartBoundIsWindowBound(c, mid, to, needle + 1, a, b, upper - a);
      forall i | 0 <= i < to - from
        ensures rows[i] <= needle <==> from + i < upper
      {
        assert mid <= from + i ==> rest[from + i - mid] == rows[i];
      }
    }
  }

  lemma GlobalLowerIf(c: Column, needle: int, k: nat, p: nat)
    requires WFColumn(c) && k <= |c.leaves|
    requires k > 0 ==> LeafLast(c, k - 1) < needle
    requires k < |c.leaves| ==> LeafLast(c, k) >= needle
    requires k < |c.leaves| && Ascending(LeafValues(c, k)) ==> IsLower(LeafValues(c, k), needle, p)
    ensures Ascending(Flat(c)) ==> IsLower(Flat(c), needle, if k == |c.leaves| then RowCount(c) else c.leaves[k].rowOffset + p)
  {
    hide Flat, LeafValues, LeafLast, RowCount;
    if Ascending(Flat(c)) {
      if k < |c.leaves| {
        LeafAscends(c, k);
      }
      GlobalLower(c, needle, k, p);
    }
  }

  lemma NoRowReaches(c: Column, needle: u64)
    requires WFColumn(c) && (|c.leaves| > 0 ==> LeafLast(c, |c.leaves| - 1) < needle)
    ensures Ascending(Flat(c)) ==> IsRun(Flat(c), needle, RowCount(c), RowCount(c))
  {
    hide Flat, LeafLast;
    GlobalLowerIf(c, needle, |c.leaves|, 0);
  }

  /** An ascending leaf splits at every needle. */
  lemma LeafSplits(c: Column, k: nat, needle: u64)
    requires WFColumn(c) && k < |c.leaves|
    ensures Ascending(LeafValues(c, k)) ==> SplitsAround(LeafValues(c, k), needle)
  {
    if Ascending(LeafValues(c, k)) {
      AscendingSplitsAround(LeafValues(c, k), needle);
    }
  }

  /** The probe's bounds are the leaf's, where it finds the needle. */
  lemma LeafRun(c: Column, k: nat, node: Node, needle: u64)
    requires WFColumn(c) && k < |c.leaves| && WF(node) && Decode(node) == LeafValues(c, k)
    ensures var r := NodeSearch.Bounds(node, needle);
            RightAt(node, needle) && Ascending(LeafValues(c, k)) ==> IsRun(LeafValues(c, k), needle, r.0, r.1)
  {
    hide LeafValues, NodeSearch.Bounds, WF, Decode;
    LeafSplits(c, k, needle);
    assert NodeSearch.RightUnlessHidden(node, needle, NodeSearch.Bounds(node, needle));
  }

  /** What the leaf's own bounds say of the column's, when they are `right`. */
  lemma GlobalRun(c: Column, needle: u64, k: nat, lo: nat, hi: nat, right: bool)
    requires WFColumn(c) && k < |c.leaves|
    requires k > 0 ==> LeafLast(c, k - 1) < needle
    requires LeafLast(c, k) >= needle
    requires right && Ascending(LeafValues(c, k)) ==> IsRun(LeafValues(c, k), needle, lo, hi)
    ensures right && Ascending(Flat(c)) ==> IsLower(Flat(c), needle, c.leaves[k].rowOffset + lo) && lo <= hi
    ensures right && Ascending(Flat(c)) && hi < c.leaves[k].rowCount ==> IsUpper(Flat(c), needle, c.leaves[k].rowOffset + hi)
    ensures right && Ascending(Flat(c)) && needle == U64_MAX ==> IsUpper(Flat(c), needle, RowCount(c))
  {
    hide Flat, LeafValues;
    if right && Ascending(Flat(c)) {
      LeafAscends(c, k);
      GlobalLower(c, needle, k, lo);
      RunIsOrdered(LeafValues(c, k), needle, lo, hi);
      if hi < c.leaves[k].rowCount {
        var last := c.leaves[k].rowCount - 1;
        assert LeafValues(c, k)[hi] <= LeafValues(c, k)[last];
        GlobalLower(c, needle + 1, k, hi);
      }
    }
  }

  lemma {:induction false} NoneFilled<T>(cells: seq<Option<T>>)
    requires forall k :: 0 <= k < |cells| ==> cells[k].None?
    ensures Filled(cells) == 0
  {
    if cells != [] {
      NoneFilled(cells[..|cells| - 1]);
    }
  }
}
