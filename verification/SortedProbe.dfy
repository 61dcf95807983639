/** The probe callers hold: one resolved tree, searched and read whole or in a
    window. */
module SortedProbe {
  import opened Base
  import opened Buffers
  import opened Search
  import opened Sinks
  import opened Nodes
  import opened NodeSearch
  import NodeBulk

  /** Over a window that splits around the needle, as an ascending one does,
      `r` is its rows equal to it. */
  ghost predicate FoundIn(root: Node, from: nat, to: nat, needle: u64, r: (nat, nat)) {
    WF(root) && from <= to <= Len(root) && SplitsAround(Part(root, from, to - from), needle) ==>
      IsRunFrom(Part(root, from, to - from), needle, from, r.0, r.1)
  }

  /** The needle's run in a window, found by reading the window's rows and no
      others. A window that ends before it starts is empty, at its start. */
  function BoundsIn(root: Node, from: nat, to: nat, needle: u64): (r: (nat, nat))
    requires WF(root) && to <= Len(root)
    ensures from <= r.0 <= r.1 <= Max(from, to)
    ensures FoundIn(root, from, to, needle, r)
  {
    hide WF, Decode, Len, CappedBounds;
    var window := if from <= to then ReadAll(root, from, to - from) else [];
    var r := CappedBounds(window, needle);
    (from + r.0, from + r.1)
  }

  /** How many of the rows `start..start + len` equal the needle. */
  method CountEq(root: Node, start: nat, len: nat, needle: u64) returns (count: nat)
    requires WF(root) && start + len <= Len(root)
    ensures Searchable(root, needle) ==> count == |Matches(Part(root, start, len), needle, 0)|
  {
    hide WF, Decode, Len, Matches;
    var sink := new EqSink(Counting, []);
    NodeBulk.EqInto(root, start, len, needle, 0, sink);
    assert Searchable(root, needle) ==> sink.seen == Matches(Part(root, start, len), needle, 0);
    count := sink.count;
  }

  /** Their offsets, appended to `out`. */
  method EqOffsets(root: Node, start: nat, len: nat, needle: u64, out: seq<nat>) returns (r: seq<nat>)
    requires WF(root) && start + len <= Len(root)
    ensures out <= r && (Searchable(root, needle) ==> r == out + Matches(Part(root, start, len), needle, 0))
  {
    hide WF, Decode, Len, Matches;
    var sink := new EqSink(Collecting, out);
    NodeBulk.EqInto(root, start, len, needle, 0, sink);
    assert Searchable(root, needle) ==> sink.seen == Matches(Part(root, start, len), needle, 0);
    r := sink.offsets;
  }

  /** How many values from the first follow one another, at least one. */
  function ConsecutiveRun(values: seq<nat>): (run: nat)
    ensures run >= 1 && (values != [] ==> run <= |values|)
    ensures forall k :: 0 <= k < run && k < |values| ==> values[k] == values[0] + k
    ensures run < |values| ==> values[run] != values[run - 1] + 1
  {
    if |values| < 2 || values[1] != values[0] + 1 then 1
    else
      var rest := ConsecutiveRun(values[1..]);
      assert forall k :: 0 < k < rest + 1 ==> values[k] == values[1..][k - 1];
      1 + rest
  }

  ghost predicate AllIn(rows: seq<nat>, from: nat, to: nat) {
    forall i :: 0 <= i < |rows| ==> from <= rows[i] < to
  }

  /** The values at `rows`, counted from `offset`. */
  ghost function Picked(values: seq<u64>, offset: nat, rows: seq<nat>): (picked: seq<u64>)
    requires AllIn(rows, offset, offset + |values|)
    ensures |picked| == |rows| && forall i :: 0 <= i < |rows| ==> picked[i] == values[rows[i] - offset]
  {
    seq(|rows|, i requires 0 <= i < |rows| => values[rows[i] - offset])
  }

  /** Writes the listed rows' values into their places and nothing else, the
      list taken in runs of neighbours. */
  method ReadRows(root: Node, offset: nat, rows: seq<nat>, from: nat, to: nat, out: array<u64>)
    requires WF(root) && from <= to <= |rows| && to <= out.Length
    requires AllIn(rows[from..to], offset, offset + |Decode(root)|)
    modifies out
    ensures Wrote(out[..], old(out[..]), from, Picked(Decode(root), offset, rows[from..to]))
  {
    hide WF, Decode, Len, ConsecutiveRun, Wrote, Picked;
    ghost var picked, was := Picked(Decode(root), offset, rows[from..to]), out[..];
    WroteNothing(was, from, picked);
    var i := from;
    while i < to
      invariant from <= i <= to
      invariant Wrote(out[..], was, from, picked[..i - from])
    {
      ghost var mid := out[..];
      var run := ReadRun(root, offset, rows, from, to, i, out);
      ghost var now := out[..];
      WroteNext(now, mid, was, from, picked, i - from, picked[i - from..i - from + run]);
      i := i + run;
    }
    assert picked[..to - from] == picked;
  }

  /** The run of consecutive rows from row `i` on, in one pass. */
  method ReadRun(root: Node, offset: nat, rows: seq<nat>, from: nat, to: nat, i: nat, out: array<u64>)
    returns (run: nat)
    requires WF(root) && from <= i < to <= |rows| && to <= out.Length
    requires AllIn(rows[from..to], offset, offset + |Decode(root)|)
    modifies out
    ensures 1 <= run && i + run <= to
    ensures Wrote(out[..], old(out[..]), i, Picked(Decode(root), offset, rows[from..to])[i - from..i - from + run])
  {
    hide WF, Decode, Len, ConsecutiveRun, Wrote, Picked, AllIn, Part, Row;
    run := ConsecutiveRun(rows[i..to]);
    RunInRange(root, offset, rows, from, to, i, run);
    RunPicked(root, offset, rows, from, to, i, run);
    if run == 1 {
      PartOfOne(root, rows[i] - offset);
      Put(out, i, [ValueAt(root, rows[i] - offset)]);
    } else {
      NodeBulk.ReadInto(root, rows[i] - offset, out, i, i + run);
    }
  }

  lemma LenOfDecode(n: Node)
    requires WF(n)
    ensures Len(n) == |Decode(n)|
  {
  }

  lemma PartOfOne(root: Node, row: nat)
    requires WF(root) && row < Len(root)
    ensures Part(root, row, 1) == [Row(root, row)]
  {
    hide WF, Decode, Len;
  }

  /** A run of consecutive rows lies inside the node. */
  lemma RunInRange(root: Node, offset: nat, rows: seq<nat>, from: nat, to: nat, i: nat, run: nat)
    requires WF(root) && from <= i < to <= |rows| && run == ConsecutiveRun(rows[i..to])
    requires AllIn(rows[from..to], offset, offset + |Decode(root)|)
    ensures i + run <= to && offset <= rows[i] && rows[i] - offset + run <= Len(root)
    ensures forall j :: i - from <= j < i - from + run ==> rows[from..to][j] == rows[i] + (j - (i - from))
  {
    hide WF, Decode, Len, ConsecutiveRun;
    LenOfDecode(root);
    var own := rows[from..to];
    assert forall j :: i - from <= j < i - from + run ==> own[j] == rows[i..to][j - (i - from)];
    assert own[i - from] == rows[i];
    assert own[i - from + run - 1] == rows[i] + run - 1;
  }

  /** A run of consecutive rows is one part of the node. */
  lemma RunPicked(root: Node, offset: nat, rows: seq<nat>, from: nat, to: nat, i: nat, run: nat)
    requires WF(root) && from <= i < to <= |rows| && run == ConsecutiveRun(rows[i..to])
    requires AllIn(rows[from..to], offset, offset + |Decode(root)|)
    ensures i + run <= to && offset <= rows[i] && rows[i] - offset + run <= Len(root)
    ensures Picked(Decode(root), offset, rows[from..to])[i - from..i - from + run] == Part(root, rows[i] - offset, run)
  {
    hide WF, Decode, Len, ConsecutiveRun;
    RunInRange(root, offset, rows, from, to, i, run);
    LenOfDecode(root);
    PickedRun(Decode(root), offset, rows[from..to], i - from, run, rows[i]);
  }

  lemma PickedRun(values: seq<u64>, offset: nat, rows: seq<nat>, at: nat, run: nat, first: nat)
    requires AllIn(rows, offset, offset + |values|) && at + run <= |rows|
    requires offset <= first && first - offset + run <= |values|
    requires forall j :: at <= j < at + run ==> rows[j] == first + (j - at)
    ensures Picked(values, offset, rows)[at..at + run] == values[first - offset..first - offset + run]
  {
    var (picked, part) := (Picked(values, offset, rows), values[first - offset..first - offset + run]);
    assert forall j :: at <= j < at + run ==> picked[j] == part[j - at];
  }

  /** The whole list, into a buffer of its length. */
  method ReadAt(root: Node, indices: seq<nat>, out: array<u64>)
    requires WF(root) && out.Length == |indices|
    requires AllIn(indices, 0, |Decode(root)|)
    modifies out
    ensures out[..] == Picked(Decode(root), 0, indices)
  {
    hide WF, Decode;
    assert indices[0..|indices|] == indices;
    ghost var was := out[..];
    ReadRows(root, 0, indices, 0, |indices|, out);
    WroteAll(out[..], was, Picked(Decode(root), 0, indices));
  }
}
