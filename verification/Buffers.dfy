/** Writes into part of a buffer: what a read of many values is handed. */
module Buffers {
  import opened Base

  /** A buffer once `rows` were written at `from` and nothing else was. */
  ghost predicate Wrote(now: seq<u64>, was: seq<u64>, from: nat, rows: seq<u64>) {
    && |now| == |was| && from + |rows| <= |now|
    && forall i :: 0 <= i < |now| ==> now[i] == if from <= i < from + |rows| then rows[i - from] else was[i]
  }

  method Fill(out: array<u64>, from: nat, to: nat, value: u64)
    requires from <= to <= out.Length
    modifies out
    ensures Wrote(out[..], old(out[..]), from, Repeat(value, to - from))
  {
    for k := from to to
      invariant Wrote(out[..], old(out[..]), from, Repeat(value, k - from))
    {
      out[k] := value;
    }
  }

  /** Copies `values` into `out` at `from`. */
  method Put(out: array<u64>, from: nat, values: seq<u64>)
    requires from + |values| <= out.Length
    modifies out
    ensures Wrote(out[..], old(out[..]), from, values)
  {
    for k := 0 to |values|
      invariant Wrote(out[..], old(out[..]), from, values[..k])
    {
      out[from + k] := values[k];
    }
    assert values[..|values|] == values;
  }

  lemma WroteNothing(was: seq<u64>, from: nat, rows: seq<u64>)
    requires from <= |was|
    ensures Wrote(was, was, from, rows[..0])
  {
  }

  /** Writing the next rows where the ones before ended writes them all. */
  lemma WroteNext(now: seq<u64>, mid: seq<u64>, was: seq<u64>, from: nat, rows: seq<u64>, done: nat, more: seq<u64>)
    requires done + |more| <= |rows| && more == rows[done..done + |more|]
    requires Wrote(mid, was, from, rows[..done]) && Wrote(now, mid, from + done, more)
    ensures Wrote(now, was, from, rows[..done + |more|])
  {
  }

  /** Mapping a buffer in place: one more of the `stored` values became its row. */
  lemma MappedNext(now: seq<u64>, mid: seq<u64>, was: seq<u64>, from: nat, rows: seq<u64>, stored: seq<u64>, j: nat)
    requires |rows| == |stored| && j < |rows| && from + |rows| <= |mid|
    requires Wrote(mid, was, from, rows[..j] + stored[j..]) && now == mid[from + j := rows[j]]
    ensures Wrote(now, was, from, rows[..j + 1] + stored[j + 1..])
  {
    var (before, after) := (rows[..j] + stored[j..], rows[..j + 1] + stored[j + 1..]);
    assert after == before[j := rows[j]];
  }

  lemma MappedAt(now: seq<u64>, was: seq<u64>, from: nat, rows: seq<u64>, stored: seq<u64>, j: nat)
    requires |rows| == |stored| && j < |rows| && Wrote(now, was, from, rows[..j] + stored[j..])
    ensures from + j < |now| && now[from + j] == stored[j]
  {
  }

  lemma MappedStart(stored: seq<u64>, rows: seq<u64>)
    ensures rows[..0] + stored[0..] == stored
  {
  }

  lemma MappedEnd(stored: seq<u64>, rows: seq<u64>)
    requires |stored| == |rows|
    ensures rows[..|rows|] + stored[|rows|..] == rows
  {
  }

  lemma SliceOfSlice(s: seq<u64>, a: nat, b: nat, c: nat, d: nat)
    requires a <= b <= |s| && c <= d <= b - a
    ensures s[a..b][c..d] == s[a + c..a + d]
  {
    forall k | 0 <= k < d - c
      ensures s[a..b][c..d][k] == s[a + c..a + d][k]
    {
      assert s[a..b][c + k] == s[a + (c + k)];
    }
  }

  lemma WroteAll(now: seq<u64>, was: seq<u64>, rows: seq<u64>)
    requires Wrote(now, was, 0, rows) && |was| == |rows|
    ensures now == rows
  {
  }
}
