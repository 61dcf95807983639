/** The three sinks of an equality search, each specified by one sequence: the
    offsets it has seen. A count is its length, an appended list its suffix, a
    code what it amounts to. */
module Sinks {
  import opened Base
  import opened Words

  /** The offsets `at + k` of the values equal to `needle`, in order. */
  function Matches(values: seq<u64>, needle: u64, at: nat): (offsets: seq<nat>)
    ensures |offsets| <= |values|
  {
    if values == [] then []
    else
      var last := |values| - 1;
      Matches(values[..last], needle, at) + (if values[last] == needle then [at + last] else [])
  }

  /** The offsets found are the matching ones and no others. */
  lemma {:induction false} MatchesExact(values: seq<u64>, needle: u64, at: nat, o: nat)
    ensures o in Matches(values, needle, at) <==> at <= o < at + |values| && values[o - at] == needle
  {
    if values != [] {
      MatchesExact(values[..|values| - 1], needle, at, o);
    }
  }

  /** They are handed on once each, ascending. */
  lemma {:induction false} MatchesAscend(values: seq<u64>, needle: u64, at: nat)
    ensures forall i, j :: 0 <= i < j < |Matches(values, needle, at)| ==>
              Matches(values, needle, at)[i] < Matches(values, needle, at)[j]
  {
    if values != [] {
      var before := Matches(values[..|values| - 1], needle, at);
      MatchesAscend(values[..|values| - 1], needle, at);
      forall i | 0 <= i < |before|
        ensures before[i] < at + |values| - 1
      {
        MatchesExact(values[..|values| - 1], needle, at, before[i]);
      }
    }
  }

  lemma {:induction false} MatchesConcat(a: seq<u64>, b: seq<u64>, needle: u64, at: nat)
    ensures Matches(a + b, needle, at) == Matches(a, needle, at) + Matches(b, needle, at + |a|)
  {
    if b == [] {
      assert a + b == a;
    } else {
      var (before, last) := (b[..|b| - 1], b[|b| - 1]);
      MatchesConcat(a, before, needle, at);
      SplitLast(a, b);
      MatchesConcatNext(a, before, last, needle, at);
    }
  }

  lemma MatchesConcatNext(a: seq<u64>, b: seq<u64>, last: u64, needle: u64, at: nat)
    requires Matches(a + b, needle, at) == Matches(a, needle, at) + Matches(b, needle, at + |a|)
    ensures Matches(a + b + [last], needle, at) == Matches(a, needle, at) + Matches(b + [last], needle, at + |a|)
  {
    MatchesNext(b, last, needle, at + |a|);
    MatchesNext(a + b, last, needle, at);
    hide Matches;
    AppendIsAssociative(Matches(a, needle, at), Matches(b, needle, at + |a|), if last == needle then [at + |a| + |b|] else []);
  }

  lemma MatchesNext(values: seq<u64>, last: u64, needle: u64, at: nat)
    ensures Matches(values + [last], needle, at) ==
            Matches(values, needle, at) + (if last == needle then [at + |values|] else [])
  {
    assert (values + [last])[..|values|] == values;
  }

  /** A sink that has seen a window's matches up to `done` sees the next rows'. */
  lemma SeenGrows(before: seq<nat>, rows: seq<u64>, done: nat, next: nat, needle: u64, at: nat)
    requires done <= next <= |rows|
    ensures before + Matches(rows[..next], needle, at) ==
            before + Matches(rows[..done], needle, at) + Matches(rows[done..next], needle, at + done)
  {
    assert rows[..done] + rows[done..next] == rows[..next];
    MatchesConcat(rows[..done], rows[done..next], needle, at);
  }

  function Range(from: nat, to: nat): (offsets: seq<nat>)
    requires from <= to
    ensures |offsets| == to - from && forall i :: 0 <= i < |offsets| ==> offsets[i] == from + i
  {
    seq(to - from, i requires 0 <= i => from + i)
  }

  /** Rows of one value match whole, or not at all. */
  lemma {:induction false} MatchesOfOneValue(rows: seq<u64>, value: u64, needle: u64, at: nat)
    requires forall i :: 0 <= i < |rows| ==> rows[i] == value
    ensures Matches(rows, needle, at) == if value == needle then Range(at, at + |rows|) else []
  {
    if rows != [] {
      var last := |rows| - 1;
      MatchesOfOneValue(rows[..last], value, needle, at);
      assert Range(at, at + last) + [at + last] == Range(at, at + |rows|);
    }
  }

  /** Values that match position for position have the same offsets. */
  lemma {:induction false} MatchesTogether(a: seq<u64>, x: u64, b: seq<u64>, y: u64, at: nat)
    requires |a| == |b| && forall i :: 0 <= i < |a| ==> (a[i] == x <==> b[i] == y)
    ensures Matches(a, x, at) == Matches(b, y, at)
  {
    if a != [] {
      MatchesTogether(a[..|a| - 1], x, b[..|b| - 1], y, at);
    }
  }

  /** Values only one of which may match. */
  lemma {:induction false} MatchesOfOnePosition(values: seq<u64>, needle: u64, at: nat, k: nat)
    requires k < |values| && forall i :: 0 <= i < |values| ==> (values[i] == needle <==> i == k)
    ensures Matches(values, needle, at) == [at + k]
  {
    var last := |values| - 1;
    if k == last {
      MatchesNone(values[..last], needle, at);
    } else {
      MatchesOfOnePosition(values[..last], needle, at, k);
    }
  }

  lemma {:induction false} MatchesNone(values: seq<u64>, needle: u64, at: nat)
    requires forall i :: 0 <= i < |values| ==> values[i] != needle
    ensures Matches(values, needle, at) == []
  {
    if values != [] {
      MatchesNone(values[..|values| - 1], needle, at);
    }
  }

  datatype Gather = Counting | Collecting | FindingCode

  /** What the offsets found in a dictionary's values amount to. */
  datatype CodeOf = NoCode | One(code: nat) | Several

  function AddCode(code: CodeOf, next: nat): (r: CodeOf) {
    if code == NoCode then One(next) else Several
  }

  ghost function CodeIn(seen: seq<nat>): (code: CodeOf) {
    if seen == [] then NoCode else if |seen| == 1 then One(seen[0]) else Several
  }

  /** How many of `values` equal `needle`, in byte tallies over blocks of 255:
      no tally overflows. */
  method TallyNarrow(values: seq<u64>, needle: u64) returns (count: nat)
    ensures count == |Matches(values, needle, 0)|
  {
    var at := 0;
    count := 0;
    while at < |values|
      invariant at <= |values| && count == |Matches(values[..at], needle, 0)|
    {
      var block := values[at..Min(at + 255, |values|)];
      var tally: byte := 0;
      for k := 0 to |block|
        invariant tally <= k && tally == |Matches(block[..k], needle, at)|
      {
        assert block[..k + 1][..k] == block[..k];
        tally := tally + (if block[k] == needle then 1 else 0);
      }
      assert block[..|block|] == block;
      assert values[..at] + block == values[..at + |block|];
      MatchesConcat(values[..at], block, needle, 0);
      count := count + tally;
      at := at + |block|;
    }
    assert values[..at] == values;
  }

  method TallyWide(values: seq<u64>, needle: u64) returns (count: nat)
    ensures count == |Matches(values, needle, 0)|
  {
    count := 0;
    for k := 0 to |values|
      invariant count == |Matches(values[..k], needle, 0)|
    {
      assert values[..k + 1][..k] == values[..k];
      count := count + (if values[k] == needle then 1 else 0);
    }
    assert values[..|values|] == values;
  }

  lemma {:induction false} MatchesMoved(values: seq<u64>, needle: u64, at: nat)
    ensures |Matches(values, needle, at)| == |Matches(values, needle, 0)|
  {
    if values != [] {
      MatchesMoved(values[..|values| - 1], needle, at);
    }
  }

  /** A sink of matching offsets. `seen` is every offset handed to it. */
  class EqSink {
    const gather: Gather
    var count: nat
    var offsets: seq<nat>
    var code: CodeOf
    ghost var seen: seq<nat>
    ghost const before: seq<nat>

    ghost predicate Valid()
      reads this
    {
      match gather
      case Counting => count == |seen|
      case Collecting => offsets == before + seen
      case FindingCode => code == CodeIn(seen)
    }

    constructor (gather: Gather, before: seq<nat>)
      ensures Valid() && this.gather == gather && this.before == before && seen == []
    {
      this.gather, this.before := gather, before;
      count, offsets, code, seen := 0, before, NoCode, [];
    }

    /** Every offset of `from..to` matches. */
    method Run(from: nat, to: nat)
      requires Valid() && from <= to
      modifies this
      ensures Valid() && seen == old(seen) + Range(from, to)
    {
      match gather {
        case Counting =>
          count := count + (to - from);
        case Collecting =>
          offsets := offsets + Range(from, to);
        case FindingCode =>
          // Two codes settle it.
          if from < to {
            code := AddCode(code, from);
          }
          if from + 1 < to {
            code := AddCode(code, from + 1);
          }
      }
      seen := seen + Range(from, to);
    }

    /** A stretch of values starting at offset `at`: the sink has seen their
        matches besides, whatever their `width`. */
    method Matching(at: nat, values: seq<u64>, needle: u64, width: Width)
      requires Valid()
      modifies this
      ensures Valid() && seen == old(seen) + Matches(values, needle, at)
    {
      match gather {
        case Counting =>
          var n;
          if WordBytes(width) < 8 {
            n := TallyNarrow(values, needle);
          } else {
            n := TallyWide(values, needle);
          }
          MatchesMoved(values, needle, at);
          count := count + n;
        case Collecting =>
          offsets := offsets + Matches(values, needle, at);
        case FindingCode =>
          assert seen + [] == seen;
          for k := 0 to |values|
            invariant seen == old(seen)
            invariant code == CodeIn(seen + Matches(values[..k], needle, at))
          {
            assert values[..k + 1][..k] == values[..k];
            if values[k] == needle {
              assert seen + Matches(values[..k + 1], needle, at) == (seen + Matches(values[..k], needle, at)) + [at + k];
              code := AddCode(code, at + k);
            }
          }
          assert values[..|values|] == values;
      }
      seen := seen + Matches(values, needle, at);
    }
  }
}
