/** The run-end filter: ranks read off a mask's words are proved to be ranks,
    and the runs they keep to decode to the rows the mask keeps. */
module RunFilter {
  import opened Base
  import opened RunEnds

  // ----- words

  /** The word whose bit `i` is `bits[i]`. */
  function WordOf(bits: seq<bool>): (word: nat)
    ensures word < Pow2(|bits|)
  {
    if bits == [] then 0 else (if bits[0] then 1 else 0) + 2 * WordOf(bits[1..])
  }

  function CountOnes(word: nat): (n: nat) {
    if word == 0 then 0 else word % 2 + CountOnes(word / 2)
  }

  function And(a: nat, b: nat): (word: nat) {
    if a == 0 || b == 0 then 0
    else (if a % 2 == 1 && b % 2 == 1 then 1 else 0) + 2 * And(a / 2, b / 2)
  }

  function CountTrue(bits: seq<bool>): (n: nat)
    ensures n <= |bits|
  {
    if bits == [] then 0 else CountTrue(bits[..|bits| - 1]) + (if bits[|bits| - 1] then 1 else 0)
  }

  lemma {:induction false} CountConcat(a: seq<bool>, b: seq<bool>)
    ensures CountTrue(a + b) == CountTrue(a) + CountTrue(b)
    decreases |b|
  {
    if b == [] {
      assert a + b == a;
    } else {
      CountConcat(a, b[..|b| - 1]);
      assert (a + b)[..|a + b| - 1] == a + b[..|b| - 1];
    }
  }

  /** A word's population count is the number of bits set. */
  lemma {:induction false} OnesOfWord(bits: seq<bool>)
    ensures CountOnes(WordOf(bits)) == CountTrue(bits)
  {
    if bits != [] {
      OnesOfWord(bits[1..]);
      CountConcat(bits[..1], bits[1..]);
      assert bits[..1] + bits[1..] == bits && bits[..1] == [bits[0]] && bits[..1][..0] == [];
      var rest := WordOf(bits[1..]);
      assert WordOf(bits) / 2 == rest;
    }
  }

  /** Masking with the `k` low ones keeps the word's first `k` bits. */
  lemma {:induction false} LowBits(bits: seq<bool>, k: nat)
    requires k <= |bits|
    ensures And(WordOf(bits), Pow2(k) - 1) == WordOf(bits[..k])
  {
    if k > 0 {
      LowBits(bits[1..], k - 1);
      assert bits[..k][1..] == bits[1..][..k - 1] && bits[..k][0] == bits[0];
      var (word, low) := (WordOf(bits), Pow2(k) - 1);
      assert word / 2 == WordOf(bits[1..]) && low / 2 == Pow2(k - 1) - 1 && low % 2 == 1;
    }
  }

  /** The mask's bits from `64 * w` on, as many as one word holds. */
  function Bits(mask: seq<bool>, w: nat): (bits: seq<bool>)
    ensures |bits| <= 64
  {
    mask[Min(64 * w, |mask|)..Min(64 * w + 64, |mask|)]
  }

  /** The mask's words, the last padded with zeros. */
  function Words(mask: seq<bool>): (words: seq<nat>)
    ensures |words| == |mask| / 64 + 1
    ensures forall w :: 0 <= w < |words| ==> words[w] == WordOf(Bits(mask, w))
  {
    seq(|mask| / 64 + 1, w requires 0 <= w => WordOf(Bits(mask, w)))
  }

  /** The iterator's next word, zero past the last. */
  function NextWord(words: seq<nat>, at: nat): (word: nat) {
    if at < |words| then words[at] else 0
  }

  lemma NextWordHolds(mask: seq<bool>, at: nat)
    ensures NextWord(Words(mask), at) == WordOf(Bits(mask, at))
  {
  }

  // ----- ranks

  /** The kept rows before row `end`. */
  function Rank(mask: seq<bool>, end: nat): (rank: nat)
    requires end <= |mask|
    ensures rank <= end
  {
    CountTrue(mask[..end])
  }

  lemma RankGrows(mask: seq<bool>, a: nat, b: nat)
    requires a <= b <= |mask|
    ensures Rank(mask, b) == Rank(mask, a) + CountTrue(mask[a..b])
  {
    CountConcat(mask[..a], mask[a..b]);
    assert mask[..a] + mask[a..b] == mask[..b];
  }

  /** A rank from the words before a row's word and that word's low bits. */
  lemma RankFromWord(mask: seq<bool>, at: nat, end: nat)
    requires at * 64 <= end <= |mask| && end < (at + 1) * 64
    ensures Rank(mask, at * 64) + CountOnes(And(WordOf(Bits(mask, at)), Pow2(end - at * 64) - 1)) == Rank(mask, end)
  {
    hide CountTrue, And, CountOnes, WordOf, Pow2;
    BitsUpTo(mask, at, end);
    LowBits(Bits(mask, at), end - at * 64);
    OnesOfWord(Bits(mask, at)[..end - at * 64]);
    RankGrows(mask, at * 64, end);
  }

  lemma BitsUpTo(mask: seq<bool>, at: nat, end: nat)
    requires at * 64 <= end <= |mask| && end < (at + 1) * 64
    ensures end - at * 64 <= |Bits(mask, at)| && Bits(mask, at)[..end - at * 64] == mask[at * 64..end]
  {
    var (from, to) := (at * 64, Min(64 * at + 64, |mask|));
    assert Bits(mask, at) == mask[from..to];
    forall k | 0 <= k < end - from
      ensures mask[from..to][k] == mask[from..end][k]
    {
    }
  }

  /** Whether run `run` keeps a row. */
  ghost predicate Keeps(ends: seq<u64>, offset: nat, mask: seq<bool>, run: nat)
    requires run < |ends|
  {
    Rank(mask, RunStart(ends, run + 1, offset, |mask|)) > Rank(mask, RunStart(ends, run, offset, |mask|))
  }

  ghost function KeptRuns(ends: seq<u64>, offset: nat, mask: seq<bool>, runs: nat): (kept: seq<bool>)
    requires runs <= |ends|
    ensures |kept| == runs && forall run :: 0 <= run < runs ==> kept[run] == Keeps(ends, offset, mask, run)
  {
    seq(runs, run requires 0 <= run < runs => Keeps(ends, offset, mask, run))
  }

  /** The ends of the runs that keep a row, among the kept rows. */
  ghost function KeptEnds(ends: seq<u64>, offset: nat, mask: seq<bool>, runs: nat): (kept: seq<u64>)
    requires runs <= |ends| && |mask| <= U64_MAX
  {
    if runs == 0 then []
    else
      KeptEnds(ends, offset, mask, runs - 1)
      + (if Keeps(ends, offset, mask, runs - 1) then [Rank(mask, RunStart(ends, runs, offset, |mask|))] else [])
  }

  lemma StartsAscend(ends: seq<u64>, offset: nat, len: nat, run: nat)
    requires StrictlyAscending(ends) && run < |ends|
    ensures RunStart(ends, run, offset, len) <= RunStart(ends, run + 1, offset, len)
  {
  }

  /** Which runs keep a row and where each then ends. The words are read once,
      in order, and no shift reaches a word's width. */
  method KeptRunEnds(ends: seq<u64>, offset: nat, mask: seq<bool>) returns (pushed: seq<u64>, kept: seq<bool>)
    requires StrictlyAscending(ends) && |mask| <= U64_MAX
    ensures kept == KeptRuns(ends, offset, mask, |ends|)
    ensures pushed == KeptEnds(ends, offset, mask, |ends|)
  {
    hide CountOnes, CountTrue, And, WordOf, StrictlyAscending, Bits, KeptRuns, KeptEnds, RunStart, NextWord, Pow2, Rank, Keeps;
    var words := Words(mask);
    var at, word, before: nat := 0, NextWord(words, 0), 0;
    NextWordHolds(mask, 0);
    var ranked := 0;
    KeptNothing(ends, offset, mask);
    pushed, kept := [], [];
    for run := 0 to |ends|
      invariant at * 64 <= RunStart(ends, run, offset, |mask|)
      invariant word == WordOf(Bits(mask, at)) && before == Rank(mask, at * 64)
      invariant ranked == Rank(mask, RunStart(ends, run, offset, |mask|))
      invariant kept == KeptRuns(ends, offset, mask, run)
      invariant pushed == KeptEnds(ends, offset, mask, run)
    {
      var end := Min(Max(ends[run] - offset, 0), |mask|);
      KeptNext(ends, offset, mask, run, end);
      while (at + 1) * 64 <= end
        invariant at * 64 <= end
        invariant word == WordOf(Bits(mask, at)) && before == Rank(mask, at * 64)
        decreases end - at * 64
      {
        WholeWord(mask, at);
        before := before + CountOnes(word);
        NextWordHolds(mask, at + 1);
        word := NextWord(words, at + 1);
        at := at + 1;
      }
      var shift := end - at * 64;
      assert shift < 64;
      RankFromWord(mask, at, end);
      var rank := before + CountOnes(And(word, Pow2(shift) - 1));
      var keeps := rank > ranked;
      if keeps {
        pushed := pushed + [rank];
      }
      ranked := rank;
      kept := kept + [keeps];
    }
  }

  lemma KeptNothing(ends: seq<u64>, offset: nat, mask: seq<bool>)
    requires |mask| <= U64_MAX
    ensures RunStart(ends, 0, offset, |mask|) == 0 && Rank(mask, 0) == 0
    ensures KeptRuns(ends, offset, mask, 0) == [] && KeptEnds(ends, offset, mask, 0) == []
  {
  }

  lemma KeptNext(ends: seq<u64>, offset: nat, mask: seq<bool>, run: nat, end: nat)
    requires StrictlyAscending(ends) && |mask| <= U64_MAX && run < |ends|
    requires end == Min(Max(ends[run] - offset, 0), |mask|)
    ensures RunStart(ends, run, offset, |mask|) <= end == RunStart(ends, run + 1, offset, |mask|)
    ensures var keeps := Rank(mask, end) > Rank(mask, RunStart(ends, run, offset, |mask|));
            && KeptRuns(ends, offset, mask, run + 1) == KeptRuns(ends, offset, mask, run) + [keeps]
            && KeptEnds(ends, offset, mask, run + 1)
               == KeptEnds(ends, offset, mask, run) + (if keeps then [Rank(mask, end)] else [])
  {
    StartsAscend(ends, offset, |mask|, run);
  }

  lemma WholeWord(mask: seq<bool>, at: nat)
    requires (at + 1) * 64 <= |mask|
    ensures Rank(mask, at * 64) + CountOnes(WordOf(Bits(mask, at))) == Rank(mask, (at + 1) * 64)
  {
    OnesOfWord(Bits(mask, at));
    RankGrows(mask, at * 64, (at + 1) * 64);
  }

  // ----- what the kept runs decode to

  /** The rows a mask keeps. */
  function Filter<T>(rows: seq<T>, mask: seq<bool>): (kept: seq<T>)
    requires |rows| == |mask|
    ensures |kept| == CountTrue(mask)
    decreases |rows|
  {
    if rows == [] then []
    else
      var last := |rows| - 1;
      Filter(rows[..last], mask[..last]) + (if mask[last] then [rows[last]] else [])
  }

  lemma {:induction false} FilterConcat<T>(a: seq<T>, b: seq<T>, m: seq<bool>, n: seq<bool>)
    requires |a| == |m| && |b| == |n|
    ensures Filter(a + b, m + n) == Filter(a, m) + Filter(b, n)
    decreases |b|
  {
    if b == [] {
      assert a + b == a && m + n == m;
    } else {
      var last := |b| - 1;
      FilterConcat(a, b[..last], m, n[..last]);
      hide CountTrue, Filter;
      SplitLast(a, b);
      SplitLast(m, n);
      FilterConcatNext(a, b[..last], m, n[..last], b[last], n[last]);
    }
  }

  lemma FilterConcatNext<T>(a: seq<T>, b: seq<T>, m: seq<bool>, n: seq<bool>, row: T, keep: bool)
    requires |a| == |m| && |b| == |n| && Filter(a + b, m + n) == Filter(a, m) + Filter(b, n)
    ensures Filter(a + b + [row], m + n + [keep]) == Filter(a, m) + Filter(b + [row], n + [keep])
  {
    FilterMore(b, n, row, keep);
    FilterMore(a + b, m + n, row, keep);
    hide CountTrue, Filter;
    AppendIsAssociative(Filter(a, m), Filter(b, n), if keep then [row] else []);
  }

  lemma FilterMore<T>(rows: seq<T>, mask: seq<bool>, row: T, keep: bool)
    requires |rows| == |mask|
    ensures Filter(rows + [row], mask + [keep]) == Filter(rows, mask) + (if keep then [row] else [])
  {
    hide CountTrue;
    assert (rows + [row])[..|rows|] == rows && (mask + [keep])[..|mask|] == mask;
  }

  lemma {:induction false} FilterRepeat(value: u64, mask: seq<bool>)
    ensures Filter(Repeat(value, |mask|), mask) == Repeat(value, CountTrue(mask))
    decreases |mask|
  {
    if mask != [] {
      var last := |mask| - 1;
      FilterRepeat(value, mask[..last]);
      assert Repeat(value, |mask|)[..last] == Repeat(value, last);
    }
  }

  /** The kept runs so far decode to the kept rows so far, and their ends
      strictly ascend to how many those are. */
  ghost predicate Decodes(ends: seq<u64>, values: seq<u64>, rows: seq<u64>) {
    |ends| == |values| && RunsAscend(ends) && Expand(ends, values) == rows
  }

  lemma DecodesNext(ends: seq<u64>, values: seq<u64>, rows: seq<u64>, end: u64, value: u64)
    requires Decodes(ends, values, rows) && end > |rows|
    ensures Decodes(ends + [end], values + [value], rows + Repeat(value, end - |rows|))
  {
    var (more, both) := (ends + [end], values + [value]);
    assert more[..|ends|] == ends && both[..|ends|] == values;
  }

  /** The rows of one run of the view. */
  lemma RunRows(ends: seq<u64>, values: seq<u64>, offset: nat, len: nat, run: nat)
    requires View(ends, values, offset, len) && run < |ends|
    ensures var (a, b) := (RunStart(ends, run, offset, len), RunStart(ends, run + 1, offset, len));
            a <= b <= len && Rows(ends, values, offset, len)[a..b] == Repeat(values[run], b - a)
  {
    hide Rows;
    var (a, b) := (RunStart(ends, run, offset, len), RunStart(ends, run + 1, offset, len));
    StartsAscend(ends, offset, len, run);
    RunsOrdered(ends, run);
    RowsOfRun(ends, values, offset, len, run, a, b);
  }

  ghost predicate KeptDecode(ends: seq<u64>, values: seq<u64>, offset: nat, mask: seq<bool>, runs: nat)
    requires View(ends, values, offset, |mask|) && runs <= |ends|
  {
    var end := RunStart(ends, runs, offset, |mask|);
    Decodes(KeptEnds(ends, offset, mask, runs), Filter(values[..runs], KeptRuns(ends, offset, mask, runs)),
            Filter(Rows(ends, values, offset, |mask|)[..end], mask[..end]))
  }

  lemma {:induction false} KeptRunsDecode(ends: seq<u64>, values: seq<u64>, offset: nat, mask: seq<bool>, runs: nat)
    requires View(ends, values, offset, |mask|) && runs <= |ends|
    ensures KeptDecode(ends, values, offset, mask, runs)
    decreases runs
  {
    hide Rows, Decodes, Keeps;
    if runs > 0 {
      KeptRunsDecode(ends, values, offset, mask, runs - 1);
      KeptRunDecodes(ends, values, offset, mask, runs - 1);
    } else {
      NoneDecode();
      assert values[..0] == [] && mask[..0] == [];
    }
  }

  lemma NoneDecode()
    ensures Decodes([], [], [])
  {
  }

  /** A run adds its value to the kept rows, as often as the mask keeps it. */
  lemma KeptRowsNext(ends: seq<u64>, values: seq<u64>, offset: nat, mask: seq<bool>, run: nat)
    requires View(ends, values, offset, |mask|) && run < |ends|
    ensures var rows := Rows(ends, values, offset, |mask|);
            var (a, b) := (RunStart(ends, run, offset, |mask|), RunStart(ends, run + 1, offset, |mask|));
            && a <= b && Rank(mask, a) <= Rank(mask, b)
            && Filter(rows[..b], mask[..b]) == Filter(rows[..a], mask[..a]) + Repeat(values[run], Rank(mask, b) - Rank(mask, a))
  {
    hide Rows, RunStart, CountTrue, RunsAscend;
    var rows := Rows(ends, values, offset, |mask|);
    var (a, b) := (RunStart(ends, run, offset, |mask|), RunStart(ends, run + 1, offset, |mask|));
    RunRows(ends, values, offset, |mask|, run);
    RankGrows(mask, a, b);
    FilterRepeat(values[run], mask[a..b]);
    FilterConcat(rows[..a], rows[a..b], mask[..a], mask[a..b]);
    assert rows[..a] + rows[a..b] == rows[..b] && mask[..a] + mask[a..b] == mask[..b];
  }

  lemma FilterNext<T>(rows: seq<T>, mask: seq<bool>, k: nat)
    requires k < |rows| && k < |mask|
    ensures Filter(rows[..k + 1], mask[..k + 1]) == Filter(rows[..k], mask[..k]) + (if mask[k] then [rows[k]] else [])
  {
    assert rows[..k + 1][..k] == rows[..k] && mask[..k + 1][..k] == mask[..k];
  }

  lemma KeptRunDecodes(ends: seq<u64>, values: seq<u64>, offset: nat, mask: seq<bool>, run: nat)
    requires View(ends, values, offset, |mask|) && run < |ends| && KeptDecode(ends, values, offset, mask, run)
    ensures KeptDecode(ends, values, offset, mask, run + 1)
  {
    hide Rows, RunStart, Decodes, CountTrue, RunsAscend, Filter;
    var rows := Rows(ends, values, offset, |mask|);
    var (a, b) := (RunStart(ends, run, offset, |mask|), RunStart(ends, run + 1, offset, |mask|));
    KeptRowsNext(ends, values, offset, mask, run);
    var (kept, runs) := (KeptRuns(ends, offset, mask, run), KeptRuns(ends, offset, mask, run + 1));
    assert runs[..run + 1] == runs && runs[..run] == kept;
    assert kept == runs[..run];
    FilterNext(values, runs, run);
    var (was, now) := (Filter(rows[..a], mask[..a]), Filter(rows[..b], mask[..b]));
    assert |was| == Rank(mask, a);
    if Keeps(ends, offset, mask, run) {
      DecodesNext(KeptEnds(ends, offset, mask, run), Filter(values[..run], kept), was, Rank(mask, b), values[run]);
    } else {
      assert now == was;
      assert KeptEnds(ends, offset, mask, run + 1) == KeptEnds(ends, offset, mask, run);
      assert runs[..run + 1] == runs && Filter(values[..run + 1], runs) == Filter(values[..run], kept);
    }
  }

  /** A kept run's new end is at most its old one: it fits the ends' type. */
  lemma {:induction false} KeptEndsFit(ends: seq<u64>, offset: nat, mask: seq<bool>, runs: nat, bound: nat)
    requires runs <= |ends| && |mask| <= U64_MAX
    requires forall run :: 0 <= run < runs ==> ends[run] <= bound
    ensures forall k :: 0 <= k < |KeptEnds(ends, offset, mask, runs)| ==> KeptEnds(ends, offset, mask, runs)[k] <= bound
    decreases runs
  {
    if runs > 0 {
      KeptEndsFit(ends, offset, mask, runs - 1, bound);
    }
  }

  // ----- the kernel

  /** A run-end array: full children, and the view into them. */
  datatype Array = Array(ends: seq<u64>, values: seq<u64>, offset: nat, len: nat)

  ghost predicate Holds(a: Array) { View(a.ends, a.values, a.offset, a.len) }

  ghost function Decoded(a: Array): (rows: seq<u64>)
    requires Holds(a)
  {
    Rows(a.ends, a.values, a.offset, a.len)
  }

  /** The two thresholds below which the filter is left alone. */
  predicate Declines(kept: nat, runs: nat) {
    kept < 25 || (runs > 0 && kept as real / runs as real < 0.1)
  }

  /** Filters the runs, unless the kept rows are so few that they are taken
      directly: the answer decodes to the rows the mask keeps, its ends
      strictly ascending to how many those are. */
  method FilterRunEnd(a: Array, mask: seq<bool>) returns (r: Option<Array>)
    requires Holds(a) && |mask| == a.len
    ensures r.None? <==> Declines(CountTrue(mask), |a.ends|)
    ensures r.Some? ==> Holds(r.value) && Decoded(r.value) == Filter(Decoded(a), mask)
    ensures r.Some? ==> StrictlyAscending(r.value.ends) && r.value.ends[|r.value.ends| - 1] == r.value.len == CountTrue(mask)
  {
    hide CountTrue, KeptRuns, KeptEnds, Filter, Expand;
    var kept := CountTrue(mask);
    if Declines(kept, |a.ends|) {
      return None;
    }
    var ends, runs := KeptRunEnds(a.ends, a.offset, mask);
    var values := Filter(a.values, runs);
    KeptRunsDecode(a.ends, a.values, a.offset, mask, |a.ends|);
    RunStartAtEnd(a);
    assert a.values[..|a.ends|] == a.values && mask[..a.len] == mask;
    assert Decoded(a)[..a.len] == Decoded(a);
    WholeView(ends, values, Filter(Decoded(a), mask));
    r := Some(Array(ends, values, 0, kept));
  }

  /** The last run's end, clamped into the view, is the view's length. */
  lemma RunStartAtEnd(a: Array)
    requires Holds(a) && a.len > 0
    ensures RunStart(a.ends, |a.ends|, a.offset, a.len) == a.len
  {
  }

  /** A view of all of a run-end array's rows is its expansion. */
  lemma WholeView(ends: seq<u64>, values: seq<u64>, rows: seq<u64>)
    requires Decodes(ends, values, rows) && 0 < |rows| <= U64_MAX
    ensures |ends| > 0 && ends[|ends| - 1] == |rows|
    ensures View(ends, values, 0, |rows|) && Rows(ends, values, 0, |rows|) == rows
  {
    assert Expand(ends, values)[0..|rows|] == Expand(ends, values);
  }
}
