/** Rows of codes into payloads: the distinct terms decoded once each, the rows
    cut to keep them within a budget. */
module Encode {
  import opened Base
  import opened Payloads
  import opened Sharing

  /** The dictionary: the text of each code inside it. */
  type Dict = map<nat, Text>

  function Lookup(dict: Dict, code: nat): (term: Option<Text>) {
    if code in dict then Some(dict[code]) else None
  }

  function LengthOf(dict: Dict, code: nat): (n: nat) {
    if code in dict then |dict[code]| else 0
  }

  function Lengths(dict: Dict, codes: seq<nat>): (lengths: seq<nat>)
    ensures |lengths| == |codes| && forall i :: 0 <= i < |codes| ==> lengths[i] == LengthOf(dict, codes[i])
  {
    seq(|codes|, i requires 0 <= i < |codes| => LengthOf(dict, codes[i]))
  }

  /** The bytes of the terms, those of more than `cap` bytes left out when a cap is given. */
  function Sum(lengths: seq<nat>, cap: Option<nat>): (sum: nat) {
    if lengths == [] then 0 else Sum(lengths[..|lengths| - 1], cap) + Capped(lengths[|lengths| - 1], cap)
  }

  function Capped(length: nat, cap: Option<nat>): (n: nat) {
    if cap.Some? && length > cap.value then 0 else length
  }

  lemma {:induction false} SumUpdate(lengths: seq<nat>, cap: Option<nat>, i: nat, length: nat)
    requires i < |lengths| && lengths[i] == 0
    ensures Sum(lengths[i := length], cap) == Sum(lengths, cap) + Capped(length, cap)
    decreases |lengths|
  {
    var last := |lengths| - 1;
    if i < last {
      SumUpdate(lengths[..last], cap, i, length);
      assert lengths[i := length][..last] == lengths[..last][i := length];
    } else {
      assert lengths[i := length][..last] == lengths[..last];
    }
  }

  lemma {:induction false} SumMonotone(a: seq<nat>, b: seq<nat>, cap: Option<nat>)
    requires |a| == |b| && forall i :: 0 <= i < |a| ==> a[i] == b[i] || a[i] == 0
    ensures Sum(a, cap) <= Sum(b, cap)
    decreases |a|
  {
    if a != [] {
      SumMonotone(a[..|a| - 1], b[..|b| - 1], cap);
    }
  }

  lemma {:induction false} SumGrows(a: seq<nat>, cap: Option<nat>, i: nat, j: nat)
    requires i <= j <= |a|
    ensures Sum(a[..i], cap) <= Sum(a[..j], cap)
    decreases j
  {
    if i < j {
      SumGrows(a, cap, i, j - 1);
      assert a[..j][..j - 1] == a[..j - 1];
    }
  }

  lemma {:induction false} SumCapped(lengths: seq<nat>, cap: nat)
    ensures Sum(lengths, Some(cap)) <= Sum(lengths, None)
    ensures Sum(lengths, Some(cap)) <= |lengths| * cap
    decreases |lengths|
  {
    if lengths != [] {
      SumCapped(lengths[..|lengths| - 1], cap);
      assert |lengths| * cap == (|lengths| - 1) * cap + cap;
    }
  }

  lemma {:induction false} SumOfZeros(lengths: seq<nat>, cap: Option<nat>)
    requires forall i :: 0 <= i < |lengths| ==> lengths[i] == 0
    ensures Sum(lengths, cap) == 0
    decreases |lengths|
  {
    if lengths != [] {
      SumOfZeros(lengths[..|lengths| - 1], cap);
    }
  }

  // ----- decoding the distinct codes

  /** An entry of a chunk spelling a term, or no term. */
  ghost predicate Spells(c: Chunk, entry: int, term: Option<Text>) {
    Readable(c) && (entry == NONE || Names(c, entry)) && Spelled(c, entry) == term
  }

  /** Positions visited once each, in any order. */
  ghost predicate EachOnce(visits: seq<nat>, n: nat) {
    && |visits| == n
    && (forall t :: 0 <= t < |visits| ==> visits[t] < n)
    && (forall t, u :: 0 <= t < u < |visits| ==> visits[t] != visits[u])
    && (forall i :: 0 <= i < n ==> i in visits)
  }

  /** What decoding has done once the positions in `seen` were visited: every
      seen length measured, and every seen term pushed while they fit. */
  ghost predicate Progress(dict: Dict, distinct: seq<nat>, seen: set<nat>, c: Chunk, entries: seq<int>, lengths: seq<nat>, fits: bool) {
    && Readable(c) && |entries| == |lengths| == |distinct|
    && (forall i :: 0 <= i < |distinct| ==> lengths[i] == if i in seen then LengthOf(dict, distinct[i]) else 0)
    && (fits ==> forall i :: 0 <= i < |distinct| ==> Spells(c, entries[i], if i in seen then Lookup(dict, distinct[i]) else None))
  }

  lemma ProgressTerm(dict: Dict, distinct: seq<nat>, seen: set<nat>, was: Chunk, entries: seq<int>, lengths: seq<nat>,
                     i: nat, c: Chunk, entry: int)
    requires Progress(dict, distinct, seen, was, entries, lengths, true) && i < |distinct| && i !in seen
    requires distinct[i] in dict && Spells(c, entry, Some(dict[distinct[i]])) && Keeps(was, c)
    ensures Progress(dict, distinct, seen + {i}, c, entries[i := entry], lengths[i := |dict[distinct[i]]|], true)
  {
    hide Readable, Names, Spelled;
    forall j | 0 <= j < |distinct| && j != i
      ensures Spells(c, entries[j], if j in seen then Lookup(dict, distinct[j]) else None)
    {
      assert Spells(was, entries[j], if j in seen then Lookup(dict, distinct[j]) else None);
      SpellsStill(was, c, entries[j]);
    }
  }

  lemma SpellsStill(was: Chunk, c: Chunk, entry: int)
    requires Readable(was) && Readable(c) && Keeps(was, c) && (entry == NONE || Names(was, entry))
    ensures Spells(c, entry, Spelled(was, entry))
  {
  }

  /** A byte count within a budget; with none given (the largest `usize`)
      every count is. */
  predicate InBudget(bytes: nat, budget: Option<nat>) {
    budget.None? || bytes <= budget.value
  }

  /** Whatever order the dictionary visits positions in, what is copied stays
      within the budget, every length is measured, and when all of it fits every
      entry spells its code's term. */
  method Decode(dict: Dict, distinct: seq<nat>, largeTerm: nat, budget: Option<nat>, visits: seq<nat>)
    returns (payload: Payload, entries: seq<int>, lengths: seq<nat>, over: bool, missed: bool)
    requires EachOnce(visits, |distinct|) && |distinct| <= I32_MAX
    requires (budget.Some? && budget.value <= I32_MAX) || Sum(Lengths(dict, distinct), Some(largeTerm)) <= I32_MAX
    ensures fresh(payload) && payload.terms == [] && Readable(payload.Packed())
    ensures lengths == Lengths(dict, distinct) && |entries| == |distinct|
    ensures over <==> !InBudget(Sum(lengths, None), budget)
    ensures missed <==> exists i :: 0 <= i < |distinct| && distinct[i] !in dict
    ensures InBudget(ByteCount(payload.Packed()), budget)
    ensures !over ==> forall i :: 0 <= i < |distinct| ==> Spells(payload.Packed(), entries[i], Lookup(dict, distinct[i]))
    ensures !over ==> ByteCount(payload.Packed()) == Sum(lengths, None)
    ensures !over ==> |payload.text| == Sum(lengths, Some(largeTerm))
  {
    hide Readable, Keeps, Names, Spelled, Sum, Progress, SumLengths;
    payload := new Payload();
    entries, lengths := seq(|distinct|, _ => NONE), seq(|distinct|, _ => 0);
    var bytes: nat := 0;
    missed := false;
    ghost var seen: set<nat> := {};
    ghost var cap := Some(largeTerm);
    NothingDecoded(dict, distinct, payload.Packed(), entries, lengths, cap);
    for t := 0 to |visits|
      invariant fresh(payload) && payload.terms == []
      invariant Progress(dict, distinct, seen, payload.Packed(), entries, lengths, InBudget(bytes, budget))
      invariant forall u :: 0 <= u < |visits| ==> (visits[u] in seen <==> u < t)
      invariant |payload.bounds| / 2 + |payload.large| <= t
      invariant bytes == Sum(lengths, None) && InBudget(ByteCount(payload.Packed()), budget)
      invariant InBudget(bytes, budget) ==> ByteCount(payload.Packed()) == bytes && |payload.text| == Sum(lengths, cap)
      invariant missed <==> exists u :: 0 <= u < t && distinct[visits[u]] !in dict
    {
      var i := visits[t];
      ghost var was, wasEntries, wasLengths := payload.Packed(), entries, lengths;
      ProgressFacts(dict, distinct, seen, was, entries, lengths, InBudget(bytes, budget));
      match Lookup(dict, distinct[i])
      case None =>
        missed := true;
        ProgressNone(dict, distinct, seen, was, entries, lengths, InBudget(bytes, budget), i);
        seen := seen + {i};
      case Some(term) =>
        SumUpdate(lengths, None, i, |term|);
        SumUpdate(lengths, cap, i, |term|);
        lengths := lengths[i := |term|];
        bytes := bytes + |term|;
        SharedFits(dict, distinct, seen + {i}, lengths, cap);
        if InBudget(bytes, budget) {
          SumCapped(lengths, largeTerm);
          var entry := payload.Push(term, largeTerm);
          entries := entries[i := entry];
          assert Spells(payload.Packed(), entry, Some(term));
          ProgressTerm(dict, distinct, seen, was, wasEntries, wasLengths, i, payload.Packed(), entry);
        } else {
          ProgressPast(dict, distinct, seen, was, entries, wasLengths, InBudget(bytes - |term|, budget), i);
        }
        seen := seen + {i};
    }
    over := !InBudget(bytes, budget);
    AllDecoded(dict, distinct, seen, payload.Packed(), entries, lengths, InBudget(bytes, budget), visits);
  }

  lemma NothingDecoded(dict: Dict, distinct: seq<nat>, c: Chunk, entries: seq<int>, lengths: seq<nat>, cap: Option<nat>)
    requires c == Chunk([], [], [], []) && |entries| == |lengths| == |distinct|
    requires forall i :: 0 <= i < |distinct| ==> entries[i] == NONE && lengths[i] == 0
    ensures Progress(dict, distinct, {}, c, entries, lengths, true)
    ensures Sum(lengths, None) == 0 && Sum(lengths, cap) == 0 && ByteCount(c) == 0
  {
    SumOfZeros(lengths, None);
    SumOfZeros(lengths, cap);
  }

  lemma ProgressFacts(dict: Dict, distinct: seq<nat>, seen: set<nat>, c: Chunk, entries: seq<int>, lengths: seq<nat>, fits: bool)
    requires Progress(dict, distinct, seen, c, entries, lengths, fits)
    ensures Readable(c) && |entries| == |lengths| == |distinct|
    ensures forall i :: 0 <= i < |distinct| ==> lengths[i] == if i in seen then LengthOf(dict, distinct[i]) else 0
  {
  }

  lemma ProgressNone(dict: Dict, distinct: seq<nat>, seen: set<nat>, c: Chunk, entries: seq<int>, lengths: seq<nat>, fits: bool, i: nat)
    requires Progress(dict, distinct, seen, c, entries, lengths, fits) && i < |distinct| && i !in seen && distinct[i] !in dict
    ensures Progress(dict, distinct, seen + {i}, c, entries, lengths, fits)
  {
    hide Spells;
  }

  lemma ProgressPast(dict: Dict, distinct: seq<nat>, seen: set<nat>, c: Chunk, entries: seq<int>, lengths: seq<nat>, fits: bool, i: nat)
    requires Progress(dict, distinct, seen, c, entries, lengths, fits) && i < |distinct| && i !in seen && distinct[i] in dict
    ensures Progress(dict, distinct, seen + {i}, c, entries, lengths[i := |dict[distinct[i]]|], false)
  {
  }

  /** The shared text so far is at most what all the terms would make. */
  lemma SharedFits(dict: Dict, distinct: seq<nat>, seen: set<nat>, lengths: seq<nat>, cap: Option<nat>)
    requires |lengths| == |distinct|
    requires forall i :: 0 <= i < |distinct| ==> lengths[i] == if i in seen then LengthOf(dict, distinct[i]) else 0
    ensures Sum(lengths, cap) <= Sum(Lengths(dict, distinct), cap)
  {
    SumMonotone(lengths, Lengths(dict, distinct), cap);
  }

  lemma AllDecoded(dict: Dict, distinct: seq<nat>, seen: set<nat>, c: Chunk, entries: seq<int>, lengths: seq<nat>, fits: bool, visits: seq<nat>)
    requires Progress(dict, distinct, seen, c, entries, lengths, fits) && EachOnce(visits, |distinct|)
    requires forall u :: 0 <= u < |visits| ==> visits[u] in seen
    ensures Readable(c) && lengths == Lengths(dict, distinct) && |entries| == |distinct|
    ensures fits ==> forall i :: 0 <= i < |distinct| ==> Spells(c, entries[i], Lookup(dict, distinct[i]))
    ensures (exists i :: 0 <= i < |distinct| && distinct[i] !in dict) <==> (exists u :: 0 <= u < |visits| && distinct[visits[u]] !in dict)
  {
    hide Spells;
    forall i | 0 <= i < |distinct|
      ensures i in seen && exists u :: 0 <= u < |visits| && visits[u] == i
    {
      assert i in visits;
    }
  }

  // ----- the cut

  /** The bytes of the terms of the slots the first `p` positions make. */
  ghost function SlotBytes(slots: seq<nat>, lengths: seq<nat>, p: nat): (n: nat)
    requires p <= |slots| && Made(slots, p) <= |lengths|
  {
    Sum(lengths[..Made(slots, p)], None)
  }

  ghost predicate Ordered(slots: seq<nat>, lengths: seq<nat>) {
    |lengths| == Made(slots, |slots|) && forall p :: 0 <= p < |slots| ==> slots[p] <= Made(slots, p)
  }

  lemma SlotBytesGrow(slots: seq<nat>, lengths: seq<nat>, p: nat, q: nat)
    requires Ordered(slots, lengths) && p <= q <= |slots|
    ensures Made(slots, p) <= Made(slots, q) <= |lengths|
    ensures SlotBytes(slots, lengths, p) <= SlotBytes(slots, lengths, q)
  {
    MadeGrows(slots, p, q);
    MadeGrows(slots, q, |slots|);
    SumGrows(lengths, None, Made(slots, p), Made(slots, q));
  }

  lemma SlotBytesNext(slots: seq<nat>, lengths: seq<nat>, p: nat)
    requires Ordered(slots, lengths) && p < |slots|
    ensures Made(slots, p) <= Made(slots, p + 1) <= |lengths|
    ensures Made(slots, p + 1) == Made(slots, p) + if slots[p] == Made(slots, p) then 1 else 0
    ensures SlotBytes(slots, lengths, p + 1) == SlotBytes(slots, lengths, p) + if slots[p] == Made(slots, p) then lengths[slots[p]] else 0
  {
    hide Made, Sum;
    MadeNext(slots, p);
    SlotBytesGrow(slots, lengths, p, p + 1);
    var made := Made(slots, p);
    if slots[p] == made {
      assert lengths[..made + 1][..made] == lengths[..made];
      SumNext(lengths[..made + 1]);
    }
  }

  lemma SumNext(lengths: seq<nat>)
    requires lengths != []
    ensures Sum(lengths, None) == Sum(lengths[..|lengths| - 1], None) + lengths[|lengths| - 1]
  {
  }

  /** `rows` is how many rows of `width` positions keep the slots' terms within
      the budget: the most that do, at least one. */
  ghost predicate Fitting(slots: seq<nat>, lengths: seq<nat>, width: nat, budget: nat, rows: nat)
    requires Ordered(slots, lengths)
  {
    && 0 <= rows * width <= |slots|
    && (slots != [] ==> rows >= 1)
    && (rows > 1 ==> Within(slots, lengths, rows * width, budget))
    && (0 <= (rows + 1) * width <= |slots| ==> !Within(slots, lengths, (rows + 1) * width, budget))
  }

  ghost predicate Within(slots: seq<nat>, lengths: seq<nat>, p: nat, budget: nat)
    requires Ordered(slots, lengths) && p <= |slots|
  {
    SlotBytesGrow(slots, lengths, p, |slots|);
    SlotBytes(slots, lengths, p) <= budget
  }

  /** The most whole rows whose slots' terms fit the budget, at least one. */
  method FittingRows(slots: seq<nat>, width: nat, lengths: seq<nat>, budget: nat, ghost offered: nat) returns (rows: nat)
    requires width > 0 && Ordered(slots, lengths) && |slots| == offered * width
    ensures Fitting(slots, lengths, width, budget, rows)
  {
    hide Made, Sum, SlotBytes, Ordered;
    var made, bytes, row: nat, at: nat := 0, 0, 0, 0;
    NoSlots(slots, lengths);
    while at < |slots|
      invariant at == row * width && row <= offered
      invariant made == Made(slots, at) <= |lengths| && bytes == SlotBytes(slots, lengths, at)
      invariant row > 0 ==> bytes <= budget
      decreases |slots| - at
    {
      RowInside(row, offered, width);
      for p := at to at + width
        invariant made == Made(slots, p) <= |lengths| && bytes == SlotBytes(slots, lengths, p)
      {
        SlotBytesNext(slots, lengths, p);
        if slots[p] == made {
          bytes := bytes + lengths[made];
          made := made + 1;
        }
      }
      if bytes > budget {
        rows := Max(row, 1);
        FirstRowOver(slots, lengths, width, budget, row);
        return;
      }
      row, at := row + 1, at + width;
    }
    if row < offered {
      RowInside(row, offered, width);
    }
    MulMonotone(offered, offered + 1, width);
    rows := row;
  }

  lemma NoSlots(slots: seq<nat>, lengths: seq<nat>)
    requires Ordered(slots, lengths)
    ensures Made(slots, 0) == 0 && SlotBytes(slots, lengths, 0) == 0
  {
  }

  lemma RowInside(row: nat, offered: nat, width: nat)
    requires row < offered && width > 0
    ensures row * width < row * width + width == (row + 1) * width <= offered * width
  {
    MulMonotone(row + 1, offered, width);
  }

  lemma FirstRowOver(slots: seq<nat>, lengths: seq<nat>, width: nat, budget: nat, row: nat)
    requires Ordered(slots, lengths) && width > 0 && 0 <= row * width && (row + 1) * width <= |slots|
    requires !Within(slots, lengths, (row + 1) * width, budget)
    requires row > 0 ==> Within(slots, lengths, row * width, budget)
    ensures Fitting(slots, lengths, width, budget, Max(row, 1))
  {
    hide SlotBytes, Ordered;
    if row == 0 && 2 * width <= |slots| {
      assert (1 + 1) * width == 2 * width && (0 + 1) * width == width;
      SlotBytesGrow(slots, lengths, width, 2 * width);
    }
  }

  // ----- one chunk

  /** The dictionary as a read sees it: its terms, the order in which it visits
      the positions of a batch of codes, and whether reading it never fails. */
  datatype Reader = Reader(terms: Dict, order: seq<nat> -> seq<nat>, readable: bool)

  ghost predicate VisitsEach(reader: Reader) {
    forall codes :: EachOnce(reader.order(codes), |codes|)
  }

  /** The bytes of the distinct terms of the first `p` positions, a term
      counting at each position that made a slot for it. */
  ghost function TermBytes(dict: Dict, codes: seq<nat>, slots: seq<nat>, p: nat): (n: nat)
    requires p <= |codes| == |slots|
  {
    if p == 0 then 0
    else
      TermBytes(dict, codes, slots, p - 1)
      + if slots[p - 1] == Made(slots, p - 1) then LengthOf(dict, codes[p - 1]) else 0
  }

  lemma {:induction false} TermBytesAreSlotBytes(dict: Dict, codes: seq<nat>, distinct: seq<nat>, slots: seq<nat>, p: nat)
    requires Slotted(codes, distinct, slots) && p <= |slots|
    ensures Ordered(slots, Lengths(dict, distinct)) && Made(slots, p) <= |distinct|
    ensures TermBytes(dict, codes, slots, p) == SlotBytes(slots, Lengths(dict, distinct), p)
    decreases p
  {
    hide Sum, Slotted, Ordered, Made, SlotBytes, LengthOf;
    var lengths := Lengths(dict, distinct);
    SlottedOrdered(dict, codes, distinct, slots);
    SlotBytesGrow(slots, lengths, p, |slots|);
    if p > 0 {
      TermBytesAreSlotBytes(dict, codes, distinct, slots, p - 1);
      TermBytesNext(dict, codes, distinct, slots, p - 1);
    } else {
      NoSlots(slots, lengths);
    }
  }

  lemma TermBytesNext(dict: Dict, codes: seq<nat>, distinct: seq<nat>, slots: seq<nat>, p: nat)
    requires Slotted(codes, distinct, slots) && p < |slots| && Ordered(slots, Lengths(dict, distinct))
    requires Made(slots, p) <= |distinct| && TermBytes(dict, codes, slots, p) == SlotBytes(slots, Lengths(dict, distinct), p)
    ensures Made(slots, p + 1) <= |distinct|
    ensures TermBytes(dict, codes, slots, p + 1) == SlotBytes(slots, Lengths(dict, distinct), p + 1)
  {
    hide Made, SlotBytes, Ordered;
    SlotBytesNext(slots, Lengths(dict, distinct), p);
    assert SlotOf(codes, distinct, slots, p);
  }

  lemma SlottedOrdered(dict: Dict, codes: seq<nat>, distinct: seq<nat>, slots: seq<nat>)
    requires Slotted(codes, distinct, slots)
    ensures Ordered(slots, Lengths(dict, distinct))
  {
    forall p | 0 <= p < |slots|
      ensures slots[p] <= Made(slots, p)
    {
      assert SlotOf(codes, distinct, slots, p);
    }
  }

  /** The slots the kept positions hold are the first ones. */
  function Used(slots: seq<nat>): (n: nat) {
    if slots == [] then 0 else Max(Used(slots[..|slots| - 1]), slots[|slots| - 1] + 1)
  }

  lemma {:induction false} UsedIsMade(slots: seq<nat>, lengths: seq<nat>, p: nat)
    requires Ordered(slots, lengths) && p <= |slots|
    ensures Used(slots[..p]) == Made(slots, p)
    decreases p
  {
    if p > 0 {
      UsedIsMade(slots, lengths, p - 1);
      UsedNext(slots, p - 1);
      hide Made, Used;
      MadeNext(slots, p - 1);
    } else {
      assert slots[..0] == [];
    }
  }

  lemma UsedNext(slots: seq<nat>, p: nat)
    requires p < |slots|
    ensures Used(slots[..p + 1]) == Max(Used(slots[..p]), slots[p] + 1)
  {
    assert slots[..p + 1][..p] == slots[..p];
  }

  /** Every position of a chunk spells its code's term. */
  ghost predicate Carries(dict: Dict, codes: seq<nat>, c: Chunk) {
    Readable(c) && |c.terms| == |codes| && forall p :: 0 <= p < |codes| ==> Spells(c, c.terms[p], Lookup(dict, codes[p]))
  }

  /** How a chunk of `rows` rows is cut: every row when their distinct terms fit
      the budget, else the most rows that fit, at least one. Its shared text
      always fits, so only large terms take it past the budget, and only in a
      chunk of one row. */
  ghost predicate Cut(dict: Dict, codes: seq<nat>, width: nat, limits: Limits, rows: nat, c: Chunk)
    requires width > 0
  {
    var slots := Slots(codes, width);
    && 0 <= rows * width <= |codes| && (codes != [] ==> rows >= 1)
    && (0 <= (rows + 1) * width <= |codes| ==> TermBytes(dict, codes, slots, (rows + 1) * width) > limits.chunkBytes)
    && ByteCount(c) == TermBytes(dict, codes, slots, rows * width)
    && (ByteCount(c) > limits.chunkBytes ==> rows == 1)
    && |c.text| <= limits.chunkBytes
  }

  /** The rows a chunk of `offered` rows is cut to: the most whose distinct terms
      fit the budget, at least one of those there are. */
  ghost function Kept(dict: Dict, codes: seq<nat>, width: nat, limits: Limits, offered: nat): (rows: nat)
    requires width > 0 && 0 <= offered * width <= |codes|
    ensures rows <= offered && 0 <= rows * width <= offered * width
  {
    if offered <= 1 || TermBytes(dict, codes, Slots(codes, width), offered * width) <= limits.chunkBytes then offered
    else
      MulMonotone(offered - 1, offered, width);
      Kept(dict, codes, width, limits, offered - 1)
  }

  lemma {:induction false} TermBytesGrow(dict: Dict, codes: seq<nat>, slots: seq<nat>, p: nat, q: nat)
    requires p <= q <= |codes| == |slots|
    ensures TermBytes(dict, codes, slots, p) <= TermBytes(dict, codes, slots, q)
    decreases q
  {
    if p < q {
      TermBytesGrow(dict, codes, slots, p, q - 1);
    }
  }

  /** A cut keeps those rows and no others. */
  lemma {:induction false} CutIsKept(dict: Dict, codes: seq<nat>, width: nat, limits: Limits, rows: nat, c: Chunk, offered: nat)
    requires width > 0 && Cut(dict, codes, width, limits, rows, c) && rows <= offered && 0 <= offered * width <= |codes|
    ensures rows == Kept(dict, codes, width, limits, offered)
    decreases offered
  {
    hide TermBytes, ByteCount, Slots;
    var slots := Slots(codes, width);
    if rows < offered {
      MulMonotone(rows + 1, offered, width);
      MulMonotone(1, offered, width);
      TermBytesGrow(dict, codes, slots, (rows + 1) * width, offered * width);
      MulMonotone(offered - 1, offered, width);
      CutIsKept(dict, codes, width, limits, rows, c, offered - 1);
    }
  }

  lemma CarriesSlots(dict: Dict, codes: seq<nat>, distinct: seq<nat>, slots: seq<nat>, kept: nat, used: nat, was: Chunk, entries: seq<int>, c: Chunk)
    requires Slotted(codes, distinct, slots) && kept <= |codes| && used <= |distinct| == |entries| + |distinct| - used
    requires forall p :: 0 <= p < kept ==> slots[p] < used
    requires Readable(was) && c == was.(terms := c.terms)
    requires forall i :: 0 <= i < used ==> Spells(was, entries[i], Lookup(dict, distinct[i]))
    requires |c.terms| == kept && forall p :: 0 <= p < kept ==> c.terms[p] == entries[slots[p]]
    ensures Carries(dict, codes[..kept], c)
  {
    hide Made;
    forall p | 0 <= p < kept
      ensures Spells(c, c.terms[p], Lookup(dict, codes[p]))
    {
      assert SlotOf(codes, distinct, slots, p);
      TermsAside(was, c, entries[slots[p]]);
    }
    TermsAsideReadable(was, c);
  }

  lemma TermsAsideReadable(was: Chunk, c: Chunk)
    requires Readable(was) && c == was.(terms := c.terms)
    ensures Readable(c)
  {
    forall k | 0 <= k < |c.bounds| / 2
      ensures BoundsOf(c, k)
    {
      assert BoundsOf(was, k);
    }
  }

  /** What an entry spells does not depend on the chunk's positions. */
  lemma TermsAside(was: Chunk, c: Chunk, entry: int)
    requires Readable(was) && c == was.(terms := c.terms) && (entry == NONE || Names(was, entry))
    ensures Spells(c, entry, Spelled(was, entry))
  {
    TermsAsideReadable(was, c);
  }

  /** A code outside the dictionary among the kept positions is one among the
      slots they use, and the other way round. */
  lemma MissedIsMissed(dict: Dict, codes: seq<nat>, distinct: seq<nat>, slots: seq<nat>, kept: nat)
    requires Slotted(codes, distinct, slots) && kept <= |codes|
    ensures Made(slots, kept) <= |distinct|
    ensures (exists i :: 0 <= i < Made(slots, kept) && distinct[i] !in dict) <==> (exists p :: 0 <= p < kept && codes[p] !in dict)
    ensures forall p :: 0 <= p < kept ==> slots[p] < Made(slots, kept)
  {
    MadeGrows(slots, kept, |slots|);
    forall p | 0 <= p < kept
      ensures slots[p] < Made(slots, kept) && distinct[slots[p]] == codes[p]
    {
      assert SlotOf(codes, distinct, slots, p);
      MadeNext(slots, p);
      MadeGrows(slots, p + 1, kept);
    }
    forall i | 0 <= i < Made(slots, kept)
      ensures HeldBefore(slots, kept, i)
    {
      SlotIsMade(slots, kept, i);
    }
  }

  /** One of the first `kept` positions holds slot `i`. */
  ghost predicate HeldBefore(slots: seq<nat>, kept: nat, i: nat)
    requires kept <= |slots|
  {
    exists p :: 0 <= p < kept && slots[p] == i
  }

  lemma {:induction false} SlotIsMade(slots: seq<nat>, kept: nat, i: nat)
    requires kept <= |slots| && i < Made(slots, kept)
    ensures HeldBefore(slots, kept, i)
    decreases kept
  {
    if i < Made(slots, kept - 1) {
      SlotIsMade(slots, kept - 1, i);
    } else {
      assert slots[kept - 1] == i;
    }
  }

  /** The chunk of the most rows that fit: it spells exactly their terms.
      Nothing when the dictionary cannot be read. */
  method EncodeDistinct(reader: Reader, width: nat, codes: seq<nat>, limits: Limits, ghost offered: nat)
    returns (r: Option<Payload>, rows: nat, missed: bool)
    requires VisitsEach(reader) && Sound(limits) && 1 <= width <= 4
    requires |codes| == offered * width && offered <= limits.rows
    ensures r.None? ==> !reader.readable
    ensures r.Some? ==> fresh(r.value) && Cut(reader.terms, codes, width, limits, rows, r.value.Packed())
    ensures r.Some? ==> Carries(reader.terms, codes[..rows * width], r.value.Packed())
    ensures r.Some? ==> (missed <==> exists p :: 0 <= p < rows * width && codes[p] !in reader.terms)
  {
    hide Readable, Cut, Carries, Slotted, Spells, Ordered, Made, Sum, TermBytes, SlotBytes, SumLengths, EachOnce;
    if codes == [] {
      var empty := new Payload();
      EmptyChunk(reader.terms, width, limits);
      return Some(empty), 0, false;
    }
    var answers: bool := *;
    if !answers && !reader.readable {
      return None, 0, false;
    }
    PositionsFit(offered, limits, width);
    var distinct, slots := DistinctCodes(codes, width);
    SlotsFit(codes, distinct, slots);
    assert EachOnce(reader.order(distinct), |distinct|);
    var payload, entries, lengths, over, miss := Decode(reader.terms, distinct, limits.largeTerm, Some(limits.chunkBytes), reader.order(distinct));
    SlottedOrdered(reader.terms, codes, distinct, slots);
    ghost var plain := payload.Packed();
    if !over {
      MissedIsMissed(reader.terms, codes, distinct, slots, |codes|);
      payload.SetTerms(slots, entries);
      WholeCut(reader.terms, codes, width, distinct, slots, limits, offered, payload.Packed());
      CarriesSlots(reader.terms, codes, distinct, slots, |codes|, |distinct|, plain, entries, payload.Packed());
      WholeRows(offered, width);
      return Some(payload), |slots| / width, miss;
    }
    payload, rows, miss := EncodeFitting(reader, width, codes, limits, distinct, slots, lengths, offered);
    return Some(payload), rows, miss;
  }

  /** The rows that fit, once all of them proved too many: their slots are the
      first ones made, and a second call decodes those. */
  method EncodeFitting(reader: Reader, width: nat, codes: seq<nat>, limits: Limits, distinct: seq<nat>, slots: seq<nat>,
                       lengths: seq<nat>, ghost offered: nat)
    returns (payload: Payload, rows: nat, missed: bool)
    requires VisitsEach(reader) && Sound(limits) && 1 <= width <= 4 && codes != []
    requires |codes| == offered * width <= I32_MAX
    requires slots == Slots(codes, width) && Slotted(codes, distinct, slots) && lengths == Lengths(reader.terms, distinct)
    ensures fresh(payload) && Cut(reader.terms, codes, width, limits, rows, payload.Packed())
    ensures Carries(reader.terms, codes[..rows * width], payload.Packed())
    ensures missed <==> exists p :: 0 <= p < rows * width && codes[p] !in reader.terms
  {
    hide Readable, Cut, Carries, Slotted, Spells, Ordered, Made, Sum, TermBytes, SlotBytes, SumLengths, EachOnce, Lengths, Within, Used;
    SlotsFit(codes, distinct, slots);
    SlottedOrdered(reader.terms, codes, distinct, slots);
    rows := FittingRows(slots, width, lengths, limits.chunkBytes, offered);
    var kept := width * rows;
    FitIsWithin(slots, lengths, width, limits.chunkBytes, rows);
    UsedIsMade(slots, lengths, kept);
    var used := Used(slots[..kept]);
    MissedIsMissed(reader.terms, codes, distinct, slots, kept);
    UsedFits(reader.terms, distinct, slots, width, limits, rows, used);
    var first := distinct[..used];
    assert EachOnce(reader.order(first), |first|);
    var entries, again, over;
    payload, entries, again, over, missed := Decode(reader.terms, first, limits.largeTerm, None, reader.order(first));
    ghost var plain := payload.Packed();
    assert forall i :: 0 <= i < used ==> first[i] == distinct[i];
    payload.SetTerms(slots[..kept], entries);
    CarriesSlots(reader.terms, codes, distinct, slots, kept, used, plain, entries, payload.Packed());
    PartCut(reader.terms, codes, width, distinct, slots, limits, rows, used, payload.Packed());
  }

  lemma WholeRows(offered: nat, width: nat)
    requires width > 0
    ensures (offered * width) / width == offered
  {
    var (q, r) := ((offered * width) / width, (offered * width) % width);
    assert (q - offered) * width + r == 0;
    if q != offered {
      MulMonotone(1, if q > offered then q - offered else offered - q, width);
    }
  }

  lemma EmptyChunk(dict: Dict, width: nat, limits: Limits)
    requires width > 0
    ensures Cut(dict, [], width, limits, 0, Chunk([], [], [], [])) && Carries(dict, [], Chunk([], [], [], []))
  {
  }

  lemma PositionsFit(offered: nat, limits: Limits, width: nat)
    requires Sound(limits) && offered <= limits.rows && width <= 4
    ensures offered * width <= I32_MAX
  {
    MulMonotone(width, 4, offered);
  }

  lemma SlotsFit(codes: seq<nat>, distinct: seq<nat>, slots: seq<nat>)
    requires Slotted(codes, distinct, slots)
    ensures |slots| == |codes| && |distinct| <= |codes| && Made(slots, |slots|) == |distinct|
  {
  }

  lemma WholeCut(dict: Dict, codes: seq<nat>, width: nat, distinct: seq<nat>, slots: seq<nat>, limits: Limits, offered: nat, c: Chunk)
    requires width > 0 && codes != [] && |codes| == offered * width && slots == Slots(codes, width) && Slotted(codes, distinct, slots)
    requires ByteCount(c) == Sum(Lengths(dict, distinct), None) <= limits.chunkBytes
    ensures Cut(dict, codes, width, limits, offered, c)
  {
    hide Made, Sum, Ordered, Slotted;
    TermBytesAreSlotBytes(dict, codes, distinct, slots, |codes|);
    SlotsFit(codes, distinct, slots);
    assert Lengths(dict, distinct)[..|distinct|] == Lengths(dict, distinct);
    assert (offered + 1) * width == offered * width + width;
  }

  /** Past the budget, a cut keeps at least one row, and more than one only when they fit. */
  lemma FitIsWithin(slots: seq<nat>, lengths: seq<nat>, width: nat, budget: nat, rows: nat)
    requires Ordered(slots, lengths) && slots != [] && Fitting(slots, lengths, width, budget, rows)
    ensures rows >= 1 && 0 <= width * rows <= |slots| && width * rows == rows * width
    ensures rows > 1 ==> Within(slots, lengths, rows * width, budget)
  {
  }

  /** The shared text of the rows a cut keeps fits the budget: their terms do,
      or they are one row, whose shared terms always do. */
  lemma UsedFits(dict: Dict, distinct: seq<nat>, slots: seq<nat>, width: nat, limits: Limits, rows: nat, used: nat)
    requires Sound(limits) && 1 <= width <= 4 && rows >= 1 && width * rows == rows * width && 0 <= rows * width <= |slots|
    requires var lengths := Lengths(dict, distinct);
             Ordered(slots, lengths) && used == Made(slots, rows * width) <= |distinct|
             && (rows > 1 ==> Within(slots, lengths, rows * width, limits.chunkBytes))
    ensures Sum(Lengths(dict, distinct[..used]), Some(limits.largeTerm)) <= limits.chunkBytes
    ensures Lengths(dict, distinct[..used]) == Lengths(dict, distinct)[..used]
  {
    hide Made, Sum, Ordered;
    var part := Lengths(dict, distinct[..used]);
    assert part == Lengths(dict, distinct)[..used];
    SumCapped(part, limits.largeTerm);
    if rows == 1 {
      MulMonotone(used, 4, limits.largeTerm);
    }
  }

  lemma PartCut(dict: Dict, codes: seq<nat>, width: nat, distinct: seq<nat>, slots: seq<nat>, limits: Limits, rows: nat, used: nat, c: Chunk)
    requires width > 0 && codes != [] && slots == Slots(codes, width) && Slotted(codes, distinct, slots)
    requires Ordered(slots, Lengths(dict, distinct)) && Fitting(slots, Lengths(dict, distinct), width, limits.chunkBytes, rows)
    requires used == Made(slots, rows * width) <= |distinct|
    requires ByteCount(c) == Sum(Lengths(dict, distinct[..used]), None)
    requires |c.text| == Sum(Lengths(dict, distinct[..used]), Some(limits.largeTerm)) <= limits.chunkBytes
    ensures Cut(dict, codes, width, limits, rows, c)
  {
    hide Made, Sum, Ordered, Slotted;
    assert Lengths(dict, distinct[..used]) == Lengths(dict, distinct)[..used];
    TermBytesAreSlotBytes(dict, codes, distinct, slots, rows * width);
    if 0 <= (rows + 1) * width <= |codes| {
      TermBytesAreSlotBytes(dict, codes, distinct, slots, (rows + 1) * width);
    }
  }

  // ----- the encoders

  /** What a read of the dictionary answers: a read that fails, or a matched row
      whose code no term has. */
  datatype Encoded = Sent(payload: Payload, held: nat) | Unreadable | Outside

  /** The rows of the next chunk. */
  ghost function RowsKept(dict: Dict, rows: seq<Quad<nat>>, limits: Limits): (held: nat)
    ensures held <= Min(|rows|, limits.rows)
  {
    var offered := Min(|rows|, limits.rows);
    Kept(dict, Positions(rows[..offered]), 4, limits, offered)
  }

  /** Sends the most rows that fit, or fails exactly when one of those has a
      code no term is known for. */
  method EncodeCodes(reader: Reader, rows: seq<Quad<nat>>, limits: Limits) returns (r: Encoded)
    requires VisitsEach(reader) && Sound(limits)
    ensures r.Sent? ==> fresh(r.payload) && r.held <= Min(|rows|, limits.rows) && (rows != [] ==> r.held >= 1)
    ensures r.Sent? ==> Cut(reader.terms, Positions(rows[..Min(|rows|, limits.rows)]), 4, limits, r.held, r.payload.Packed())
    ensures r.Sent? ==> Carries(reader.terms, Positions(rows[..r.held]), r.payload.Packed())
    ensures r.Unreadable? ==> !reader.readable
    ensures r.Sent? ==> r.held == RowsKept(reader.terms, rows, limits)
    ensures !r.Unreadable? ==>
              (r.Outside? <==> exists p :: 0 <= p < 4 * RowsKept(reader.terms, rows, limits) && Positions(rows)[p] !in reader.terms)
  {
    hide Cut, Carries, Positions, Sum, Made, Readable, Spells, SumLengths, TermBytes, EachOnce, VisitsEach;
    var offered := Min(|rows|, limits.rows);
    var codes := Positions(rows[..offered]);
    PositionsOfPrefix(rows, offered);
    var payload, held, missed := EncodeDistinct(reader, 4, codes, limits, offered);
    if payload.None? {
      return Unreadable;
    }
    CutInside(reader.terms, codes, 4, limits, held, payload.value.Packed());
    CutIsKept(reader.terms, codes, 4, limits, held, payload.value.Packed(), offered);
    assert forall p :: 0 <= p < 4 * held ==> codes[p] == Positions(rows)[p];
    if missed {
      return Outside;
    }
    PositionsOfPrefix(rows, held);
    PrefixOfPrefix(Positions(rows), 4 * held, 4 * offered);
    r := Sent(payload.value, held);
  }

  /** The same of codes looked up, one to a row, where a code no term is known
      for is no error. */
  method EncodeLookup(reader: Reader, codes: seq<nat>, limits: Limits) returns (r: Encoded)
    requires VisitsEach(reader) && Sound(limits)
    ensures !r.Outside? && (r.Unreadable? ==> !reader.readable)
    ensures r.Sent? ==> fresh(r.payload) && r.held <= Min(|codes|, limits.rows) && (codes != [] ==> r.held >= 1)
    ensures r.Sent? ==> Cut(reader.terms, codes[..Min(|codes|, limits.rows)], 1, limits, r.held, r.payload.Packed())
    ensures r.Sent? ==> Carries(reader.terms, codes[..r.held], r.payload.Packed())
  {
    hide Cut, Carries, Sum, Made, Readable, Spells, SumLengths, TermBytes, EachOnce, VisitsEach;
    var count := Min(|codes|, limits.rows);
    var payload, held, _ := EncodeDistinct(reader, 1, codes[..count], limits, count);
    if payload.None? {
      return Unreadable;
    }
    CutInside(reader.terms, codes[..count], 1, limits, held, payload.value.Packed());
    PrefixOfPrefix(codes, held, count);
    r := Sent(payload.value, held);
  }

  lemma PrefixOfPrefix<T>(s: seq<T>, a: nat, b: nat)
    requires a <= b <= |s|
    ensures s[..b][..a] == s[..a]
  {
  }

  lemma CutInside(dict: Dict, codes: seq<nat>, width: nat, limits: Limits, rows: nat, c: Chunk)
    requires width > 0 && Cut(dict, codes, width, limits, rows, c)
    ensures rows * width <= |codes| && (codes != [] ==> rows >= 1)
  {
  }
}
