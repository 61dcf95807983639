/** Callers racing on one column's write-once cells. Each caller's program is
    cut where another may run: at every read of a cell, every fetch, every
    set-if-empty. A schedule names whose turn is next and what that turn's
    fetch, if it makes one, brings back. */
module Races {
  import opened Base
  import opened Columns
  import opened Layout

  /** Where a caller stands between two of its steps, with what it holds. */
  datatype Pc =
    | ReadLast
    | ReadLeaf
    | FetchLeaf
    | ReadDict(codes: Encoded)
    | FetchDict(codes: Encoded)
    | SetDict(codes: Encoded, values: Encoded)
    | ReadDictAgain(codes: Encoded)
    | ComposeLeaf(codes: Encoded, values: Encoded)
    | SetLeaf(arr: Encoded)
    | ReadLeafAgain
    | InitLast(last: u64)
    | GotLeaf(arr: Encoded)
    | GotLast(last: u64)
    | Ended

  /** A caller wants leaf `leaf`'s array, or its last value read through it. */
  datatype Caller = Caller(leaf: nat, wantsLast: bool, pc: Pc)

  datatype State = State(cells: Cells, callers: seq<Caller>)

  datatype Turn = Turn(caller: nat, fetched: Option<Encoded>)

  predicate Fresh(caller: Caller) {
    if caller.wantsLast then caller.pc.ReadLast? else caller.pc.ReadLeaf?
  }

  ghost predicate Shaped(c: Column, cells: Cells) {
    && |cells.leaves| == |cells.lasts| == |c.leaves| && |cells.dicts| == |c.dicts|
    && forall k :: 0 <= k < |c.leaves| && c.leaves[k].dict.Some? ==> c.leaves[k].dict.value < |c.dicts|
  }

  /** A caller only composes when its leaf has a dictionary. */
  ghost predicate OnItsWay(c: Column, caller: Caller) {
    && caller.leaf < |c.leaves|
    && (caller.pc.ReadDict? || caller.pc.FetchDict? || caller.pc.SetDict? || caller.pc.ReadDictAgain? || caller.pc.ComposeLeaf? ==>
          c.leaves[caller.leaf].dict.Some?)
    && (caller.pc.ReadLast? || caller.pc.InitLast? || caller.pc.GotLast? ==> caller.wantsLast)
    && (caller.pc.GotLeaf? ==> !caller.wantsLast)
  }

  function InRange(codes: Encoded, values: Encoded): (b: bool) {
    forall i :: 0 <= i < |codes.values| ==> codes.values[i] < |values.values|
  }

  /** What a caller that holds its leaf's array does next. */
  function WithLeaf(caller: Caller, arr: Encoded): (pc: Pc) {
    if !caller.wantsLast then GotLeaf(arr)
    else if arr.probe.None? || arr.values == [] then Ended
    else InitLast(arr.values[|arr.values| - 1])
  }

  function SetIfEmpty<T>(cells: seq<Option<T>>, k: nat, value: T): (now: seq<Option<T>>)
    requires k < |cells|
    ensures Kept(cells, now) && now[k].Some?
    ensures forall j :: 0 <= j < |cells| && j != k ==> now[j] == cells[j]
  {
    if cells[k].None? then cells[k := Some(value)] else cells
  }

  /** One step of one caller. */
  function Step(c: Column, cells: Cells, caller: Caller, fetched: Option<Encoded>): (r: (Cells, Pc))
    requires Shaped(c, cells) && OnItsWay(c, caller)
  {
    var k := caller.leaf;
    var leaf := c.leaves[k];
    var d := if leaf.dict.Some? then leaf.dict.value else 0;
    match caller.pc
    case ReadLast => (cells, if cells.lasts[k].Some? then GotLast(cells.lasts[k].value) else ReadLeaf)
    case ReadLeaf => (cells, if cells.leaves[k].Some? then WithLeaf(caller, cells.leaves[k].value) else FetchLeaf)
    case FetchLeaf =>
      (cells,
       if fetched.None? then Ended
       else if leaf.dict.None? then SetLeaf(fetched.value)
       else ReadDict(fetched.value))
    case ReadDict(codes) =>
      (cells, if cells.dicts[d].Some? then ComposeLeaf(codes, cells.dicts[d].value) else FetchDict(codes))
    case FetchDict(codes) => (cells, if fetched.None? then Ended else SetDict(codes, fetched.value))
    case SetDict(codes, values) => (cells.(dicts := SetIfEmpty(cells.dicts, d, values)), ReadDictAgain(codes))
    case ReadDictAgain(codes) =>
      (cells, if cells.dicts[d].Some? then ComposeLeaf(codes, cells.dicts[d].value) else Ended)
    case ComposeLeaf(codes, values) => (cells, if InRange(codes, values) then SetLeaf(Compose(codes, values)) else Ended)
    case SetLeaf(arr) => (cells.(leaves := SetIfEmpty(cells.leaves, k, arr)), ReadLeafAgain)
    case ReadLeafAgain => (cells, if cells.leaves[k].Some? then WithLeaf(caller, cells.leaves[k].value) else Ended)
    case InitLast(last) =>
      var now := SetIfEmpty(cells.lasts, k, last);
      (cells.(lasts := now), GotLast(now[k].value))
    case _ => (cells, caller.pc)
  }

  /** Callers' claims on the cells: what each has seen is still there. */
  ghost predicate Knows(c: Column, cells: Cells, caller: Caller)
    requires Shaped(c, cells) && OnItsWay(c, caller)
  {
    var k := caller.leaf;
    match caller.pc
    case ReadDictAgain(_) => cells.dicts[c.leaves[k].dict.value].Some?
    case ComposeLeaf(_, values) => cells.dicts[c.leaves[k].dict.value] == Some(values)
    case ReadLeafAgain => cells.leaves[k].Some?
    case GotLeaf(arr) => cells.leaves[k] == Some(arr)
    case InitLast(last) => LastOfCell(cells, k) == Some(last)
    case GotLast(last) => cells.lasts[k] == Some(last)
    case _ => true
  }

  /** The last value of the array leaf `k`'s cell holds. */
  ghost function LastOfCell(cells: Cells, k: nat): (last: Option<u64>)
    requires k < |cells.leaves|
  {
    match cells.leaves[k]
    case None => None
    case Some(arr) => if arr.values == [] then None else Some(arr.values[|arr.values| - 1])
  }

  ghost predicate Placed(c: Column, s: State) {
    Shaped(c, s.cells) && forall i :: 0 <= i < |s.callers| ==> OnItsWay(c, s.callers[i])
  }

  /** What every step keeps: a filled last value is that of the leaf's own
      cell, and every caller's claims hold. */
  ghost predicate Agreed(c: Column, s: State) {
    && Placed(c, s)
    && (forall k :: 0 <= k < |c.leaves| && s.cells.lasts[k].Some? ==> LastOfCell(s.cells, k) == s.cells.lasts[k])
    && (forall i :: 0 <= i < |s.callers| ==> Knows(c, s.cells, s.callers[i]))
  }

  /** Cells nothing filled, callers that took no step. */
  ghost predicate Start(c: Column, s: State) {
    && Placed(c, s)
    && (forall k :: 0 <= k < |c.leaves| ==> s.cells.leaves[k].None? && s.cells.lasts[k].None?)
    && (forall d :: 0 <= d < |c.dicts| ==> s.cells.dicts[d].None?)
    && (forall i :: 0 <= i < |s.callers| ==> Fresh(s.callers[i]))
  }

  lemma StartAgrees(c: Column, s: State)
    requires Start(c, s)
    ensures Agreed(c, s)
  {
  }

  function Next(c: Column, s: State, turn: Turn): (t: State)
    requires Placed(c, s)
    ensures Placed(c, t)
  {
    if turn.caller >= |s.callers| then s
    else
      var caller := s.callers[turn.caller];
      var (cells, pc) := Step(c, s.cells, caller, turn.fetched);
      State(cells, s.callers[turn.caller := caller.(pc := pc)])
  }

  function Run(c: Column, s: State, turns: seq<Turn>): (t: State)
    requires Placed(c, s)
    ensures Placed(c, t)
    decreases |turns|
  {
    if turns == [] then s else Next(c, Run(c, s, turns[..|turns| - 1]), turns[|turns| - 1])
  }

  lemma NextGrows(c: Column, s: State, turn: Turn)
    requires Placed(c, s)
    ensures Grew(s.cells, Next(c, s, turn).cells)
  {
  }

  /** A caller's claim outlives whatever others write. */
  lemma KnowsStill(c: Column, was: Cells, now: Cells, caller: Caller)
    requires Shaped(c, was) && Shaped(c, now) && OnItsWay(c, caller) && Grew(was, now) && Knows(c, was, caller)
    ensures Knows(c, now, caller)
  {
    assert Shaped(c, now);
  }

  lemma NextAgrees(c: Column, s: State, turn: Turn)
    requires Agreed(c, s)
    ensures Agreed(c, Next(c, s, turn))
  {
    if turn.caller < |s.callers| {
      var t := Next(c, s, turn);
      NextGrows(c, s, turn);
      assert Knows(c, s.cells, s.callers[turn.caller]);
      StepKnows(c, s.cells, s.callers[turn.caller], turn.fetched);
      forall i | 0 <= i < |t.callers|
        ensures Knows(c, t.cells, t.callers[i])
      {
        if i != turn.caller {
          KnowsStill(c, s.cells, t.cells, s.callers[i]);
        }
      }
    }
  }

  /** A step keeps its caller's claim, and a last value is set from the leaf's cell. */
  lemma StepKnows(c: Column, cells: Cells, caller: Caller, fetched: Option<Encoded>)
    requires Shaped(c, cells) && OnItsWay(c, caller) && Knows(c, cells, caller)
    requires forall k :: 0 <= k < |c.leaves| && cells.lasts[k].Some? ==> LastOfCell(cells, k) == cells.lasts[k]
    ensures var r := Step(c, cells, caller, fetched);
            && Shaped(c, r.0) && OnItsWay(c, caller.(pc := r.1)) && Knows(c, r.0, caller.(pc := r.1))
            && forall k :: 0 <= k < |c.leaves| && r.0.lasts[k].Some? ==> LastOfCell(r.0, k) == r.0.lasts[k]
  {
  }

  // ----- whole schedules

  lemma {:induction false} RunGrows(c: Column, s: State, turns: seq<Turn>)
    requires Placed(c, s)
    ensures Grew(s.cells, Run(c, s, turns).cells)
    decreases |turns|
  {
    if turns != [] {
      var before := Run(c, s, turns[..|turns| - 1]);
      RunGrows(c, s, turns[..|turns| - 1]);
      NextGrows(c, before, turns[|turns| - 1]);
      GrewTwice(s.cells, before.cells, Run(c, s, turns).cells);
    }
  }

  lemma {:induction false} RunAgrees(c: Column, s: State, turns: seq<Turn>)
    requires Agreed(c, s)
    ensures Agreed(c, Run(c, s, turns))
    decreases |turns|
  {
    if turns != [] {
      RunAgrees(c, s, turns[..|turns| - 1]);
      NextAgrees(c, Run(c, s, turns[..|turns| - 1]), turns[|turns| - 1]);
    }
  }

  /** A run's later part is a run from where its earlier part ended. */
  lemma {:induction false} RunInTwo(c: Column, s: State, a: seq<Turn>, b: seq<Turn>)
    requires Placed(c, s)
    ensures Run(c, s, a + b) == Run(c, Run(c, s, a), b)
    decreases |b|
  {
    if b == [] {
      assert a + b == a;
    } else {
      RunInTwo(c, s, a, b[..|b| - 1]);
      assert (a + b)[..|a + b| - 1] == a + b[..|b| - 1];
    }
  }

  /** How often leaf `k`'s cell changed over a schedule. */
  ghost function LeafWrites(c: Column, s: State, turns: seq<Turn>, k: nat): (n: nat)
    requires Placed(c, s) && k < |c.leaves|
    decreases |turns|
  {
    if turns == [] then 0
    else
      var before := Run(c, s, turns[..|turns| - 1]);
      LeafWrites(c, s, turns[..|turns| - 1], k)
      + (if Run(c, s, turns).cells.leaves[k] != before.cells.leaves[k] then 1 else 0)
  }

  /** Each cell changes at most once, and never once it is filled. */
  lemma {:induction false} LeafWrittenOnce(c: Column, s: State, turns: seq<Turn>, k: nat)
    requires Placed(c, s) && k < |c.leaves|
    ensures LeafWrites(c, s, turns, k) <= 1
    ensures LeafWrites(c, s, turns, k) == 1 <==> s.cells.leaves[k].None? && Run(c, s, turns).cells.leaves[k].Some?
    decreases |turns|
  {
    if turns != [] {
      LeafWrittenOnce(c, s, turns[..|turns| - 1], k);
      RunGrows(c, s, turns[..|turns| - 1]);
      NextGrows(c, Run(c, s, turns[..|turns| - 1]), turns[|turns| - 1]);
    }
  }

  /** Callers of one leaf see the same array and the same last value, whatever
      the fetches brought back, whenever each of them finished. */
  lemma CallersAgree(c: Column, s: State, early: seq<Turn>, late: seq<Turn>, i: nat, j: nat)
    requires Agreed(c, s)
    requires i < |Run(c, s, early).callers| && j < |Run(c, s, early + late).callers|
    requires Run(c, s, early).callers[i].leaf == Run(c, s, early + late).callers[j].leaf
    ensures var (a, b) := (Run(c, s, early).callers[i].pc, Run(c, s, early + late).callers[j].pc);
            && (a.GotLeaf? && b.GotLeaf? ==> a == b)
            && (a.GotLast? && b.GotLast? ==> a == b)
            && (a.GotLeaf? && b.GotLast? ==> a.arr.values != [] && b.last == a.arr.values[|a.arr.values| - 1])
            && (a.GotLast? && b.GotLeaf? ==> b.arr.values != [] && a.last == b.arr.values[|b.arr.values| - 1])
  {
    hide Step, Grew, Run;
    var first := Run(c, s, early);
    RunAgrees(c, s, early);
    RunAgrees(c, s, early + late);
    RunInTwo(c, s, early, late);
    RunGrows(c, first, late);
    KnowsStill(c, first.cells, Run(c, first, late).cells, first.callers[i]);
  }

  // ----- with a source that answers truly

  /** The segment a caller's next step fetches. */
  function Wanted(c: Column, caller: Caller): (segment: Option<nat>)
    requires OnItsWay(c, caller)
  {
    match caller.pc
    case FetchLeaf => Some(c.leaves[caller.leaf].segment)
    case FetchDict(_) =>
      if c.leaves[caller.leaf].dict.value < |c.dicts| then Some(c.dicts[c.leaves[caller.leaf].dict.value]) else None
    case _ => None
  }

  /** A fetch brings the segment's own array, or fails. */
  ghost predicate Honest(c: Column, s: State, turn: Turn)
    requires Placed(c, s)
  {
    turn.caller < |s.callers| && turn.fetched.Some? && Wanted(c, s.callers[turn.caller]).Some? ==>
      turn.fetched.value == c.content(Wanted(c, s.callers[turn.caller]).value)
  }

  ghost predicate HonestRun(c: Column, s: State, turns: seq<Turn>)
    requires Placed(c, s)
    decreases |turns|
  {
    turns == [] || (HonestRun(c, s, turns[..|turns| - 1]) && Honest(c, Run(c, s, turns[..|turns| - 1]), turns[|turns| - 1]))
  }

  /** What a caller holds is what a lone caller would hold. */
  ghost predicate Holds(c: Column, caller: Caller)
    requires WFColumn(c) && OnItsWay(c, caller)
  {
    var k := caller.leaf;
    LeafFits(c, k) &&
    var codes, dict := c.content(c.leaves[k].segment), c.leaves[k].dict;
    match caller.pc
    case ReadDict(a) => a == codes
    case FetchDict(a) => a == codes
    case SetDict(a, values) => a == codes && values == c.content(c.dicts[dict.value])
    case ReadDictAgain(a) => a == codes
    case ComposeLeaf(a, values) => a == codes && values == c.content(c.dicts[dict.value])
    case SetLeaf(arr) => arr == LeafArray(c, k)
    case InitLast(last) => last == LeafLast(c, k)
    case GotLeaf(arr) => arr == LeafArray(c, k)
    case GotLast(last) => last == LeafLast(c, k)
    case _ => true
  }

  ghost predicate True(c: Column, s: State)
    requires WFColumn(c)
  {
    && Placed(c, s) && Sound(c, s.cells)
    && forall i :: 0 <= i < |s.callers| ==> Holds(c, s.callers[i])
  }

  ghost predicate Answers(c: Column, caller: Caller, fetched: Option<Encoded>)
    requires OnItsWay(c, caller)
  {
    fetched.Some? && Wanted(c, caller).Some? ==> fetched.value == c.content(Wanted(c, caller).value)
  }

  lemma StepSound(c: Column, cells: Cells, caller: Caller, fetched: Option<Encoded>)
    requires WFColumn(c) && Shaped(c, cells) && Sound(c, cells) && OnItsWay(c, caller) && Holds(c, caller)
    ensures Sound(c, Step(c, cells, caller, fetched).0)
  {
    hide WFColumn, Faithful, Compose, LeafArray, LeafLast;
  }

  lemma StepHolds(c: Column, cells: Cells, caller: Caller, fetched: Option<Encoded>)
    requires WFColumn(c) && Shaped(c, cells) && Sound(c, cells) && OnItsWay(c, caller) && Holds(c, caller)
    requires Answers(c, caller, fetched)
    ensures var r := Step(c, cells, caller, fetched);
            OnItsWay(c, caller.(pc := r.1)) && Holds(c, caller.(pc := r.1))
  {
    hide WFColumn, Faithful, Compose, Kept;
    LeafIsFaithful(c, caller.leaf);
  }

  lemma NextTrue(c: Column, s: State, turn: Turn)
    requires WFColumn(c) && True(c, s) && Honest(c, s, turn)
    ensures True(c, Next(c, s, turn))
  {
    hide Sound, Holds, Step, WFColumn;
    if turn.caller < |s.callers| {
      StepSound(c, s.cells, s.callers[turn.caller], turn.fetched);
      StepHolds(c, s.cells, s.callers[turn.caller], turn.fetched);
    }
  }

  /** Under every schedule, every filled cell and every answer is the leaf's
      own decode. */
  lemma {:induction false} RunTrue(c: Column, s: State, turns: seq<Turn>)
    requires WFColumn(c) && Start(c, s) && HonestRun(c, s, turns)
    ensures True(c, Run(c, s, turns))
    decreases |turns|
  {
    hide WFColumn;
    if turns == [] {
      forall i | 0 <= i < |s.callers|
        ensures Holds(c, s.callers[i])
      {
        LeafIsFaithful(c, s.callers[i].leaf);
      }
    } else {
      RunTrue(c, s, turns[..|turns| - 1]);
      NextTrue(c, Run(c, s, turns[..|turns| - 1]), turns[|turns| - 1]);
    }
  }

  // ----- no caller waits for another

  /** How many steps of its own a caller still has, at most. */
  function StepsLeft(pc: Pc): (n: nat) {
    match pc
    case ReadLast => 11
    case ReadLeaf => 10
    case FetchLeaf => 9
    case ReadDict(_) => 8
    case FetchDict(_) => 7
    case SetDict(_, _) => 6
    case ReadDictAgain(_) => 5
    case ComposeLeaf(_, _) => 4
    case SetLeaf(_) => 3
    case ReadLeafAgain => 2
    case InitLast(_) => 1
    case _ => 0
  }

  function TurnsOf(turns: seq<Turn>, i: nat): (n: nat)
    decreases |turns|
  {
    if turns == [] then 0
    else TurnsOf(turns[..|turns| - 1], i) + (if turns[|turns| - 1].caller == i then 1 else 0)
  }

  /** A caller finishes in at most eleven turns of its own, whoever else runs
      or stops. */
  lemma {:induction false} CallerFinishes(c: Column, s: State, turns: seq<Turn>, i: nat)
    requires Placed(c, s) && i < |s.callers|
    ensures i < |Run(c, s, turns).callers|
    ensures StepsLeft(Run(c, s, turns).callers[i].pc) <= Max(0, StepsLeft(s.callers[i].pc) - TurnsOf(turns, i))
    ensures TurnsOf(turns, i) >= 11 ==>
              var pc := Run(c, s, turns).callers[i].pc;
              pc.GotLeaf? || pc.GotLast? || pc.Ended?
    decreases |turns|
  {
    hide Step;
    if turns != [] {
      CallerFinishes(c, s, turns[..|turns| - 1], i);
      StepAdvances(c, Run(c, s, turns[..|turns| - 1]), turns[|turns| - 1], i);
    }
  }

  lemma StepAdvances(c: Column, s: State, turn: Turn, i: nat)
    requires Placed(c, s) && i < |s.callers|
    ensures var t := Next(c, s, turn);
            && i < |t.callers|
            && (turn.caller != i ==> t.callers[i] == s.callers[i])
            && (turn.caller == i ==> StepsLeft(t.callers[i].pc) <= Max(0, StepsLeft(s.callers[i].pc) - 1))
  {
  }
}
