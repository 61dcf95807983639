/** A column's layout tree, and the walk that takes its flat leaves into an
    index: whatever the tree stands for, the index's flat column is. */
module LayoutTree {
  import opened Base
  import opened Nodes
  import opened Columns

  /** What the walk distinguishes. A child that cannot be opened is `None`; a
      slot of a chunked layout names its chunk's first row unless it is no
      chunk at all. */
  datatype Layout =
    | Flat(segment: nat, rows: nat)
    | Zoned(data: Option<Layout>)
    | Chunked(slots: seq<Slot>)
    | Dictionary(values: Option<Layout>, codes: Option<Layout>)
    | Other

  datatype Slot = Slot(first: Option<nat>, child: Option<Layout>)

  /** One flat leaf as the walk finds it: `dict` is the segment of the values
      its codes index, when it holds codes. */
  datatype FlatLeaf = FlatLeaf(segment: nat, rowOffset: nat, rowCount: nat, dict: Option<nat>)

  // ----- what a tree stands for

  /** Codes read through a dictionary's values. */
  ghost function Through(codes: seq<u64>, dict: Option<nat>, content: nat -> Encoded): (rows: seq<u64>)
    ensures |rows| == |codes|
  {
    match dict
    case None => codes
    case Some(d) =>
      var values := content(d).values;
      seq(|codes|, i requires 0 <= i < |codes| => if codes[i] < |values| then values[codes[i]] else 0)
  }

  /** The rows of a layout: chunks end to end, a dictionary's codes through its
      values, a zoned wrapper's data. */
  ghost function Meaning(l: Layout, content: nat -> Encoded): (rows: seq<u64>)
    decreases l
  {
    match l
    case Flat(segment, _) => content(segment).values
    case Zoned(data) => MeaningOf(data, content)
    case Chunked(slots) => SlotRows(slots, content)
    case Dictionary(values, codes) =>
      var segment := ValuesSegment(values);
      if segment.None? then [] else Through(MeaningOf(codes, content), segment, content)
    case Other => []
  }

  ghost function MeaningOf(l: Option<Layout>, content: nat -> Encoded): (rows: seq<u64>)
    decreases l
  {
    match l
    case None => []
    case Some(inner) => Meaning(inner, content)
  }

  ghost function SlotRows(slots: seq<Slot>, content: nat -> Encoded): (rows: seq<u64>)
    decreases slots
  {
    if slots == [] then []
    else SlotRows(slots[..|slots| - 1], content) + SlotMeaning(slots[|slots| - 1], content)
  }

  ghost function SlotMeaning(slot: Slot, content: nat -> Encoded): (rows: seq<u64>)
    decreases slot
  {
    MeaningOf(slot.child, content)
  }

  /** Past the zoned wrappers, the segment of a flat layout. */
  function ValuesSegment(l: Option<Layout>): (segment: Option<nat>)
  {
    match l
    case Some(Flat(segment, _)) => Some(segment)
    case Some(Zoned(data)) => ValuesSegment(data)
    case _ => None
  }

  /** Layouts the walk reads: flat leaves under zoned wrappers, chunked
      layouts and dictionaries whose values are one flat leaf, none of them
      inside another's codes. */
  predicate Supported(l: Layout, inCodes: bool)
    decreases l
  {
    match l
    case Flat(_, _) => true
    case Zoned(data) => data.Some? && Supported(data.value, inCodes)
    case Chunked(slots) => forall i :: 0 <= i < |slots| ==> SlotSupported(slots[i], inCodes)
    case Dictionary(values, codes) =>
      !inCodes && ValuesSegment(values).Some? && codes.Some? && Supported(codes.value, true)
    case Other => false
  }

  predicate SlotSupported(slot: Slot, inCodes: bool)
    decreases slot
  {
    slot.first.Some? && slot.child.Some? && Supported(slot.child.value, inCodes)
  }

  /** What a writer keeps: a leaf holds the rows it names, a chunk starts where
      the ones before it end, a code lies below its dictionary's value count. */
  ghost predicate Written(l: Layout, content: nat -> Encoded)
    decreases l
  {
    match l
    case Flat(segment, rows) => |content(segment).values| == rows && Faithful(content(segment))
    case Zoned(data) => data.Some? ==> Written(data.value, content)
    case Chunked(slots) => forall i :: 0 <= i < |slots| ==> SlotWritten(slots, i, content)
    case Dictionary(values, codes) =>
      && (codes.Some? ==> Written(codes.value, content))
      && (ValuesSegment(values).Some? ==>
            && Faithful(content(ValuesSegment(values).value))
            && InDictionary(MeaningOf(codes, content), ValuesSegment(values), content))
    case Other => true
  }

  ghost predicate SlotWritten(slots: seq<Slot>, i: nat, content: nat -> Encoded)
    requires i < |slots|
    decreases slots
  {
    && (slots[i].first.Some? ==> slots[i].first.value == |SlotRows(slots[..i], content)|)
    && ChildWritten(slots[i], content)
  }

  ghost predicate ChildWritten(slot: Slot, content: nat -> Encoded)
    decreases slot
  {
    slot.child.Some? ==> Written(slot.child.value, content)
  }

  ghost predicate InDictionary(codes: seq<u64>, dict: Option<nat>, content: nat -> Encoded) {
    dict.Some? ==> Faithful(content(dict.value)) && forall i :: 0 <= i < |codes| ==> codes[i] < |content(dict.value).values|
  }

  // ----- the walk

  ghost predicate LeafHolds(leaf: FlatLeaf, content: nat -> Encoded) {
    var codes := content(leaf.segment);
    && leaf.rowCount == |codes.values| > 0
    && Faithful(codes)
    && InDictionary(codes.values, leaf.dict, content)
  }

  function EndOf(leaves: seq<FlatLeaf>, offset: nat): (row: nat) {
    if leaves == [] then offset else leaves[|leaves| - 1].rowOffset + leaves[|leaves| - 1].rowCount
  }

  /** Leaf `k` is not empty and starts where the one before it ends. */
  ghost predicate Follows(leaves: seq<FlatLeaf>, content: nat -> Encoded, offset: nat, k: nat)
    requires k < |leaves|
  {
    LeafHolds(leaves[k], content) && leaves[k].rowOffset == EndOf(leaves[..k], offset)
  }

  /** What the leaves hold, laid end to end. */
  ghost function Laid(leaves: seq<FlatLeaf>, content: nat -> Encoded): (rows: seq<u64>) {
    if leaves == [] then []
    else
      var leaf := leaves[|leaves| - 1];
      Laid(leaves[..|leaves| - 1], content) + Through(content(leaf.segment).values, leaf.dict, content)
  }

  /** The leaves, laid end to end from row `offset` on, hold `rows`. */
  ghost predicate Lay(leaves: seq<FlatLeaf>, content: nat -> Encoded, offset: nat, rows: seq<u64>) {
    (forall k :: 0 <= k < |leaves| ==> Follows(leaves, content, offset, k)) && Laid(leaves, content) == rows
  }

  lemma {:induction false} LaidEnds(leaves: seq<FlatLeaf>, content: nat -> Encoded, offset: nat)
    requires forall k :: 0 <= k < |leaves| ==> Follows(leaves, content, offset, k)
    ensures EndOf(leaves, offset) == offset + |Laid(leaves, content)|
    decreases |leaves|
  {
    if leaves != [] {
      var rest := leaves[..|leaves| - 1];
      assert Follows(leaves, content, offset, |rest|);
      forall k | 0 <= k < |rest|
        ensures Follows(rest, content, offset, k)
      {
        assert Follows(leaves, content, offset, k) && rest[..k] == leaves[..k];
      }
      LaidEnds(rest, content, offset);
    }
  }

  lemma {:induction false} LaidConcat(a: seq<FlatLeaf>, b: seq<FlatLeaf>, content: nat -> Encoded)
    ensures Laid(a + b, content) == Laid(a, content) + Laid(b, content)
    decreases |b|
  {
    if b == [] {
      assert a + b == a;
    } else {
      LaidConcat(a, b[..|b| - 1], content);
      hide Laid;
      SplitLast(a, b);
      LaidConcatNext(a, b[..|b| - 1], b[|b| - 1], content);
    }
  }

  lemma LaidConcatNext(a: seq<FlatLeaf>, b: seq<FlatLeaf>, leaf: FlatLeaf, content: nat -> Encoded)
    requires Laid(a + b, content) == Laid(a, content) + Laid(b, content)
    ensures Laid(a + b + [leaf], content) == Laid(a, content) + Laid(b + [leaf], content)
  {
    LaidNext(b, leaf, content);
    LaidNext(a + b, leaf, content);
    hide Laid, Through;
    AppendIsAssociative(Laid(a, content), Laid(b, content), Through(content(leaf.segment).values, leaf.dict, content));
  }

  lemma LaidNext(leaves: seq<FlatLeaf>, leaf: FlatLeaf, content: nat -> Encoded)
    ensures Laid(leaves + [leaf], content) == Laid(leaves, content) + Through(content(leaf.segment).values, leaf.dict, content)
  {
    hide Through;
    assert (leaves + [leaf])[..|leaves|] == leaves;
  }

  lemma LayConcat(a: seq<FlatLeaf>, b: seq<FlatLeaf>, content: nat -> Encoded, offset: nat, rows: seq<u64>, more: seq<u64>)
    requires Lay(a, content, offset, rows) && Lay(b, content, offset + |rows|, more)
    ensures Lay(a + b, content, offset, rows + more)
  {
    hide Laid, LeafHolds;
    LaidEnds(a, content, offset);
    LaidConcat(a, b, content);
    forall k | 0 <= k < |a + b|
      ensures Follows(a + b, content, offset, k)
    {
      if k < |a| {
        assert Follows(a, content, offset, k) && (a + b)[..k] == a[..k];
      } else {
        assert Follows(b, content, offset + |rows|, k - |a|) && (a + b)[..k] == a + b[..k - |a|];
      }
    }
  }

  lemma ThroughConcat(a: seq<u64>, b: seq<u64>, dict: Option<nat>, content: nat -> Encoded)
    ensures Through(a + b, dict, content) == Through(a, dict, content) + Through(b, dict, content)
  {
    hide Faithful;
    var (all, first, second) := (Through(a + b, dict, content), Through(a, dict, content), Through(b, dict, content));
    assert forall i :: 0 <= i < |a| ==> all[i] == first[i];
    assert forall i :: |a| <= i < |a + b| ==> all[i] == second[i - |a|];
  }

  lemma SlotRowsNext(slots: seq<Slot>, i: nat, content: nat -> Encoded)
    requires i < |slots|
    ensures SlotRows(slots[..i + 1], content) == SlotRows(slots[..i], content) + SlotMeaning(slots[i], content)
  {
    assert slots[..i + 1][..i] == slots[..i];
  }

  /** The layout inside any number of zoned wrappers: it has the same rows and
      the same support. */
  method UnwrapZoned(l: Layout) returns (r: Option<Layout>)
    ensures r.Some? ==> !r.value.Zoned? && (r.value == l || r.value < l)
    ensures forall inCodes :: r.None? ==> !Supported(l, inCodes)
    ensures forall inCodes :: r.Some? ==> Supported(l, inCodes) == Supported(r.value, inCodes)
    ensures forall content :: r.Some? ==> Meaning(r.value, content) == Meaning(l, content)
    ensures forall content :: r.Some? && Written(l, content) ==> Written(r.value, content)
    ensures ValuesSegment(Some(l)) == if r.Some? && r.value.Flat? then Some(r.value.segment) else None
  {
    var node := l;
    while node.Zoned?
      invariant node == l || node < l
      invariant forall inCodes :: Supported(l, inCodes) == Supported(node, inCodes)
      invariant forall content :: Meaning(node, content) == Meaning(l, content)
      invariant forall content :: Written(l, content) ==> Written(node, content)
      invariant ValuesSegment(Some(l)) == ValuesSegment(Some(node))
      decreases node
    {
      if node.data.None? {
        return None;
      }
      node := node.data.value;
    }
    r := Some(node);
  }

  /** Pushes the leaves of `l`, its rows starting at row `offset`, holding codes
      into `dict` when that is given. It answers exactly for the layouts it
      supports, and then the leaves pushed hold the layout's rows in order, none
      of them empty. */
  method CollectLeaves(l: Layout, offset: nat, dict: Option<nat>, out: seq<FlatLeaf>, ghost content: nat -> Encoded)
    returns (ok: bool, all: seq<FlatLeaf>)
    ensures ok <==> Supported(l, dict.Some?)
    ensures ok ==> out <= all
    ensures ok && Written(l, content) && InDictionary(Meaning(l, content), dict, content) ==>
              Lay(all[|out|..], content, offset, Through(Meaning(l, content), dict, content))
    decreases l
  {
    var unwrapped := UnwrapZoned(l);
    if unwrapped.None? {
      return false, out;
    }
    var node := unwrapped.value;
    match node {
      case Flat(segment, rows) =>
        ok, all := true, out;
        if rows > 0 {
          all := all + [FlatLeaf(segment, offset, rows, dict)];
          LayOne(all[|out|], content, offset, Meaning(node, content));
          assert all[|out|..] == [all[|out|]];
        }
      case Chunked(slots) =>
        ok, all := CollectChunks(slots, offset, dict, out, content);
      case Dictionary(values, codes) =>
        if dict.Some? || values.None? {
          return false, out;
        }
        var flat := UnwrapZoned(values.value);
        if flat.None? || !flat.value.Flat? || codes.None? {
          return false, out;
        }
        ok, all := CollectLeaves(codes.value, offset, Some(flat.value.segment), out, content);
      case Zoned(_) =>
        assert false;
      case Other =>
        return false, out;
    }
  }

  lemma LayOne(leaf: FlatLeaf, content: nat -> Encoded, offset: nat, codes: seq<u64>)
    requires leaf.rowOffset == offset && codes == content(leaf.segment).values
    ensures LeafHolds(leaf, content) ==> Lay([leaf], content, offset, Through(codes, leaf.dict, content))
  {
    var leaves := [leaf];
    assert leaves[..0] == [] && Laid([], content) == [];
  }

  /** The chunks' leaves one after the other. */
  method CollectChunks(slots: seq<Slot>, offset: nat, dict: Option<nat>, out: seq<FlatLeaf>, ghost content: nat -> Encoded)
    returns (ok: bool, all: seq<FlatLeaf>)
    ensures ok <==> Supported(Layout.Chunked(slots), dict.Some?)
    ensures ok ==> out <= all
    ensures ok && Written(Layout.Chunked(slots), content) && InDictionary(SlotRows(slots, content), dict, content) ==>
              Lay(all[|out|..], content, offset, Through(SlotRows(slots, content), dict, content))
    decreases slots
  {
    hide Lay;
    all := out;
    LayNone(content, offset, dict);
    assert slots[..0] == [] && out[|out|..] == [];
    for i := 0 to |slots|
      invariant forall j :: 0 <= j < i ==> SlotSupported(slots[j], dict.Some?)
      invariant out <= all
      invariant Written(Layout.Chunked(slots), content) && InDictionary(SlotRows(slots[..i], content), dict, content) ==>
                  Lay(all[|out|..], content, offset, Through(SlotRows(slots[..i], content), dict, content))
    {
      if slots[i].first.None? || slots[i].child.None? {
        assert !SlotSupported(slots[i], dict.Some?);
        return false, out;
      }
      ghost var before := all;
      ok, all := CollectLeaves(slots[i].child.value, offset + slots[i].first.value, dict, all, content);
      if !ok {
        assert !SlotSupported(slots[i], dict.Some?);
        return;
      }
      LayChunk(slots, i, offset, dict, content, before[|out|..], all[|before|..]);
      assert all[|out|..] == before[|out|..] + all[|before|..];
    }
    ok := true;
    assert slots[..|slots|] == slots;
  }

  lemma LayNone(content: nat -> Encoded, offset: nat, dict: Option<nat>)
    ensures Lay([], content, offset, Through(SlotRows([], content), dict, content))
  {
  }

  /** The leaves of the first `i` chunks, then chunk `i`'s, hold one chunk more. */
  lemma LayChunk(slots: seq<Slot>, i: nat, offset: nat, dict: Option<nat>, content: nat -> Encoded, a: seq<FlatLeaf>, b: seq<FlatLeaf>)
    requires i < |slots| && slots[i].first.Some? && slots[i].child.Some?
    requires var rows := SlotRows(slots[..i], content);
             Written(Layout.Chunked(slots), content) && InDictionary(rows, dict, content) ==>
               Lay(a, content, offset, Through(rows, dict, content))
    requires var rows := SlotMeaning(slots[i], content);
             Written(slots[i].child.value, content) && InDictionary(rows, dict, content) ==>
               Lay(b, content, offset + slots[i].first.value, Through(rows, dict, content))
    ensures var rows := SlotRows(slots[..i + 1], content);
            Written(Layout.Chunked(slots), content) && InDictionary(rows, dict, content) ==>
              Lay(a + b, content, offset, Through(rows, dict, content))
  {
    hide Lay, SlotRows, SlotMeaning, Through;
    var (before, own, rows) := (SlotRows(slots[..i], content), SlotMeaning(slots[i], content), SlotRows(slots[..i + 1], content));
    SlotRowsNext(slots, i, content);
    ThroughConcat(before, own, dict, content);
    if Written(Layout.Chunked(slots), content) && InDictionary(rows, dict, content) {
      assert SlotWritten(slots, i, content);
      assert forall k :: 0 <= k < |before| ==> before[k] == rows[k];
      assert forall k :: 0 <= k < |own| ==> own[k] == rows[|before| + k];
      assert slots[i].first.value == |before|;
      assert ChildWritten(slots[i], content);
      assert InDictionary(before, dict, content);
      assert InDictionary(own, dict, content);
      LayConcat(a, b, content, offset, Through(before, dict, content), Through(own, dict, content));
    }
  }

  // ----- the index

  /** Leaf `k` of the index is the tree's, its dictionary's cell holding the
      segment the tree's leaf names. */
  ghost predicate SameLeaf(leaves: seq<FlatLeaf>, c: Column, k: nat)
    requires k < |leaves| && k < |c.leaves|
  {
    var (flat, leaf) := (leaves[k], c.leaves[k]);
    && leaf.segment == flat.segment && leaf.rowOffset == flat.rowOffset && leaf.rowCount == flat.rowCount
    && (leaf.dict.Some? <==> flat.dict.Some?)
    && (leaf.dict.Some? ==> leaf.dict.value < |c.dicts| && c.dicts[leaf.dict.value] == flat.dict.value)
  }

  /** Adjacent codes leaves of one dictionary share one cell of its values. */
  ghost predicate Shares(c: Column, k: nat)
    requires 0 < k < |c.leaves|
  {
    var (before, leaf) := (c.leaves[k - 1].dict, c.leaves[k].dict);
    (before.Some? && leaf.Some? && before.value < |c.dicts| && leaf.value < |c.dicts|
     && c.dicts[before.value] == c.dicts[leaf.value]) ==> before == leaf
  }

  /** The leaves as the index keeps them. */
  method Index(flat: seq<FlatLeaf>, content: nat -> Encoded, reachable: nat -> bool) returns (c: Column)
    ensures c.content == content && |c.leaves| == |flat|
    ensures forall k :: 0 <= k < |flat| ==> SameLeaf(flat, c, k)
    ensures forall k :: 0 < k < |flat| ==> Shares(c, k)
  {
    c := Column([], [], content, reachable);
    for i := 0 to |flat|
      invariant c.content == content && |c.leaves| == i
      invariant forall k :: 0 <= k < i ==> SameLeaf(flat, c, k)
      invariant forall k :: 0 < k < i ==> Shares(c, k)
    {
      ghost var was := c;
      var leaf := Leaf(flat[i].segment, flat[i].rowOffset, flat[i].rowCount, None);
      match flat[i].dict {
        case None =>
        case Some(segment) =>
          var prev := if i > 0 then c.leaves[i - 1].dict else None;
          assert i > 0 ==> SameLeaf(flat, c, i - 1);
          if prev.Some? && c.dicts[prev.value] == segment {
            leaf := leaf.(dict := prev);
          } else {
            leaf := leaf.(dict := Some(|c.dicts|));
            c := c.(dicts := c.dicts + [segment]);
          }
      }
      c := c.(leaves := c.leaves + [leaf]);
      assert forall k :: 0 <= k < i ==> SameLeaf(flat, was, k) && c.leaves[k] == was.leaves[k];
      forall k | 0 < k < i
        ensures Shares(c, k)
      {
        assert Shares(was, k) && SameLeaf(flat, was, k - 1) && SameLeaf(flat, was, k);
      }
    }
  }

  /** Leaves that lie end to end make a well-formed index of what they hold. */
  lemma IndexTiles(flat: seq<FlatLeaf>, c: Column, rows: seq<u64>)
    requires Lay(flat, c.content, 0, rows) && |rows| <= U64_MAX
    requires |c.leaves| == |flat| && forall k :: 0 <= k < |flat| ==> SameLeaf(flat, c, k)
    ensures WFColumn(c) && Columns.Flat(c) == rows
  {
    hide Laid, Faithful;
    forall k | 0 <= k < |flat|
      ensures LeafFits(c, k)
    {
      assert SameLeaf(flat, c, k) && Follows(flat, c.content, 0, k);
      assert k > 0 ==> SameLeaf(flat, c, k - 1);
    }
    LaidEnds(flat, c.content, 0);
    assert |flat| > 0 ==> SameLeaf(flat, c, |flat| - 1);
    LaidIsUpto(flat, c, |flat|);
    assert flat[..|flat|] == flat;
  }

  lemma {:induction false} LaidIsUpto(flat: seq<FlatLeaf>, c: Column, n: nat)
    requires WFColumn(c) && |c.leaves| == |flat| && n <= |flat|
    requires forall k :: 0 <= k < |flat| ==> SameLeaf(flat, c, k)
    ensures Laid(flat[..n], c.content) == Upto(c, n)
    decreases n
  {
    hide Through, LeafValues, WFColumn;
    if n > 0 {
      LaidIsUpto(flat, c, n - 1);
      assert flat[..n][..n - 1] == flat[..n - 1];
      ThroughIsLeaf(flat, c, n - 1);
    }
  }

  /** What a leaf holds is its codes through its dictionary. */
  lemma ThroughIsLeaf(flat: seq<FlatLeaf>, c: Column, k: nat)
    requires WFColumn(c) && k < |c.leaves| == |flat| && SameLeaf(flat, c, k)
    ensures Through(c.content(flat[k].segment).values, flat[k].dict, c.content) == LeafValues(c, k)
  {
    hide Faithful;
    assert LeafFits(c, k);
  }

  /** The index of a column, or nothing for a shape the walk does not read.
      The index's flat column is the layout's own rows. */
  method Open(l: Layout, content: nat -> Encoded, reachable: nat -> bool) returns (r: Option<Column>)
    ensures r.Some? <==> Supported(l, false)
    ensures r.Some? && Written(l, content) && |Meaning(l, content)| <= U64_MAX ==>
              WFColumn(r.value) && Columns.Flat(r.value) == Meaning(l, content)
    ensures r.Some? ==> forall k :: 0 < k < |r.value.leaves| ==> Shares(r.value, k)
  {
    hide Lay, WFColumn, Columns.Flat;
    var ok, flat := CollectLeaves(l, 0, None, [], content);
    if !ok {
      return None;
    }
    assert flat[0..] == flat;
    var c := Index(flat, content, reachable);
    if Written(l, content) && |Meaning(l, content)| <= U64_MAX {
      IndexTiles(flat, c, Meaning(l, content));
    }
    r := Some(c);
  }
}
