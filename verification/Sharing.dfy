/** Codes given slots: each position's slot is stated from the codes before it,
    and the cached pass over them is proved to compute it. What a payload relies
    on follows: slots are numbered by first use, and hold their positions'
    codes. */
module Sharing {
  import opened Base

  const BUCKETS: nat := 256

  /** How many slots the first `p` positions made, were slots made in order. */
  function Made(slots: seq<nat>, p: nat): (n: nat)
    requires p <= |slots|
    ensures n <= p
  {
    if p == 0 then 0
    else
      var before := Made(slots, p - 1);
      before + if slots[p - 1] == before then 1 else 0
  }

  lemma {:induction false} MadeOfPrefix(a: seq<nat>, b: seq<nat>, p: nat)
    requires p <= |a| && p <= |b| && a[..p] == b[..p]
    ensures Made(a, p) == Made(b, p)
    decreases p
  {
    if p > 0 {
      assert a[..p - 1] == a[..p][..p - 1] == b[..p - 1];
      assert a[p - 1] == a[..p][p - 1] == b[..p][p - 1];
      MadeOfPrefix(a, b, p - 1);
    }
  }

  lemma {:induction false} MadeGrows(slots: seq<nat>, p: nat, q: nat)
    requires p <= q <= |slots|
    ensures Made(slots, p) <= Made(slots, q)
    decreases q
  {
    if p < q {
      MadeGrows(slots, p, q - 1);
    }
  }

  /** Slots made in position order, each holding the code its positions hold. */
  ghost predicate Slotted(codes: seq<nat>, distinct: seq<nat>, slots: seq<nat>) {
    && |slots| == |codes| && |distinct| == Made(slots, |slots|)
    && forall p :: 0 <= p < |slots| ==> SlotOf(codes, distinct, slots, p)
  }

  ghost predicate SlotOf(codes: seq<nat>, distinct: seq<nat>, slots: seq<nat>, p: nat)
    requires p < |slots| == |codes|
  {
    slots[p] <= Made(slots, p) && slots[p] < |distinct| && distinct[slots[p]] == codes[p]
  }

  /** The last of the first `upto` positions in a column and a bucket. */
  function LastMet(codes: seq<nat>, width: nat, column: nat, bucket: nat, upto: nat): (q: Option<nat>)
    requires upto <= |codes| && width > 0
    ensures q.Some? ==> q.value < upto
  {
    if upto == 0 then None
    else if (upto - 1) % width == column && codes[upto - 1] % BUCKETS == bucket then Some(upto - 1)
    else LastMet(codes, width, column, bucket, upto - 1)
  }

  /** The slot of each position: that of the last code its bucket met, when
      that is its own code, a new one otherwise. */
  ghost function Slots(codes: seq<nat>, width: nat): (slots: seq<nat>)
    requires width > 0
    ensures |slots| == |codes|
    decreases |codes|
  {
    if codes == [] then []
    else
      var p := |codes| - 1;
      var before := Slots(codes[..p], width);
      var q := LastMet(codes, width, p % width, codes[p] % BUCKETS, p);
      before + [if q.Some? && codes[q.value] == codes[p] then before[q.value] else Made(before, p)]
  }

  lemma {:induction false} LastMetOfPrefix(a: seq<nat>, b: seq<nat>, width: nat, column: nat, bucket: nat, upto: nat)
    requires upto <= |a| && upto <= |b| && width > 0 && a[..upto] == b[..upto]
    ensures LastMet(a, width, column, bucket, upto) == LastMet(b, width, column, bucket, upto)
    decreases upto
  {
    if upto > 0 {
      assert a[..upto - 1] == a[..upto][..upto - 1] == b[..upto - 1];
      assert a[upto - 1] == a[..upto][upto - 1] == b[..upto][upto - 1];
      LastMetOfPrefix(a, b, width, column, bucket, upto - 1);
    }
  }

  /** Slots depend on no later code. */
  lemma {:induction false} PrefixSameSlots(codes: seq<nat>, width: nat, p: nat)
    requires p <= |codes| && width > 0
    ensures Slots(codes[..p], width) == Slots(codes, width)[..p]
    decreases |codes|
  {
    var last := |codes| - 1;
    if p <= last {
      PrefixSameSlots(codes[..last], width, p);
      assert codes[..last][..p] == codes[..p];
    } else {
      assert codes[..p] == codes;
    }
  }

  /** An entry of the cache: the code it last met, and its slot. */
  datatype Entry = Empty | Entry(code: nat, slot: nat)

  ghost function Cached(codes: seq<nat>, slots: seq<nat>, width: nat, column: nat, bucket: nat, upto: nat): (e: Entry)
    requires upto <= |codes| && upto <= |slots| && width > 0
  {
    match LastMet(codes, width, column, bucket, upto)
    case None => Empty
    case Some(q) => Entry(codes[q], slots[q])
  }

  method DistinctCodes(codes: seq<nat>, width: nat) returns (distinct: seq<nat>, slots: seq<nat>)
    requires width > 0
    ensures slots == Slots(codes, width) && Slotted(codes, distinct, slots)
  {
    hide LastMet, Slots, Slotted;
    var recent := new Entry[width, BUCKETS]((_, _) => Empty);
    distinct, slots := [], [];
    Nothing(codes, width);
    for p := 0 to |codes|
      invariant slots == Slots(codes[..p], width) && Slotted(codes[..p], distinct, slots)
      invariant forall c, b :: 0 <= c < width && 0 <= b < BUCKETS ==> recent[c, b] == Cached(codes, slots, width, c, b, p)
    {
      var code, column, bucket := codes[p], p % width, codes[p] % BUCKETS;
      ghost var (was, wasSlots) := (distinct, slots);
      assert recent[column, bucket] == Cached(codes, slots, width, column, bucket, p);
      SlotHolds(codes, width, p, distinct, slots);
      if recent[column, bucket].Empty? || recent[column, bucket].code != code {
        recent[column, bucket] := Entry(code, |distinct|);
        distinct := distinct + [code];
      }
      slots := slots + [recent[column, bucket].slot];
      SlotsNext(codes, width, p);
      SlottedNext(codes, p, was, wasSlots, distinct, slots);
      forall c, b | 0 <= c < width && 0 <= b < BUCKETS
        ensures recent[c, b] == Cached(codes, slots, width, c, b, p + 1)
      {
        CacheNext(codes, wasSlots, slots, width, p, c, b);
      }
    }
    assert codes[..|codes|] == codes;
  }

  lemma Nothing(codes: seq<nat>, width: nat)
    requires width > 0
    ensures codes[..0] == [] && Slots([], width) == [] && Slotted([], [], [])
    ensures forall c, b :: Cached(codes, [], width, c, b, 0) == Empty
  {
  }

  lemma SlotsNext(codes: seq<nat>, width: nat, p: nat)
    requires p < |codes| && width > 0
    ensures var before := Slots(codes[..p], width);
            var e := Cached(codes, before, width, p % width, codes[p] % BUCKETS, p);
            Slots(codes[..p + 1], width) == before + [if e.Entry? && e.code == codes[p] then e.slot else Made(before, p)]
  {
    assert codes[..p + 1][..p] == codes[..p];
    LastMetOfPrefix(codes[..p + 1], codes, width, p % width, codes[p] % BUCKETS, p);
  }

  /** The cache only names slots made, holding the codes it says. */
  lemma SlotHolds(codes: seq<nat>, width: nat, p: nat, distinct: seq<nat>, slots: seq<nat>)
    requires p < |codes| && width > 0 && Slotted(codes[..p], distinct, slots)
    ensures |slots| == p && |distinct| == Made(slots, p)
    ensures var e := Cached(codes, slots, width, p % width, codes[p] % BUCKETS, p);
            e.Entry? ==> e.slot < |distinct| && distinct[e.slot] == e.code
  {
    hide LastMet, Made;
    var q := LastMet(codes, width, p % width, codes[p] % BUCKETS, p);
    if q.Some? {
      assert SlotOf(codes[..p], distinct, slots, q.value) && codes[..p][q.value] == codes[q.value];
    }
  }

  lemma SlottedNext(codes: seq<nat>, p: nat, was: seq<nat>, wasSlots: seq<nat>, distinct: seq<nat>, slots: seq<nat>)
    requires p < |codes| && Slotted(codes[..p], was, wasSlots) && |slots| == p + 1 && slots[..p] == wasSlots
    requires (distinct == was && slots[p] < |was| && was[slots[p]] == codes[p])
             || (distinct == was + [codes[p]] && slots[p] == |was|)
    ensures Slotted(codes[..p + 1], distinct, slots)
  {
    hide Made;
    assert Made(slots, p) == Made(wasSlots, p) by {
      MadeOfPrefix(slots, wasSlots, p);
    }
    MadeNext(slots, p);
    var upto := codes[..p + 1];
    forall q: nat | q < |slots|
      ensures SlotOf(upto, distinct, slots, q)
    {
      if q < p {
        assert SlotOf(codes[..p], was, wasSlots, q);
        assert slots[q] == wasSlots[q] && upto[q] == codes[..p][q];
        assert slots[..q] == slots[..p][..q] == wasSlots[..q];
        MadeOfPrefix(slots, wasSlots, q);
      }
    }
  }

  lemma MadeNext(slots: seq<nat>, p: nat)
    requires p < |slots|
    ensures Made(slots, p + 1) == Made(slots, p) + if slots[p] == Made(slots, p) then 1 else 0
  {
  }

  /** Only the bucket a code falls in changes. */
  lemma CacheNext(codes: seq<nat>, was: seq<nat>, slots: seq<nat>, width: nat, p: nat, c: nat, b: nat)
    requires p < |codes| && width > 0 && |was| == p && |slots| == p + 1 && slots[..p] == was
    ensures Cached(codes, slots, width, c, b, p + 1) ==
              if c == p % width && b == codes[p] % BUCKETS then Entry(codes[p], slots[p])
              else Cached(codes, was, width, c, b, p)
  {
    var q := LastMet(codes, width, c, b, p);
    assert q.Some? ==> slots[..p][q.value] == slots[q.value];
  }
}
