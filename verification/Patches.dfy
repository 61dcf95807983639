/** Exception values written over an array: `indices` holds strictly ascending
    positions, `values` what each position holds instead. */
module Patches {
  import opened Base

  /** `base` with every patch written over it in order, position `offset` of
      the patched coordinate space being its first. */
  ghost function Patched(base: seq<u64>, indices: seq<u64>, values: seq<u64>, offset: nat): (rows: seq<u64>)
    requires |indices| <= |values|
    ensures |rows| == |base|
  {
    if indices == [] then base
    else
      var last := |indices| - 1;
      var before := Patched(base, indices[..last], values, offset);
      var key := indices[last];
      if offset <= key < offset + |base| then before[key - offset := values[last]] else before
  }

  /** What one search of the patched positions says of row `i`. */
  lemma {:induction false} PatchedAt(base: seq<u64>, indices: seq<u64>, values: seq<u64>, offset: nat, i: nat, at: nat)
    requires |indices| <= |values| && StrictlyAscending(indices) && i < |base|
    requires IsLower(indices, i + offset, at)
    ensures Patched(base, indices, values, offset)[i] ==
            if at < |indices| && indices[at] == i + offset then values[at] else base[i]
  {
    if indices != [] {
      var last := |indices| - 1;
      var before := if at == |indices| then last else at;
      PatchedAt(base, indices[..last], values, offset, i, before);
    }
  }
}
