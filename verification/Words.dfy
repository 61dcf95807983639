/** Words of one width, held as the numbers they are, and the bound a search of
    them answers: a needle too wide for the width lies past them all. */
module Words {
  import opened Base
  import opened Search

  datatype Width = W8 | W16 | W32 | W64

  function WordBytes(width: Width): (bytes: nat)
    ensures bytes > 0
  {
    match width
    case W8 => 1
    case W16 => 2
    case W32 => 4
    case W64 => 8
  }

  /** One past the largest word of a width. */
  function Limit(width: Width): (limit: nat)
    ensures 0 < limit <= U64_MAX + 1
  {
    match width
    case W8 => 0x100
    case W16 => 0x1_0000
    case W32 => 0x1_0000_0000
    case W64 => 0x1_0000_0000_0000_0000
  }

  datatype Words = Words(width: Width, data: seq<u64>)

  ghost predicate Fit(words: Words) {
    forall i :: 0 <= i < |words.data| ==> words.data[i] < Limit(words.width)
  }

  /** A needle as a word of `width`, when it is one. */
  function Narrow(needle: u64, width: Width): (r: Option<u64>) {
    if needle < Limit(width) then Some(needle) else None
  }

  /** First index whose word is at or above the needle; a needle no word of the
      width can hold is past them all. */
  function LowerBound(words: Words, needle: u64): (p: nat)
    ensures p <= |words.data|
  {
    match Narrow(needle, words.width)
    case Some(n) => PartitionPoint(Below(words.data, n))
    case None => |words.data|
  }

  lemma LowerBoundExact(words: Words, needle: u64)
    requires Fit(words) && Splits(words.data, needle)
    ensures IsLower(words.data, needle, LowerBound(words, needle))
  {
    hide PartitionPoint;
    PartitionIsLower(words.data, needle);
  }
}
