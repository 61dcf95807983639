/** What each encoding's rows are, given its children's: the elementwise
    encodings, with what each asks of its children. */
module Rows {
  import opened Base

  /** Addition that saturates, and addition that wraps. */
  function SaturatingAdd(a: u64, b: u64): (sum: u64) { Min(a + b, U64_MAX) }

  function WrapAdd(a: u64, b: u64): (sum: u64) { (a + b) % (U64_MAX + 1) }

  /** An arithmetic sequence inside the word range. */
  ghost predicate ProgressionFits(base: u64, multiplier: u64, len: nat) {
    multiplier > 0 && len <= U64_MAX && (len > 0 ==> base + (len - 1) * multiplier <= U64_MAX)
  }

  lemma ProgressionAt(base: u64, multiplier: u64, len: nat, i: nat)
    requires ProgressionFits(base, multiplier, len) && i < len
    ensures base <= base + i * multiplier <= U64_MAX
  {
    MulMonotone(i, len - 1, multiplier);
  }

  ghost function Progression(base: u64, multiplier: u64, len: nat): (rows: seq<u64>)
    requires ProgressionFits(base, multiplier, len)
    ensures |rows| == len && forall i :: 0 <= i < len ==> rows[i] == base + i * multiplier
  {
    if len == 0 then []
    else
      ProgressionAt(base, multiplier, len, len - 1);
      if len > 1 then
        ProgressionAt(base, multiplier, len, len - 2);
        Progression(base, multiplier, len - 1) + [base + (len - 1) * multiplier]
      else [base]
  }

  /** A frame of reference, one reference for every row: stored values never saturate. */
  ghost predicate Raisable(reference: u64, rows: seq<u64>) {
    forall i :: 0 <= i < |rows| ==> reference + rows[i] <= U64_MAX
  }

  ghost function Raised(reference: u64, rows: seq<u64>): (r: seq<u64>)
    ensures |r| == |rows| && forall i :: 0 <= i < |rows| ==> r[i] == SaturatingAdd(reference, rows[i])
  {
    seq(|rows|, i requires 0 <= i < |rows| => SaturatingAdd(reference, rows[i]))
  }

  /** A reference per 1024-value chunk. */
  ghost predicate ReferencesReach(references: nat, offset: nat, rows: nat) {
    offset + rows <= U64_MAX && (rows > 0 ==> DivCeil(offset + rows, FL_CHUNK) <= references)
  }

  ghost function RaisedByChunk(references: seq<u64>, offset: nat, rows: seq<u64>): (r: seq<u64>)
    requires ReferencesReach(|references|, offset, |rows|)
    ensures |r| == |rows|
    ensures forall i :: 0 <= i < |rows| ==> r[i] == WrapAdd(rows[i], references[(offset + i) / FL_CHUNK])
  {
    seq(|rows|, i requires 0 <= i < |rows| => WrapAdd(rows[i], references[(offset + i) / FL_CHUNK]))
  }

  /** A dictionary's codes lie inside its values. */
  ghost predicate CodesInside(codes: seq<u64>, values: nat) {
    forall i :: 0 <= i < |codes| ==> codes[i] < values
  }

  ghost function Decoded(codes: seq<u64>, values: seq<u64>): (r: seq<u64>)
    requires CodesInside(codes, |values|)
    ensures |r| == |codes| && forall i :: 0 <= i < |codes| ==> r[i] == values[codes[i]]
  {
    seq(|codes|, i requires 0 <= i < |codes| => values[codes[i]])
  }

  /** A run-length position's place among the values: its chunk's first value,
      counted from the array's own first, plus the position's index. */
  ghost function Place(indices: seq<u64>, firsts: seq<u64>, first: u64, p: nat): (place: int)
    requires p < |indices| && p / FL_CHUNK < |firsts|
  {
    firsts[p / FL_CHUNK] - first + indices[p]
  }

  ghost predicate PlacesInside(values: nat, indices: seq<u64>, firsts: seq<u64>, first: u64, offset: nat, len: nat) {
    && offset + len <= U64_MAX
    && offset + len <= |indices|
    && (len > 0 ==> DivCeil(offset + len, FL_CHUNK) <= |firsts|)
    && forall p :: offset <= p < offset + len ==>
         firsts[p / FL_CHUNK] >= first && Place(indices, firsts, first, p) < values
  }

  ghost function RunLength(values: seq<u64>, indices: seq<u64>, firsts: seq<u64>, first: u64, offset: nat, len: nat): (r: seq<u64>)
    requires PlacesInside(|values|, indices, firsts, first, offset, len)
    ensures |r| == len && forall i :: 0 <= i < len ==> r[i] == values[Place(indices, firsts, first, offset + i)]
  {
    seq(len, i requires 0 <= i < len => values[Place(indices, firsts, first, offset + i)])
  }

  // ----- bounds through the elementwise encodings

  /** A frame of reference splits where its child does: at every word even when
      it saturates, and past the largest when it does not. */
  lemma RaisedLower(reference: u64, rows: seq<u64>, x: int, p: nat)
    requires x <= U64_MAX || Raisable(reference, rows)
    ensures IsLower(Raised(reference, rows), x, p) <==> IsLower(rows, x - reference, p)
  {
    var raised := Raised(reference, rows);
    assert forall k :: 0 <= k < |rows| ==> (raised[k] < x <==> rows[k] < x - reference);
  }

  lemma RaisedSplits(reference: u64, rows: seq<u64>, x: int)
    requires x <= U64_MAX || Raisable(reference, rows)
    ensures Splits(Raised(reference, rows), x) <==> Splits(rows, x - reference)
  {
    hide IsLower, Raised;
    if Splits(Raised(reference, rows), x) {
      var p: nat :| IsLower(Raised(reference, rows), x, p);
      RaisedLower(reference, rows, x, p);
    }
    if Splits(rows, x - reference) {
      var p: nat :| IsLower(rows, x - reference, p);
      RaisedLower(reference, rows, x, p);
    }
  }

  lemma RaisedAboveReference(reference: u64, rows: seq<u64>, x: int)
    requires x <= reference
    ensures IsLower(Raised(reference, rows), x, 0)
  {
  }

  /** Position `q` clamped to `len`, through an index type holding up to `indexMax`. */
  function ClampToLen(q: u64, indexMax: nat, len: nat): (p: nat) {
    if q > indexMax then len else Min(q, len)
  }

  /** Clamping never takes a quotient by its low bits: the answer is the same
      for every index width that holds the length. */
  lemma ClampIsMinimum(q: u64, indexMax: nat, len: nat)
    requires len <= indexMax
    ensures ClampToLen(q, indexMax, len) == Min(q, len)
  {
  }

  /** The closed form of a sequence's lower bound. */
  function ProgressionLowerBound(base: u64, multiplier: u64, len: nat, needle: u64): (p: nat)
    requires multiplier > 0
    ensures p <= len
  {
    if needle <= base then 0
    else
      QuotientFits(needle - base, multiplier);
      ClampToLen(DivCeil(needle - base, multiplier), U64_MAX, len)
  }

  lemma QuotientFits(d: nat, m: nat)
    requires 0 < m && 0 < d
    ensures 0 < DivCeil(d, m) <= d
    ensures (DivCeil(d, m) - 1) * m < d <= DivCeil(d, m) * m
  {
    var q := DivCeil(d, m);
    assert d + m - 1 == q * m + (d + m - 1) % m;
    assert (q - 1) * m == q * m - m;
    MulMonotone(1, m, q - 1);
    assert (q - 1) * m == m * (q - 1);
  }

  lemma ProgressionLower(base: u64, multiplier: u64, len: nat, needle: u64)
    requires ProgressionFits(base, multiplier, len)
    ensures IsLower(Progression(base, multiplier, len), needle, ProgressionLowerBound(base, multiplier, len, needle))
  {
    var rows := Progression(base, multiplier, len);
    if needle > base {
      var d := needle - base;
      QuotientFits(d, multiplier);
      var q := DivCeil(d, multiplier);
      forall i | 0 <= i < len
        ensures rows[i] < needle <==> i < q
      {
        if i < q {
          MulMonotone(i, q - 1, multiplier);
        } else {
          MulMonotone(q, i, multiplier);
        }
      }
    } else {
      forall i | 0 <= i < len
        ensures rows[i] >= needle
      {
        MulMonotone(0, i, multiplier);
      }
    }
  }
}
