/** Rows of codes as they cross: thirty-two bytes a row, eight to a code, in the
    machine's own byte order. */
module CodeRows {
  import opened Base
  import opened Payloads

  /** The `n` low base-256 digits of a number, lowest first. */
  function Digits(v: nat, n: nat): (bytes: seq<byte>)
    ensures |bytes| == n
  {
    if n == 0 then [] else [v % 256] + Digits(v / 256, n - 1)
  }

  /** The number whose digits, lowest first, these are. */
  function Number(bytes: seq<byte>): (v: nat) {
    if bytes == [] then 0
    else
      var low: int := bytes[0];
      low + 256 * Number(bytes[1..])
  }

  lemma {:induction false} DigitsReadBack(v: nat, n: nat)
    requires v < Pow2(8 * n)
    ensures Number(Digits(v, n)) == v
    decreases n
  {
    if n > 0 {
      assert Pow2(8 * n) == 256 * Pow2(8 * (n - 1)) by {
        PowerOfByte(8 * (n - 1));
      }
      DigitsReadBack(v / 256, n - 1);
      assert Digits(v, n)[1..] == Digits(v / 256, n - 1);
    }
  }

  lemma PowerOfByte(k: nat)
    ensures Pow2(k + 8) == 256 * Pow2(k)
  {
    assert Pow2(k + 8) == 2 * Pow2(k + 7) == 4 * Pow2(k + 6) == 8 * Pow2(k + 5) == 16 * Pow2(k + 4);
    assert Pow2(k + 4) == 2 * Pow2(k + 3) == 4 * Pow2(k + 2) == 8 * Pow2(k + 1) == 16 * Pow2(k);
  }

  function Reversed<T>(s: seq<T>): (r: seq<T>)
    ensures |r| == |s| && forall i :: 0 <= i < |s| ==> r[i] == s[|s| - 1 - i]
  {
    if s == [] then [] else Reversed(s[1..]) + [s[0]]
  }

  lemma ReversedTwice<T>(s: seq<T>)
    ensures Reversed(Reversed(s)) == s
  {
  }

  /** A code's eight bytes on a machine that puts the low byte first, or last. */
  function CodeBytes(code: u64, lowFirst: bool): (bytes: seq<byte>)
    ensures |bytes| == 8
  {
    if lowFirst then Digits(code, 8) else Reversed(Digits(code, 8))
  }

  function CodeOf(bytes: seq<byte>, lowFirst: bool): (code: nat) {
    Number(if lowFirst then bytes else Reversed(bytes))
  }

  /** A code reads back from its bytes in either order. */
  lemma CodeReadsBack(code: u64, lowFirst: bool)
    ensures CodeOf(CodeBytes(code, lowFirst), lowFirst) == code
  {
    WordBound(code);
    DigitsReadBack(code, 8);
    ReversedTwice(Digits(code, 8));
  }

  lemma WordBound(code: u64)
    ensures code < Pow2(8 * 8)
  {
    assert Pow2(64) == 256 * Pow2(56) by { PowerOfByte(56); }
    assert Pow2(56) == 256 * Pow2(48) by { PowerOfByte(48); }
    assert Pow2(48) == 256 * Pow2(40) by { PowerOfByte(40); }
    assert Pow2(40) == 256 * Pow2(32) by { PowerOfByte(32); }
    assert Pow2(32) == 256 * Pow2(24) by { PowerOfByte(24); }
    assert Pow2(24) == 256 * Pow2(16) by { PowerOfByte(16); }
    assert Pow2(16) == 256 * Pow2(8) by { PowerOfByte(8); }
    assert Pow2(8) == 256 * Pow2(0) by { PowerOfByte(0); }
  }

  const ROW_BYTES: nat := 32

  /** A row's bytes: its codes in column order. */
  function RowBytes(row: Quad<u64>, lowFirst: bool): (bytes: seq<byte>)
    ensures |bytes| == ROW_BYTES
  {
    CodeBytes(row.s, lowFirst) + CodeBytes(row.p, lowFirst) + CodeBytes(row.o, lowFirst) + CodeBytes(row.g, lowFirst)
  }

  function RowOf(bytes: seq<byte>, lowFirst: bool): (row: Quad<nat>)
    requires |bytes| == ROW_BYTES
  {
    Quad(CodeOf(bytes[..8], lowFirst), CodeOf(bytes[8..16], lowFirst), CodeOf(bytes[16..24], lowFirst), CodeOf(bytes[24..], lowFirst))
  }

  /** A row reads back from its bytes. */
  lemma RowReadsBack(row: Quad<u64>, lowFirst: bool)
    ensures RowOf(RowBytes(row, lowFirst), lowFirst) == row
  {
    hide CodeBytes, CodeOf;
    var bytes := RowBytes(row, lowFirst);
    assert bytes[..8] == CodeBytes(row.s, lowFirst) && bytes[8..16] == CodeBytes(row.p, lowFirst);
    assert bytes[16..24] == CodeBytes(row.o, lowFirst) && bytes[24..] == CodeBytes(row.g, lowFirst);
    CodeReadsBack(row.s, lowFirst);
    CodeReadsBack(row.p, lowFirst);
    CodeReadsBack(row.o, lowFirst);
    CodeReadsBack(row.g, lowFirst);
  }

  /** The bytes of rows, one run of them a row. */
  function AllBytes(rows: seq<Quad<u64>>, lowFirst: bool): (bytes: seq<seq<byte>>)
    ensures |bytes| == |rows| && forall i :: 0 <= i < |rows| ==> bytes[i] == RowBytes(rows[i], lowFirst)
  {
    seq(|rows|, i requires 0 <= i < |rows| => RowBytes(rows[i], lowFirst))
  }

  /** Rows of the same bytes are the same rows. */
  lemma BytesTellRowsApart(a: seq<Quad<u64>>, b: seq<Quad<u64>>, lowFirst: bool)
    ensures AllBytes(a, lowFirst) == AllBytes(b, lowFirst) <==> a == b
  {
    hide RowBytes, RowOf;
    if AllBytes(a, lowFirst) == AllBytes(b, lowFirst) {
      forall i | 0 <= i < |a|
        ensures a[i] == b[i]
      {
        RowReadsBack(a[i], lowFirst);
        RowReadsBack(b[i], lowFirst);
        assert AllBytes(a, lowFirst)[i] == AllBytes(b, lowFirst)[i];
      }
    }
  }
}
