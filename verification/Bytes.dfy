/** Bytes, and numbers laid out in memory low byte first. */
module Bytes {
  import opened Options

  type byte = x: int | 0 <= x < 256

  // Hexadecimal digits, written in lower case.

  function HexDigit(d: int): (c: byte)
    requires 0 <= d < 16
    ensures HexValue(c) == Some(d) && (48 <= c <= 57 || 97 <= c <= 102)
  {
    if d < 10 then 48 + d else 87 + d
  }

  /** c | 0x20 */
  function FoldCase(c: byte): byte {
    if c / 32 % 2 == 1 then c else c + 32
  }

  function HexValue(c: byte): (v: Option<int>)
    ensures v.Some? ==> 0 <= v.value < 16
  {
    if 48 <= c <= 57 then Some(c - 48)
    else if 97 <= FoldCase(c) <= 102 then Some(FoldCase(c) - 97 + 10)
    else None
  }

  // Numbers in memory.

  /** The low k bytes of n. */
  function LittleEndian(n: nat, k: nat): (r: seq<byte>)
    ensures |r| == k
  {
    if k == 0 then [] else [n % 256] + LittleEndian(n / 256, k - 1)
  }

  /** The number the bytes make. */
  function Number(s: seq<byte>): nat {
    if s == [] then 0 else s[0] + 256 * Number(s[1..])
  }

  function Pow256(k: nat): (p: nat)
    ensures p >= 1
  {
    if k == 0 then 1 else 256 * Pow256(k - 1)
  }

  lemma {:induction false} NumberOfBytes(n: nat, k: nat)
    requires n < Pow256(k)
    ensures Number(LittleEndian(n, k)) == n
  {
    if k > 0 {
      NumberOfBytes(n / 256, k - 1);
      assert LittleEndian(n, k)[1..] == LittleEndian(n / 256, k - 1);
    }
  }

}
