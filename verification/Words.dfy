/** Machine words as natural numbers: the bit operations the allocator and the codecs use. */
module Words {

  function Pow2(n: nat): (p: nat)
    ensures p >= 1
  {
    if n == 0 then 1 else 2 * Pow2(n - 1)
  }

  lemma {:induction false} Pow2Monotone(m: nat, n: nat)
    requires m <= n
    ensures Pow2(m) <= Pow2(n)
  {
    if m < n {
      Pow2Monotone(m, n - 1);
    }
  }

  lemma {:induction false} Pow2Adds(m: nat, n: nat)
    ensures Pow2(m + n) == Pow2(m) * Pow2(n)
  {
    if m > 0 {
      Pow2Adds(m - 1, n);
      assert 2 * (Pow2(m - 1) * Pow2(n)) == (2 * Pow2(m - 1)) * Pow2(n);
    }
  }

  lemma {:induction false} Pow2Byte(n: nat)
    ensures Pow2(n + 8) == 256 * Pow2(n)
  {
    assert Pow2(n + 4) == 2 * Pow2(n + 3) == 4 * Pow2(n + 2) == 8 * Pow2(n + 1) == 16 * Pow2(n);
    assert Pow2(n + 8) == 2 * Pow2(n + 7) == 4 * Pow2(n + 6) == 8 * Pow2(n + 5) == 16 * Pow2(n + 4);
  }

  /** The widths of a half word and a word. */
  lemma Pow2Words()
    ensures Pow2(8) == 0x100 && Pow2(16) == 0x1_0000 && Pow2(32) == 0x1_0000_0000
    ensures Pow2(64) == 0x1_0000_0000_0000_0000
  {
    Pow2Byte(0);
    Pow2Byte(8);
    Pow2Byte(16);
    Pow2Byte(24);
    Pow2Byte(32);
    Pow2Byte(40);
    Pow2Byte(48);
    Pow2Byte(56);
  }

  /** w & (1 << i) */
  predicate Bit(w: nat, i: nat)
  {
    if i == 0 then w % 2 == 1 else Bit(w / 2, i - 1)
  }

  /** w | (1 << i) */
  function SetBit(w: nat, i: nat): (v: nat)
  {
    if i == 0 then (if w % 2 == 1 then w else w + 1) else w % 2 + 2 * SetBit(w / 2, i - 1)
  }

  /** w & ~(1 << i) */
  function ClearBit(w: nat, i: nat): (v: nat)
  {
    if i == 0 then (if w % 2 == 1 then w - 1 else w) else w % 2 + 2 * ClearBit(w / 2, i - 1)
  }

  /** Setting a bit is adding its power of two, unless it is set already; clearing is the reverse. */
  lemma {:induction false} BitIsPower(w: nat, i: nat)
    ensures SetBit(w, i) == if Bit(w, i) then w else w + Pow2(i)
    ensures ClearBit(w, i) == if Bit(w, i) then w - Pow2(i) else w
  {
    if i > 0 {
      BitIsPower(w / 2, i - 1);
    }
  }

  lemma {:induction false} SetBitBits(w: nat, i: nat, j: nat)
    ensures Bit(SetBit(w, i), j) <==> i == j || Bit(w, j)
  {
    if i > 0 {
      var v := w % 2 + 2 * SetBit(w / 2, i - 1);
      assert v / 2 == SetBit(w / 2, i - 1) && v % 2 == w % 2;
      if j > 0 {
        SetBitBits(w / 2, i - 1, j - 1);
      }
    } else if j > 0 {
      assert SetBit(w, 0) / 2 == w / 2;
    }
  }

  lemma {:induction false} ClearBitBits(w: nat, i: nat, j: nat)
    ensures Bit(ClearBit(w, i), j) <==> i != j && Bit(w, j)
  {
    if i > 0 {
      var v := w % 2 + 2 * ClearBit(w / 2, i - 1);
      assert v / 2 == ClearBit(w / 2, i - 1) && v % 2 == w % 2;
      if j > 0 {
        ClearBitBits(w / 2, i - 1, j - 1);
      }
    } else if j > 0 {
      assert ClearBit(w, 0) / 2 == w / 2;
    }
  }

  lemma {:induction false} BitRange(w: nat, i: nat, n: nat)
    requires w < Pow2(n) && i < n
    ensures SetBit(w, i) < Pow2(n) && ClearBit(w, i) < Pow2(n)
  {
    if i > 0 {
      BitRange(w / 2, i - 1, n - 1);
    }
  }

  lemma {:induction false} OnesHaveBits(n: nat, i: nat)
    requires i < n
    ensures Bit(Pow2(n) - 1, i)
  {
    var w := Pow2(n) - 1;
    assert w / 2 == Pow2(n - 1) - 1 && w % 2 == 1;
    if i > 0 {
      OnesHaveBits(n - 1, i - 1);
    }
  }

  lemma {:induction false} MissingBit(w: nat, n: nat) returns (i: nat)
    requires w < Pow2(n) - 1
    ensures i < n && !Bit(w, i)
  {
    if w % 2 == 0 {
      i := 0;
    } else {
      i := MissingBit(w / 2, n - 1);
      i := i + 1;
    }
  }

  /** A word below 2^n has all n bits set exactly when it is 2^n - 1. */
  lemma AllOnes(w: nat, n: nat)
    requires w < Pow2(n)
    ensures (forall i: nat :: i < n ==> Bit(w, i)) <==> w == Pow2(n) - 1
  {
    if w == Pow2(n) - 1 {
      forall i: nat | i < n ensures Bit(w, i) {
        OnesHaveBits(n, i);
      }
    } else {
      var i := MissingBit(w, n);
    }
  }

  lemma {:induction false} SomeBit(w: nat, n: nat) returns (i: nat)
    requires 0 < w < Pow2(n)
    ensures i < n && Bit(w, i)
  {
    if w % 2 == 1 {
      i := 0;
    } else {
      i := SomeBit(w / 2, n - 1);
      i := i + 1;
    }
  }

  lemma {:induction false} NoBitsInZero(i: nat)
    ensures !Bit(0, i)
  {
    if i > 0 {
      NoBitsInZero(i - 1);
    }
  }

  lemma {:induction false} NoHighBits(w: nat, n: nat, i: nat)
    requires w < Pow2(n) && n <= i
    ensures !Bit(w, i)
  {
    if n == 0 {
      NoBitsInZero(i);
    } else {
      NoHighBits(w / 2, n - 1, i - 1);
    }
  }

  /** w >> m */
  function Shr(w: nat, m: nat): (v: nat)
  {
    if m == 0 then w else Shr(w / 2, m - 1)
  }

  /** The bits from m upwards are the bits of the upper part. */
  lemma {:induction false} HighBits(w: nat, m: nat, i: nat)
    ensures Bit(w, m + i) <==> Bit(Shr(w, m), i)
    ensures Shr(SetBit(w, m + i), m) == SetBit(Shr(w, m), i)
    ensures Shr(ClearBit(w, m + i), m) == ClearBit(Shr(w, m), i)
  {
    if m > 0 {
      HighBits(w / 2, m - 1, i);
      assert (w % 2 + 2 * SetBit(w / 2, m + i - 1)) / 2 == SetBit(w / 2, m + i - 1);
      assert (w % 2 + 2 * ClearBit(w / 2, m + i - 1)) / 2 == ClearBit(w / 2, m + i - 1);
    }
  }

  lemma SixteenDivides(i: nat)
    requires i >= 4
    ensures Pow2(i) % 16 == 0
  {}

  lemma AddSixteens(w: nat, p: nat)
    requires p % 16 == 0
    ensures (w + p) % 16 == w % 16
  {
  }

  /** Setting or clearing a higher bit leaves the low four bits alone. */
  lemma LowBitsKept(w: nat, i: nat)
    requires i >= 4
    ensures SetBit(w, i) % 16 == w % 16 && ClearBit(w, i) % 16 == w % 16
  {
    BitIsPower(w, i);
    SixteenDivides(i);
    AddSixteens(w, Pow2(i));
    AddSixteens(ClearBit(w, i), Pow2(i));
  }

  // Multiples of a size.

  lemma MultipleMod(z: nat, m: nat)
    requires z > 0
    ensures z * m % z == 0 && z * m / z == m
  {
    var q, r := z * m / z, z * m % z;
    assert z * m == z * q + r;
    assert (q + 1 <= m ==> z * (q + 1) <= z * m) && (m + 1 <= q ==> z * (m + 1) <= z * q);
  }

  lemma MultipleSum(z: nat, k: nat, h: nat, x: nat)
    requires z > 0 && x % z == 0
    ensures (k * z * h + x) % z == 0
  {
    var q := x / z;
    assert x == z * q;
    assert k * z * h + x == z * (k * h + q);
    MultipleMod(z, k * h + q);
  }

  lemma Quotients(z: nat, k: nat, x: nat)
    requires z > 0
    ensures x / z < k <==> x < k * z
    ensures x / z >= k ==> x >= k * z
    ensures x % z == 0 && x / z < k ==> x + z <= k * z
    ensures x % z == 0 ==> x == x / z * z
  {
    var q, r := x / z, x % z;
    assert x == z * q + r;
    assert (q + 1 <= k ==> z * (q + 1) <= z * k) && (k <= q ==> z * k <= z * q);
  }

  /** The lowest eight bits, one by one. */
  predicate LowBit(w: nat, i: nat)
  {
    match i
    case 0 => w % 2 == 1
    case 1 => w / 2 % 2 == 1
    case 2 => w / 4 % 2 == 1
    case 3 => w / 8 % 2 == 1
    case 4 => w / 16 % 2 == 1
    case 5 => w / 32 % 2 == 1
    case 6 => w / 64 % 2 == 1
    case _ => w / 128 % 2 == 1
  }

  lemma {:induction false} BitIsLow(w: nat, i: nat)
    requires i < 8
    ensures Bit(w, i) == LowBit(w, i)
  {
    if i > 0 {
      BitIsLow(w / 2, i - 1);
      HalvedLow(w, i);
    }
  }

  lemma HalvedLow(w: nat, i: nat)
    requires 0 < i < 8
    ensures LowBit(w, i) == LowBit(w / 2, i - 1)
  {
    assert w / 2 / 2 == w / 4 && w / 2 / 4 == w / 8 && w / 2 / 8 == w / 16;
    assert w / 2 / 16 == w / 32 && w / 2 / 32 == w / 64 && w / 2 / 64 == w / 128;
  }

  lemma BitIsHigher(w: nat, i: nat)
    requires i >= 8
    ensures Bit(w, i) == Bit(w / 256, i - 8)
  {
    assert Bit(w, i) == Bit(w / 2, i - 1) == Bit(w / 4, i - 2) == Bit(w / 8, i - 3) == Bit(w / 16, i - 4);
    assert Bit(w / 16, i - 4) == Bit(w / 32, i - 5) == Bit(w / 64, i - 6) == Bit(w / 128, i - 7) == Bit(w / 256, i - 8);
  }

  /** Adding a multiple of 2^n leaves the lowest n bits alone. */
  lemma {:induction false} BitOfSum(x: nat, b: nat, n: nat, i: nat)
    requires i < n
    ensures Bit(x * Pow2(n) + b, i) == Bit(b, i)
  {
    var y := x * Pow2(n - 1);
    assert x * Pow2(n) == 2 * y;
    if i > 0 {
      BitOfSum(x, b / 2, n - 1, i - 1);
      assert (2 * y + b) / 2 == y + b / 2;
    }
  }

  lemma LowBitOfByte(w: nat, i: nat)
    requires i < 8
    ensures LowBit(w, i) == LowBit(w % 256, i)
  {
    BitIsLow(w, i);
    BitIsLow(w % 256, i);
    Pow2Words();
    assert w == w / 256 * Pow2(8) + w % 256;
    BitOfSum(w / 256, w % 256, 8, i);
  }

  /** The bits of a 32-bit word, byte by byte. */
  lemma BitByByte(w: nat, i: nat)
    requires i < 32
    ensures Bit(w, i) ==
      if i < 8 then LowBit(w % 256, i)
      else if i < 16 then LowBit(w / 0x100 % 256, i - 8)
      else if i < 24 then LowBit(w / 0x1_0000 % 256, i - 16)
      else LowBit(w / 0x100_0000 % 256, i - 24)
  {
    if i < 8 {
      BitIsLow(w, i);
      LowBitOfByte(w, i);
    } else {
      BitIsHigher(w, i);
      if i < 16 {
        BitIsLow(w / 0x100, i - 8);
        LowBitOfByte(w / 0x100, i - 8);
      } else {
        BitIsHigher(w / 0x100, i - 8);
        if i < 24 {
          BitIsLow(w / 0x1_0000, i - 16);
          LowBitOfByte(w / 0x1_0000, i - 16);
        } else {
          BitIsHigher(w / 0x1_0000, i - 16);
          BitIsLow(w / 0x100_0000, i - 24);
          LowBitOfByte(w / 0x100_0000, i - 24);
        }
      }
    }
  }
}
