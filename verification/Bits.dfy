/** Two's-complement bit operations on unbounded integers, as C# computes them on `int`. */
module Bits {
  import Division

  newtype Byte = x: int | 0 <= x < 256

  function Pow2(k: nat): (p: nat)
    ensures p >= 1
  {
    if k == 0 then 1 else 2 * Pow2(k - 1)
  }

  function Shl(x: int, k: nat): int {
    x * Pow2(k)
  }

  // Arithmetic shift right: floor division, also for a negative x.
  function Shr(x: int, k: nat): int {
    x / Pow2(k)
  }

  // The unchecked cast (byte)x.
  function LowByte(x: int): Byte {
    (x % 256) as Byte
  }

  function Or(x: int, y: int): int
    decreases if x >= 0 then x else -x
  {
    if x == 0 then y
    else if y == 0 then x
    else if x == -1 || y == -1 then -1
    else 2 * Or(x / 2, y / 2) + (if x % 2 == 1 || y % 2 == 1 then 1 else 0)
  }

  function And(x: int, y: int): int
    decreases if x >= 0 then x else -x
  {
    if x == 0 || y == 0 then 0
    else if x == -1 then y
    else if y == -1 then x
    else 2 * And(x / 2, y / 2) + (if x % 2 == 1 && y % 2 == 1 then 1 else 0)
  }

  lemma {:induction false} OrCommutes(x: int, y: int)
    ensures Or(x, y) == Or(y, x)
    decreases if x >= 0 then x else -x
  {
    if x == 0 || y == 0 || x == -1 || y == -1 {
    } else {
      OrCommutes(x / 2, y / 2);
    }
  }

  // A word of ones absorbs in Or and is neutral in And.
  lemma AllOnes(x: int)
    ensures Or(x, -1) == Or(-1, x) == -1
    ensures And(x, -1) == And(-1, x) == x
  {
  }

  // Disjoint bits add up.
  lemma OrDisjoint(x: int, y: int, k: nat, p: int)
    requires p == Pow2(k) && 0 <= y < p
    ensures Or(x * p, y) == x * p + y
    ensures Or(y, x * p) == x * p + y
  {
    OrMultiple(x, x * p, y, k);
    OrCommutes(x * p, y);
  }

  lemma {:induction false} OrMultiple(x: int, a: int, y: int, k: nat)
    requires 0 <= y < Pow2(k) && a == x * Pow2(k)
    ensures Or(a, y) == a + y
    decreases k
  {
    if k == 0 {
    } else {
      var h := x * Pow2(k - 1);
      MulTwice(x, Pow2(k - 1));
      OrMultiple(x, h, y / 2, k - 1);
      OrDouble(h, y);
    }
  }

  lemma MulTwice(x: int, p: int)
    ensures x * (2 * p) == 2 * (x * p)
  {
  }

  lemma OrDouble(h: int, y: int)
    requires y >= 0 && Or(h, y / 2) == h + y / 2
    ensures Or(2 * h, y) == 2 * h + y
  {
  }

  // A mask of k low ones keeps the k low bits.
  lemma {:induction false} AndMask(x: int, k: nat, p: int)
    requires p == Pow2(k)
    ensures And(x, p - 1) == x % p
    decreases k
  {
    if k == 0 {
    } else {
      AndMask(x / 2, k - 1, p / 2);
      ModDouble(x, p / 2);
      assert (p - 1) / 2 == p / 2 - 1;
    }
  }

  lemma ModDouble(x: int, p: nat)
    requires p >= 1
    ensures x % (2 * p) == 2 * (x / 2 % p) + x % 2
  {
    var h := x / 2;
    var q, r := h / p, h % p;
    assert h == q * p + r;
    var t := 2 * r + x % 2;
    assert x == q * (2 * p) + t;
    Division.Unique(x, 2 * p, q, t);
  }

  // A mask of one bit tests that bit.
  lemma {:induction false} AndBit(x: int, k: nat)
    ensures And(x, Pow2(k)) == x / Pow2(k) % 2 * Pow2(k)
    decreases k
  {
    if k == 0 {
      AndMask(x, 1, 2);
    } else {
      AndBit(x / 2, k - 1);
      var p := Pow2(k - 1);
      DivDiv(x, p);
      assert Pow2(k) / 2 == p;
    }
  }

  lemma BitTest(x: int, k: nat, p: int)
    requires p == Pow2(k)
    ensures And(x, p) != 0 <==> x / p % 2 == 1
  {
    AndBit(x, k);
  }

  lemma DivDiv(x: int, p: nat)
    requires p >= 1
    ensures x / (2 * p) == x / 2 / p
  {
    var h := x / 2;
    var q, r := h / p, h % p;
    assert h == q * p + r;
    assert x == q * (2 * p) + (2 * r + x % 2);
    Division.Unique(x, 2 * p, q, 2 * r + x % 2);
  }

  // A shift as multiplication or division by a known power.
  lemma Shift(x: int, k: nat, p: int)
    requires p == Pow2(k)
    ensures Shl(x, k) == x * p && Shr(x, k) == x / p
  {
  }

  lemma OrShifted(x: int, k: nat, p: int, y: int)
    requires p == Pow2(k) && 0 <= y < p
    ensures Or(Shl(x, k), y) == x * p + y && Or(y, Shl(x, k)) == x * p + y
  {
    OrDisjoint(x, y, k, p);
  }

  lemma Powers()
    ensures Pow2(2) == 4 && Pow2(3) == 8 && Pow2(4) == 16 && Pow2(5) == 32 && Pow2(7) == 128
    ensures Pow2(8) == 256 && Pow2(16) == 65536 && Pow2(24) == 0x100_0000
  {
    assert Pow2(4) == 16;
    assert Pow2(8) == 256;
    assert Pow2(12) == 4096;
    assert Pow2(16) == 65536;
    assert Pow2(20) == 0x10_0000;
  }
}
