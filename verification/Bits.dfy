/**
 Unsigned machine arithmetic on naturals. A C shift of an unsigned value is a multiplication or a division
 by a power of two, reduced to the width of the type; the bitwise operators are defined bit by bit.
 */
module Bits {

  const TWO_31: nat := 0x8000_0000
  const TWO_32: nat := 0x1_0000_0000
  const TWO_63: nat := 0x8000_0000_0000_0000
  const TWO_64: nat := 0x1_0000_0000_0000_0000

  function Pow2(k: nat): (p: nat)
    ensures p > 0
  {
    if k == 0 then 1 else 2 * Pow2(k - 1)
  }

  lemma {:induction false} Pow2Adds(j: nat, k: nat)
    ensures Pow2(j + k) == Pow2(j) * Pow2(k)
  {
    if j > 0 {
      Pow2Adds(j - 1, k);
      assert Pow2(j + k) == 2 * Pow2(j - 1 + k);
      MulAssociates(2, Pow2(j - 1), Pow2(k));
    }
  }

  lemma MulAssociates(a: int, b: int, c: int)
    ensures a * (b * c) == (a * b) * c
  {}

  lemma DivModUnique(a: nat, q: nat, r: nat, m: nat)
    requires a == q * m + r && r < m
    ensures a / m == q && a % m == r
  {
    MulBound(a / m - q, m);
    assert (a / m - q) * m == r - a % m;
  }

  lemma MulBound(d: int, m: nat)
    ensures d >= 1 ==> d * m >= m
    ensures d <= -1 ==> d * m <= -(m as int)
  {}

  lemma MulMonotone(a: nat, b: nat, c: nat)
    requires a <= b
    ensures a * c <= b * c
  {}

  lemma {:induction false} Pow2Monotone(j: nat, k: nat)
    requires j <= k
    ensures Pow2(j) <= Pow2(k)
    decreases k
  {
    if j < k {
      Pow2Monotone(j, k - 1);
    }
  }

  lemma Pow2Plus16(k: nat)
    ensures Pow2(k + 16) == 0x1_0000 * Pow2(k)
  {
    assert Pow2(8) == 256;
    Pow2Adds(k, 8);
    Pow2Adds(k + 8, 8);
  }

  lemma PowersOf(n: nat)
    requires n == 32
    ensures Pow2(n) == TWO_32 && Pow2(n + n) == TWO_64
  {
    Pow2Plus16(0);
    Pow2Plus16(16);
    Pow2Adds(n, n);
  }

  lemma Powers()
    ensures Pow2(7) == 128 && Pow2(8) == 256 && Pow2(32) == TWO_32 && Pow2(64) == TWO_64
  {
    PowersOf(32);
  }

  function Bit(x: nat, k: nat): bool
  {
    if k == 0 then x % 2 == 1 else Bit(x / 2, k - 1)
  }

  function BitValue(b: bool): nat
  {
    if b then 1 else 0
  }

  /** C's `a | b` on unsigned operands. */
  function Or(a: nat, b: nat): nat
    decreases a + b
  {
    if a == 0 && b == 0 then 0
    else BitValue(a % 2 == 1 || b % 2 == 1) + 2 * Or(a / 2, b / 2)
  }

  /** C's `a ^ b` on unsigned operands. */
  function Xor(a: nat, b: nat): nat
    decreases a + b
  {
    if a == 0 && b == 0 then 0
    else BitValue((a % 2 == 1) != (b % 2 == 1)) + 2 * Xor(a / 2, b / 2)
  }

  lemma {:induction false} OrZero(b: nat)
    ensures Or(0, b) == b && Xor(0, b) == b
  {
    if b > 0 {
      OrZero(b / 2);
    }
  }

  /** `a | b << k`, before it is cut to the width of the type. */
  function OrAt(a: nat, b: nat, k: nat): nat
  {
    if k == 0 then Or(a, b) else a % 2 + 2 * OrAt(a / 2, b, k - 1)
  }

  /** `b << k`, before it is cut to the width of the type. */
  function Shl(b: nat, k: nat): nat
  {
    if k == 0 then b else 2 * Shl(b, k - 1)
  }

  lemma {:induction false} ShlIsProduct(b: nat, k: nat)
    ensures Shl(b, k) == b * Pow2(k)
  {
    if k > 0 {
      ShlIsProduct(b, k - 1);
      MulAssociates(b, 2, Pow2(k - 1));
      MulAssociates(2, b, Pow2(k - 1));
    }
  }

  lemma {:induction false} ShlAdds(a: nat, b: nat, k: nat)
    ensures Shl(a + b, k) == Shl(a, k) + Shl(b, k)
    ensures Shl(128 * b, k) == Shl(b, k + 7)
    ensures a < 128 ==> Pow2(k) + Shl(a, k) <= Pow2(k + 7)
  {
    if k > 0 {
      ShlAdds(a, b, k - 1);
    } else {
      assert Shl(b, 1) == 2 * b;
      assert Shl(b, 2) == 4 * b;
      assert Shl(b, 3) == 8 * b;
      assert Shl(b, 4) == 16 * b;
      assert Shl(b, 5) == 32 * b;
      assert Shl(b, 6) == 64 * b;
      assert Pow2(7) == 128;
    }
  }

  /** Operands that share no bit: `|` is the sum. */
  lemma {:induction false} OrAtDisjoint(a: nat, b: nat, k: nat)
    requires a < Pow2(k)
    ensures OrAt(a, b, k) == a + Shl(b, k)
  {
    if k == 0 {
      OrZero(b);
    } else {
      OrAtDisjoint(a / 2, b, k - 1);
    }
  }

  lemma {:induction false} OrBits(a: nat, b: nat, k: nat)
    ensures Bit(Or(a, b), k) == (Bit(a, k) || Bit(b, k))
    decreases k
  {
    if a == 0 && b == 0 {
      ZeroBits(k);
    } else if k > 0 {
      OrBits(a / 2, b / 2, k - 1);
    }
  }

  lemma {:induction false} ZeroBits(k: nat)
    ensures !Bit(0, k)
  {
    if k > 0 {
      ZeroBits(k - 1);
    }
  }

  lemma {:induction false} Pow2Bits(j: nat, k: nat)
    ensures Bit(Pow2(j), k) == (j == k)
  {
    if j == 0 {
      if k > 0 { ZeroBits(k - 1); }
    } else if k > 0 {
      Pow2Bits(j - 1, k - 1);
    }
  }

  lemma {:induction false} OrBounded(a: nat, b: nat, n: nat)
    requires a < Pow2(n) && b < Pow2(n)
    ensures Or(a, b) < Pow2(n)
    decreases n
  {
    if n > 0 {
      OrBounded(a / 2, b / 2, n - 1);
    }
  }

  predicate BitsBelow(x: nat, n: nat)
  {
    forall k :: 0 <= k < n ==> Bit(x, k)
  }

  /** A word below 2^n is all ones exactly when each of its n bits is set. */
  lemma {:induction false} AllOnes(x: nat, n: nat)
    requires x < Pow2(n)
    ensures x == Pow2(n) - 1 <==> BitsBelow(x, n)
  {
    if n > 0 {
      AllOnes(x / 2, n - 1);
      assert x == Pow2(n) - 1 <==> x % 2 == 1 && x / 2 == Pow2(n - 1) - 1;
      if x % 2 == 1 && BitsBelow(x / 2, n - 1) {
        forall k | 0 <= k < n ensures Bit(x, k) {
          if k > 0 { var j := k - 1; assert Bit(x / 2, j); }
        }
      }
      if BitsBelow(x, n) {
        forall j | 0 <= j < n - 1 ensures Bit(x / 2, j) {
          assert Bit(x, j + 1);
        }
        assert Bit(x, 0);
      }
    }
  }
}
