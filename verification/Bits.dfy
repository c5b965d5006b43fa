/** Unsigned integer arithmetic as the C code uses it: powers of two, truncation
    and the bitwise operators, all on mathematical naturals. */
module Bits {

  const TWO_31: nat := 0x8000_0000
  const TWO_32: nat := 0x1_0000_0000
  const TWO_63: nat := 0x8000_0000_0000_0000
  const TWO_64: nat := 0x1_0000_0000_0000_0000

  function Max(a: nat, b: nat): nat {
    if a < b then b else a
  }

  function Pow2(n: nat): (p: nat)
    ensures p > 0
  {
    if n == 0 then 1 else 2 * Pow2(n - 1)
  }

  /** The C operator `|` on unsigned operands. */
  function BitOr(a: nat, b: nat): nat
  {
    if a == 0 && b == 0 then 0
    else (if a % 2 == 1 || b % 2 == 1 then 1 else 0) + 2 * BitOr(a / 2, b / 2)
  }

  /** The C operator `^` on unsigned operands. */
  function BitXor(a: nat, b: nat): nat
  {
    if a == 0 && b == 0 then 0
    else (if a % 2 != b % 2 then 1 else 0) + 2 * BitXor(a / 2, b / 2)
  }

  lemma {:induction false} Pow2Add(a: nat, b: nat)
    ensures Pow2(a + b) == Pow2(a) * Pow2(b)
  {
    if a > 0 {
      Pow2Add(a - 1, b);
      MulAssoc(2, Pow2(a - 1), Pow2(b));
    }
  }

  lemma MulAssoc(x: int, y: int, z: int)
    ensures (x * y) * z == x * (y * z)
  {
  }

  lemma Pow2Values()
    ensures Pow2(7) == 128 && Pow2(14) == 0x4000 && Pow2(21) == 0x20_0000 && Pow2(28) == 0x1000_0000
    ensures Pow2(31) == TWO_31 && Pow2(32) == TWO_32 && Pow2(63) == TWO_63 && Pow2(64) == TWO_64
  {
    assert Pow2(7) == 128;
    Pow2Add(7, 7);
    Pow2Add(14, 7);
    Pow2Add(21, 7);
    assert Pow2(3) == 8 && Pow2(4) == 16;
    Pow2Add(28, 3);
    Pow2Add(28, 4);
    Pow2Add(32, 31);
    Pow2Add(32, 32);
  }

  lemma {:induction false} Pow2Monotone(a: nat, b: nat)
    requires a <= b
    ensures Pow2(a) <= Pow2(b)
    decreases b - a
  {
    if a < b {
      Pow2Monotone(a + 1, b);
    }
  }

  lemma ShiftedDouble(q: nat, p: nat)
    ensures q * (2 * p) == 2 * (q * p)
  {
  }

  lemma {:induction false} OrZero(b: nat)
    ensures BitOr(0, b) == b
    decreases b
  {
    if b > 0 {
      OrZero(b / 2);
    }
  }

  lemma {:induction false} OrBelow(a: nat, b: nat, k: nat)
    requires a < Pow2(k) && b < Pow2(k)
    ensures BitOr(a, b) < Pow2(k)
    decreases k
  {
    if k > 0 {
      OrBelow(a / 2, b / 2, k - 1);
    }
  }

  lemma OrHalves(a: nat, h: nat)
    ensures BitOr(a, 2 * h) == a % 2 + 2 * BitOr(a / 2, h)
  {
    assert (2 * h) / 2 == h && (2 * h) % 2 == 0;
  }

  lemma XorHalves(a: nat, h: nat)
    ensures BitXor(a, 2 * h) == a % 2 + 2 * BitXor(a / 2, h)
  {
    assert (2 * h) / 2 == h && (2 * h) % 2 == 0;
  }

  /** Or-ing in a value shifted above every set bit is an addition. */
  lemma {:induction false} OrShifted(a: nat, q: nat, k: nat)
    requires a < Pow2(k)
    ensures BitOr(a, q * Pow2(k)) == a + q * Pow2(k)
    decreases k
  {
    if k == 0 {
      OrZero(q);
    } else {
      ShiftedDouble(q, Pow2(k - 1));
      OrHalves(a, q * Pow2(k - 1));
      OrShifted(a / 2, q, k - 1);
    }
  }

  lemma {:induction false} XorZero(b: nat)
    ensures BitXor(0, b) == b
    decreases b
  {
    if b > 0 {
      XorZero(b / 2);
    }
  }

  lemma {:induction false} XorShifted(a: nat, q: nat, k: nat)
    requires a < Pow2(k)
    ensures BitXor(a, q * Pow2(k)) == a + q * Pow2(k)
    decreases k
  {
    if k == 0 {
      XorZero(q);
    } else {
      ShiftedDouble(q, Pow2(k - 1));
      XorHalves(a, q * Pow2(k - 1));
      XorShifted(a / 2, q, k - 1);
    }
  }

  lemma MulDistrib(x: int, y: int, z: int)
    ensures (x + y) * z == x * z + y * z
    ensures (x - y) * z == x * z - y * z
  {
  }

  lemma MulGrows(x: nat, y: nat, z: nat)
    requires x <= y
    ensures x * z <= y * z && z * x <= z * y
  {
    MulDistrib(y, x, z);
    assert (y - x) * z >= 0;
  }

  lemma MulAtLeast(x: int, d: nat)
    requires x >= 1
    ensures x * d >= d
  {
  }

  lemma DivModUnique(x: int, d: nat, q: int, r: int)
    requires d > 0 && x == q * d + r && 0 <= r < d
    ensures x / d == q && x % d == r
  {
    var q1, r1 := x / d, x % d;
    assert x == q1 * d + r1;
    MulDistrib(q, q1, d);
    MulDistrib(q1, q, d);
    if q > q1 {
      MulAtLeast(q - q1, d);
    } else if q < q1 {
      MulAtLeast(q1 - q, d);
    }
  }

  /** Truncating a left shift to `n` bits drops the bits that leave the word. */
  lemma ShiftTruncated(g: nat, k: nat, n: nat)
    requires k <= n
    ensures (g * Pow2(k)) % Pow2(n) == (g % Pow2(n - k)) * Pow2(k)
    ensures (g % Pow2(n - k)) * Pow2(k) + Pow2(k) <= Pow2(n)
  {
    var d, p := Pow2(n - k), Pow2(k);
    Pow2Add(n - k, k);
    ShiftSplit(g, d, p);
    DivModUnique(g * p, d * p, g / d, (g % d) * p);
  }

  lemma ShiftSplit(g: nat, d: nat, p: nat)
    requires d > 0 && p > 0
    ensures g * p == (g / d) * (d * p) + (g % d) * p
    ensures 0 <= (g % d) * p && (g % d) * p + p <= d * p
  {
    var q, r := g / d, g % d;
    MulDistrib(q * d, r, p);
    MulAssoc(q, d, p);
    MulDistrib(d, r + 1, p);
    MulDistrib(r, 1, p);
    if d > r + 1 {
      MulAtLeast(d - (r + 1), p);
    }
  }

  /** Adding a multiple of the modulus changes nothing. */
  lemma AddMultiple(x: int, q: int, d: nat)
    requires d > 0
    ensures (x + q * d) % d == x % d
  {
    DivModUnique(x + q * d, d, x / d + q, x % d);
  }

  /** `a |= g << k` in an n-bit word whose bits from k upwards are clear. */
  lemma OrTruncated(a: nat, g: nat, k: nat, n: nat)
    requires a < Pow2(k) && k <= n
    ensures BitOr(a, (g * Pow2(k)) % Pow2(n)) == (a + g * Pow2(k)) % Pow2(n)
  {
    ShiftTruncated(g, k, n);
    OrShifted(a, g % Pow2(n - k), k);
    Pow2Add(n - k, k);
    TruncatedSum(a, g, Pow2(n - k), Pow2(k));
  }

  lemma TruncatedSum(a: nat, g: nat, d: nat, p: nat)
    requires d > 0 && a < p
    ensures d * p > 0 && (a + g * p) % (d * p) == a + (g % d) * p
  {
    ShiftSplit(g, d, p);
    MulAtLeast(d, p);
    DivModUnique(a + g * p, d * p, g / d, a + (g % d) * p);
  }
}
