/** Machine words as natural numbers: powers of two, bitwise `&` and `|`,
    and the closed forms of the mask-and-shift expressions that the directory,
    the length codec and the base64url codec are written with. */
module Bits {

  type byte = x: int | 0 <= x < 0x100

  /** 32-bit hash codes. */
  type Hash = x: int | 0 <= x < 0x1_0000_0000
  const HASH_BITS: nat := 32

  function Pow2(n: nat): (p: nat)
    ensures p > 0
  {
    if n == 0 then 1 else 2 * Pow2(n - 1)
  }

  function And(a: nat, b: nat): nat {
    if a == 0 || b == 0 then 0
    else (if a % 2 == 1 && b % 2 == 1 then 1 else 0) + 2 * And(a / 2, b / 2)
  }

  function Or(a: nat, b: nat): nat {
    if a == 0 && b == 0 then 0
    else (if a % 2 == 1 || b % 2 == 1 then 1 else 0) + 2 * Or(a / 2, b / 2)
  }

  lemma MulBounds(e: int, d: int)
    requires d > 0
    ensures e >= 1 ==> e * d >= d
    ensures e <= -1 ==> e * d <= -d
  {}

  lemma QuotientUnique(x: int, d: int, q: int, r: int)
    requires 0 <= r < d && x == q * d + r
    ensures x / d == q && x % d == r
  {
    var e := x / d - q;
    assert e * d == r - x % d;
    MulBounds(e, d);
  }

  lemma DivNat(x: nat, a: nat)
    requires a > 0
    ensures x / a >= 0
  {}

  lemma MulMonotone(p: nat, q: nat, a: nat)
    ensures p <= q ==> p * a <= q * a
  {}

  lemma MulPositive(a: nat, b: nat)
    requires a > 0 && b > 0
    ensures a * b > 0
  {}

  /** Dividing twice is dividing by the product. */
  lemma DivDiv(x: nat, a: nat, b: nat)
    requires a > 0 && b > 0
    ensures a * b > 0 && x / a / b == x / (a * b)
  {
    MulPositive(a, b);
    var q, r := x / a / b, (x / a) % b;
    assert x == a * (q * b + r) + x % a;
    assert a * (q * b + r) == q * (a * b) + a * r;
    assert a * r <= a * (b - 1);
    assert a * (b - 1) == a * b - a;
    QuotientUnique(x, a * b, q, a * r + x % a);
  }

  lemma {:induction false} Pow2Add(a: nat, b: nat)
    ensures Pow2(a + b) == Pow2(a) * Pow2(b)
  {
    if a > 0 {
      Pow2Add(a - 1, b);
      assert a + b - 1 == (a - 1) + b;
    }
  }

  lemma {:induction false} Pow2Monotone(a: nat, b: nat)
    requires a <= b
    ensures Pow2(a) <= Pow2(b)
    decreases b
  {
    if a < b { Pow2Monotone(a, b - 1); }
  }

  lemma Pow2Values()
    ensures Pow2(7) == 0x80 && Pow2(8) == 0x100 && Pow2(14) == 0x4000 && Pow2(21) == 0x20_0000
    ensures Pow2(28) == 0x1000_0000 && Pow2(31) == 0x8000_0000 && Pow2(32) == 0x1_0000_0000
  {
    assert Pow2(4) == 16;
    Pow2Add(4, 3); Pow2Add(4, 4); Pow2Add(7, 7); Pow2Add(14, 7); Pow2Add(14, 14); Pow2Add(28, 3); Pow2Add(28, 4);
  }

  lemma Pow2Halves(s: nat, x: nat)
    requires s > 0
    ensures x / Pow2(s) == x / 2 / Pow2(s - 1)
  {
    DivDiv(x, 2, Pow2(s - 1));
  }

  lemma ModStep(x: nat, m: nat)
    requires m > 0
    ensures x % (2 * m) == x % 2 + 2 * (x / 2 % m)
  {
    assert x / 2 == (x / 2 / m) * m + x / 2 % m;
    assert 2 * ((x / 2 / m) * m) == (x / 2 / m) * (2 * m);
    QuotientUnique(x, 2 * m, x / 2 / m, 2 * (x / 2 % m) + x % 2);
  }

  /** Masking with n ones keeps the value modulo 2^n. */
  lemma {:induction false} AndLowMask(x: nat, n: nat)
    ensures And(x, Pow2(n) - 1) == x % Pow2(n)
    decreases n
  {
    if n == 0 {
      assert x % 1 == 0;
    } else {
      var m := Pow2(n - 1) - 1;
      AndLowMask(x / 2, n - 1);
      AndOdd(x, m);
      ModStep(x, m + 1);
    }
  }

  lemma AndOdd(x: nat, m: nat)
    ensures And(x, 2 * m + 1) == x % 2 + 2 * And(x / 2, m)
  {
    assert (2 * m + 1) / 2 == m;
  }

  lemma AndEven(x: nat, m: nat)
    ensures And(x, 2 * m) == 2 * And(x / 2, m)
  {}

  lemma MulNat(a: nat, b: nat)
    ensures a * b >= 0
  {}

  /** n ones placed at bit s. */
  function FieldMask(n: nat, s: nat): nat {
    MulNat(Pow2(n) - 1, Pow2(s));
    (Pow2(n) - 1) * Pow2(s)
  }

  /** Masking with n ones placed at bit s extracts that field, still in place. */
  lemma {:induction false} AndField(x: nat, n: nat, s: nat)
    ensures And(x, FieldMask(n, s)) == x / Pow2(s) % Pow2(n) * Pow2(s)
    decreases s
  {
    if s == 0 {
      AndLowMask(x, n);
      assert x / 1 == x;
    } else {
      var f := x / 2 / Pow2(s - 1) % Pow2(n);
      DoubleMul(Pow2(n) - 1, Pow2(s - 1));
      assert FieldMask(n, s) == 2 * FieldMask(n, s - 1);
      AndEven(x, FieldMask(n, s - 1));
      AndField(x / 2, n, s - 1);
      Pow2Halves(s, x);
      DoubleMul(f, Pow2(s - 1));
    }
  }

  lemma DoubleMul(a: nat, p: nat)
    ensures a * (2 * p) == 2 * (a * p)
  {}

  /** Testing a single bit. */
  lemma AndBit(x: nat, s: nat)
    ensures And(x, Pow2(s)) != 0 <==> x / Pow2(s) % 2 == 1
  {
    AndField(x, 1, s);
    assert Pow2(1) == 2 && FieldMask(1, s) == Pow2(s);
  }

  lemma OrZero(a: nat)
    ensures Or(a, 0) == a && Or(0, a) == a
  {}

  /** Or of numbers with no common bit position is their sum. */
  lemma {:induction false} OrDisjoint(low: nat, high: nat, s: nat)
    requires low < Pow2(s)
    ensures Or(low, high * Pow2(s)) == low + high * Pow2(s)
    ensures Or(high * Pow2(s), low) == low + high * Pow2(s)
    decreases s
  {
    if s == 0 {
      OrZero(high);
    } else {
      var t := high * Pow2(s - 1);
      assert high * Pow2(s) == 2 * t;
      OrDisjoint(low / 2, high, s - 1);
    }
  }

  lemma OrBitEven(a: nat)
    ensures Or(a, 1) == 2 * (a / 2) + 1
  {
    OrZero(a / 2);
  }

  /** Setting bit s: the part above it keeps its value and the bit becomes one. */
  lemma {:induction false} OrBitTop(x: nat, s: nat)
    ensures Or(x, Pow2(s)) / Pow2(s) == 2 * (x / Pow2(s) / 2) + 1
    ensures Or(x, Pow2(s)) % Pow2(s) == x % Pow2(s)
    decreases s
  {
    if s == 0 {
      OrBitEven(x);
      assert x / 1 == x && (2 * (x / 2) + 1) / 1 == 2 * (x / 2) + 1;
    } else {
      var y := Or(x / 2, Pow2(s - 1));
      assert Or(x, Pow2(s)) == x % 2 + 2 * y;
      OrBitTop(x / 2, s - 1);
      Pow2Halves(s, x);
      Pow2Halves(s, x % 2 + 2 * y);
      ModStep(x % 2 + 2 * y, Pow2(s - 1));
      ModStep(x, Pow2(s - 1));
    }
  }
}
