/** Hash prefixes: the leading bits by which the directory routes. */
module Prefixes {
  import opened Bits

  /** The leading `d` bits of a hash. */
  function Top(x: Hash, d: nat): nat
    requires d <= HASH_BITS
  {
    DivNat(x, Pow2(HASH_BITS - d));
    x / Pow2(HASH_BITS - d)
  }

  lemma DivBound(x: nat, a: nat, b: nat)
    requires a > 0 && x < a * b
    ensures x / a < b
  {
    DivNat(x, a);
    assert (x / a) * a <= x;
    MulMonotone(b, x / a, a);
  }

  lemma TopBound(x: Hash, d: nat)
    requires d <= HASH_BITS
    ensures Top(x, d) < Pow2(d)
  {
    Pow2Values();
    Pow2Add(HASH_BITS - d, d);
    DivBound(x, Pow2(HASH_BITS - d), Pow2(d));
  }

  /** A shorter prefix is what is left of a longer one. */
  lemma TopNested(x: Hash, d: nat, e: nat)
    requires d <= e <= HASH_BITS
    ensures Top(x, e) / Pow2(e - d) == Top(x, d)
  {
    Pow2Add(HASH_BITS - e, e - d);
    DivDiv(x, Pow2(HASH_BITS - e), Pow2(e - d));
  }

  /** One more bit. */
  lemma TopStep(x: Hash, d: nat)
    requires d < HASH_BITS
    ensures Top(x, d + 1) / 2 == Top(x, d)
  {
    TopNested(x, d, d + 1);
    assert Pow2(1) == 2;
  }

  /** Setting the last bit of a prefix. */
  lemma TopSet(x: Hash, d: nat)
    requires 0 < d <= HASH_BITS
    ensures Or(x, Pow2(HASH_BITS - d)) < 0x1_0000_0000
    ensures Top(Or(x, Pow2(HASH_BITS - d)), d) == 2 * (Top(x, d) / 2) + 1
  {
    var s := HASH_BITS - d;
    var y, q := Or(x, Pow2(s)), Top(x, d);
    OrBitTop(x, s);
    TopBound(x, d);
    OddBelow(q, Pow2(d - 1));
    BelowPower(y, d, s);
  }

  lemma OddBelow(q: nat, p: nat)
    requires q < 2 * p
    ensures 2 * (q / 2) + 1 < 2 * p
  {}

  lemma BelowPower(y: nat, d: nat, s: nat)
    requires d + s == HASH_BITS && y / Pow2(s) < Pow2(d)
    ensures y < 0x1_0000_0000
  {
    Pow2Values();
    Pow2Add(d, s);
    BelowProduct(y, Pow2(s), Pow2(d));
  }

  lemma BelowProduct(y: nat, a: nat, b: nat)
    requires a > 0 && y / a < b
    ensures y < b * a
  {
    assert y == (y / a) * a + y % a;
    DivNat(y, a);
    MulMonotone(y / a + 1, b, a);
  }

  /** The hash with a given prefix and zeros behind it. */
  lemma TopOnto(q: nat, d: nat)
    requires d <= HASH_BITS && q < Pow2(d)
    ensures 0 <= q * Pow2(HASH_BITS - d) < 0x1_0000_0000
    ensures Top(q * Pow2(HASH_BITS - d), d) == q
  {
    var a := Pow2(HASH_BITS - d);
    Pow2Values();
    Pow2Add(d, HASH_BITS - d);
    MulMonotone(q + 1, Pow2(d), a);
    MulNat(q, a);
    assert (q + 1) * a == q * a + a;
    QuotientUnique(q * a, a, q, 0);
  }
}
