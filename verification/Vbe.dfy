/** The variable-byte length codec: seven data bits per byte, least significant
    group first, the high bit marking that another byte follows. */
module Vbe {
  import opened Bits
  import opened Bytes

  const MARK_OFFSET: nat := 7
  const MARK_MASK: byte := 0x80
  const DATA_MASK: byte := 0x7F

  /** The encoding as unsigned LEB128 (section 7.6 of DWARF 5) defines it. */
  function Encode(v: nat): (s: seq<byte>)
    ensures |s| >= 1
  {
    if v < 0x80 then [v] else [v % 0x80 + 0x80] + Encode(v / 0x80)
  }

  /** The number that a group of bytes stands for. */
  function Value(s: seq<byte>): nat {
    if s == [] then 0 else s[0] % 0x80 + 0x80 * Value(s[1..])
  }

  /** The encoded number that starts at `p` ends with the byte at `q`. */
  predicate IsRun(data: seq<byte>, p: nat, q: nat) {
    p <= q < |data| && data[q] < 0x80 && forall i :: p <= i < q ==> data[i] >= 0x80
  }

  method Write(data: seq<byte>, p: nat, v: nat) returns (out: seq<byte>, q: nat)
    requires p + |Encode(v)| <= |data|
    ensures out == Splice(data, p, Encode(v)) && q == p + |Encode(v)|
  {
    var valCopy: nat := v;
    out, q := data, p;
    while valCopy > DATA_MASK
      invariant p <= q && q + |Encode(valCopy)| == p + |Encode(v)| && |out| == |data|
      invariant Splice(out, q, Encode(valCopy)) == Splice(data, p, Encode(v))
      decreases valCopy
    {
      var marked := MarkedGroup(valCopy);
      SpliceCons(out, q, marked, Encode(valCopy / 0x80));
      out := out[q := marked];
      q := q + 1;
      valCopy := valCopy / 0x80;
    }
    SpliceOne(out, q, valCopy);
    out := out[q := valCopy];
    q := q + 1;
  }

  /** The low seven bits with the mark that more follow. */
  method MarkedGroup(v: nat) returns (b: byte)
    ensures b == v % 0x80 + 0x80
  {
    assert Pow2(7) == 0x80;
    AndLowMask(v, MARK_OFFSET);
    OrDisjoint(v % 0x80, 1, MARK_OFFSET);
    b := Or(And(v, DATA_MASK), MARK_MASK);
  }

  /** The unsigned type a number is read into. */
  datatype Target = Unsigned | SizeT {
    function Modulus(): nat {
      if Unsigned? then 0x1_0000_0000 else 0x1_0000_0000_0000_0000
    }
  }

  /** A 32-bit `int` pattern converted to the target: negative values carry their sign up. */
  function SignExtend(t: Target, pattern: nat): nat
    requires pattern < 0x1_0000_0000
  {
    if pattern < 0x8000_0000 then pattern else pattern - 0x1_0000_0000 + t.Modulus()
  }

  /** `b << offset` is computed in a 32-bit `int` and only then converted to the target. */
  function ShiftedByte(t: Target, b: byte, offset: nat): nat
    requires offset < 32
  {
    SignExtend(t, b * Pow2(offset) % 0x1_0000_0000)
  }

  /** What survives of a number of at most five groups. */
  function Narrow(t: Target, v: nat): nat {
    SignExtend(t, v % 0x1_0000_0000)
  }

  lemma NarrowExact(t: Target, v: nat)
    ensures v < 0x8000_0000 ==> Narrow(t, v) == v
    ensures v < 0x1_0000_0000 ==> Narrow(Unsigned, v) == v
    ensures v >= 0x8000_0000 && v < 0x8_0000_0000 ==> Narrow(SizeT, v) != v
  {}

  method Read(t: Target, data: seq<byte>, p: nat, ghost last: nat) returns (val: nat, q: nat)
    requires IsRun(data, p, last) && last - p <= 4
    ensures q == last + 1 && val == Narrow(t, Value(data[p..q]))
  {
    var offset := 0;
    val, q := 0, p;
    while And(data[q], MARK_MASK) != 0
      invariant p <= q <= last && offset == 7 * (q - p)
      invariant val == Value(data[p..q]) < Pow2(offset)
      decreases last - q
    {
      MarkBit(data[q]);
      NextGroup(t, data, p, q);
      val := Or(val, ShiftedByte(t, And(data[q], DATA_MASK), offset));
      q := q + 1;
      offset := offset + MARK_OFFSET;
    }
    MarkBit(data[q]);
    FinalGroup(t, data, p, q);
    val := Or(val, ShiftedByte(t, data[q], offset));
    q := q + 1;
  }

  lemma MarkBit(b: byte)
    ensures And(b, MARK_MASK) != 0 <==> b >= 0x80
    ensures And(b, DATA_MASK) == b % 0x80
  {
    assert Pow2(7) == 0x80;
    AndBit(b, MARK_OFFSET);
    AndLowMask(b, MARK_OFFSET);
  }

  lemma NextGroup(t: Target, data: seq<byte>, p: nat, q: nat)
    requires p <= q < |data| && q - p <= 3 && Value(data[p..q]) < Pow2(7 * (q - p))
    ensures Or(Value(data[p..q]), ShiftedByte(t, data[q] % 0x80, 7 * (q - p))) == Value(data[p..q + 1])
    ensures Value(data[p..q + 1]) < Pow2(7 * (q - p + 1))
  {
    ValueSnoc(data, p, q);
    EarlyGroup(t, Value(data[p..q]), data[q] % 0x80, q - p);
  }

  lemma FinalGroup(t: Target, data: seq<byte>, p: nat, q: nat)
    requires p <= q < |data| && q - p <= 4 && Value(data[p..q]) < Pow2(7 * (q - p)) && data[q] < 0x80
    ensures Or(Value(data[p..q]), ShiftedByte(t, data[q], 7 * (q - p))) == Narrow(t, Value(data[p..q + 1]))
  {
    ValueSnoc(data, p, q);
    var b := data[q] % 0x80;
    assert b == data[q];
    LastGroup(t, Value(data[p..q]), b, q - p);
  }

  lemma EarlyGroup(t: Target, val: nat, b: byte, k: nat)
    requires k <= 3 && val < Pow2(7 * k) && b < 0x80
    ensures Or(val, ShiftedByte(t, b, 7 * k)) == val + b * Pow2(7 * k) < Pow2(7 * (k + 1))
    ensures val + b * Pow2(7 * k) < 0x8000_0000
  {
    GroupFits(val, b, k);
    OrDisjoint(val, b, 7 * k);
    SmallShift(t, b, 7 * k);
  }

  lemma SmallShift(t: Target, b: byte, offset: nat)
    requires offset < 32 && b * Pow2(offset) < 0x8000_0000
    ensures ShiftedByte(t, b, offset) == b * Pow2(offset)
  {
    MulNat(b, Pow2(offset));
    SmallMod(b * Pow2(offset));
  }

  lemma SmallMod(x: nat)
    requires x < 0x1_0000_0000
    ensures x % 0x1_0000_0000 == x
  {}

  lemma GroupFits(val: nat, b: nat, k: nat)
    requires k <= 3 && val < Pow2(7 * k) && b < 0x80
    ensures b * Pow2(7 * k) < 0x1000_0000 && val + b * Pow2(7 * k) < 0x8000_0000
    ensures val + b * Pow2(7 * k) < Pow2(7 * (k + 1))
  {
    Pow2Values();
    assert Pow2(0) == 1;
    assert k == 0 || k == 1 || k == 2 || k == 3;
  }

  /** The final group may reach past bit 31: it is cut to 32 bits and sign-extended. */
  lemma LastGroup(t: Target, val: nat, b: byte, k: nat)
    requires k <= 4 && val < Pow2(7 * k) && b < 0x80
    ensures Or(val, ShiftedByte(t, b, 7 * k)) == Narrow(t, val + b * Pow2(7 * k))
  {
    if k <= 3 {
      EarlyGroup(t, val, b, k);
      NarrowExact(t, val + b * Pow2(7 * k));
    } else {
      assert Pow2(28) == 0x1000_0000 by { Pow2Values(); }
      FifthGroup(t, val, b);
    }
  }

  lemma FifthGroup(t: Target, val: nat, b: byte)
    requires val < 0x1000_0000 && b < 0x80
    ensures Or(val, SignExtend(t, b * 0x1000_0000 % 0x1_0000_0000)) == Narrow(t, val + b * 0x1000_0000)
  {
    CutTo32(b, 0);
    CutTo32(b, val);
    var low := b % 16;
    OrAt28(val, if low < 8 then low else low - 16 + t.Modulus() / 0x1000_0000);
  }

  lemma OrAt28(val: nat, high: nat)
    requires val < 0x1000_0000
    ensures Or(val, high * 0x1000_0000) == val + high * 0x1000_0000
  {
    Pow2Values();
    OrDisjoint(val, high, 28);
  }

  lemma CutTo32(b: byte, val: nat)
    requires val < 0x1000_0000
    ensures (val + b * 0x1000_0000) % 0x1_0000_0000 == val + b % 16 * 0x1000_0000
  {}

  lemma {:induction false} ValueSnoc(data: seq<byte>, p: nat, q: nat)
    requires p <= q < |data|
    ensures Value(data[p..q + 1]) == Value(data[p..q]) + data[q] % 0x80 * Pow2(7 * (q - p))
    decreases q - p
  {
    if p == q {
      assert data[p..q + 1] == [data[q]];
      assert Value([data[q]]) == data[q] % 0x80 + 0x80 * Value([]);
      assert Pow2(0) == 1;
    } else {
      ValueSnoc(data, p + 1, q);
      assert data[p..q + 1][1..] == data[p + 1..q + 1];
      assert data[p..q][1..] == data[p + 1..q];
      Pow2Values();
      Pow2Add(7, 7 * (q - p - 1));
      MulAssoc(data[q] % 0x80, Pow2(7 * (q - p - 1)));
    }
  }

  lemma MulAssoc(a: nat, b: nat)
    ensures a * (0x80 * b) == 0x80 * (a * b)
  {}

  /** Encoded numbers decode to themselves and end where the encoding says, whatever follows. */
  lemma {:induction false} EncodeRun(v: nat, data: seq<byte>, p: nat)
    requires p + |Encode(v)| <= |data| && data[p..p + |Encode(v)|] == Encode(v)
    ensures IsRun(data, p, p + |Encode(v)| - 1)
    ensures Value(Encode(v)) == v
    decreases v
  {
    var e := Encode(v);
    if v < 0x80 {
      assert data[p] == data[p..p + |e|][0] == v;
      assert e[1..] == [];
    } else {
      assert e[1..] == Encode(v / 0x80);
      assert data[p] == data[p..p + |e|][0];
      assert data[p + 1..p + |e|] == data[p..p + |e|][1..];
      EncodeRun(v / 0x80, data, p + 1);
    }
  }

  /** Byte i of the encoding holds bits 7i to 7i + 6 of the number, and the mark unless it is the last. */
  lemma {:induction false} EncodeByte(v: nat, i: nat)
    requires i < |Encode(v)|
    ensures Encode(v)[i] == v / Pow2(7 * i) % 0x80 + if i + 1 < |Encode(v)| then 0x80 else 0
  {
    if i > 0 {
      EncodeByte(v / 0x80, i - 1);
      Pow2Add(7, 7 * (i - 1));
      assert Pow2(7) == 0x80;
      DivDiv(v, 0x80, Pow2(7 * (i - 1)));
    } else {
      assert Pow2(0) == 1;
      DivOne(v);
    }
  }

  lemma DivOne(v: nat)
    ensures v / 1 == v
  {}

  /** Bytes the encoding needs: n bytes hold exactly the values below 2^(7n). */
  lemma {:induction false} EncodeLength(v: nat, n: nat)
    requires n >= 1
    ensures |Encode(v)| <= n <==> v < Pow2(7 * n)
    decreases v
  {
    Pow2Values();
    if n == 1 {
    } else {
      Pow2Add(7, 7 * (n - 1));
      if v >= 0x80 {
        EncodeLength(v / 0x80, n - 1);
        DivLess(v, Pow2(7 * (n - 1)));
      } else {
        assert Pow2(7 * n) >= 0x80;
      }
    }
  }

  lemma DivLess(v: nat, m: nat)
    ensures v / 0x80 < m <==> v < 0x80 * m
  {}

  function BitWidth(v: nat): nat {
    if v == 0 then 0 else 1 + BitWidth(v / 2)
  }

  /** The length formula used when the space a record needs is computed. */
  function Length(v: nat): int {
    if v == 0 then 1 else (BitWidth(v) - 1) / MARK_OFFSET + 1
  }

  lemma BitWidthShift(v: nat)
    requires v >= 0x80
    ensures BitWidth(v) == 7 + BitWidth(v / 0x80)
  {
    assert BitWidth(v) == 1 + BitWidth(v / 2);
    assert BitWidth(v / 2) == 1 + BitWidth(v / 4);
    assert BitWidth(v / 4) == 1 + BitWidth(v / 8);
    assert BitWidth(v / 8) == 1 + BitWidth(v / 16);
    assert BitWidth(v / 16) == 1 + BitWidth(v / 32);
    assert BitWidth(v / 32) == 1 + BitWidth(v / 64);
    assert BitWidth(v / 64) == 1 + BitWidth(v / 128);
  }

  lemma {:induction false} LengthIsWritten(v: nat)
    ensures Length(v) == |Encode(v)|
    decreases v
  {
    if v < 0x80 {
      EncodeLength(v, 1);
      BitWidthSmall(v);
    } else {
      LengthIsWritten(v / 0x80);
      BitWidthShift(v);
    }
  }

  lemma BitWidthSmall(v: nat)
    requires v < 0x80
    ensures BitWidth(v) <= 7
  {
    assert v / 2 / 2 / 2 / 2 / 2 / 2 / 2 == 0;
    assert BitWidth(v / 64) <= 1;
    assert BitWidth(v / 32) <= 2;
    assert BitWidth(v / 16) <= 3;
    assert BitWidth(v / 8) <= 4;
    assert BitWidth(v / 4) <= 5;
    assert BitWidth(v / 2) <= 6;
  }

  /** Writing then reading gives back the number and the end position: for a 32-bit
      target always, for a `size_t` target exactly when the number is below 2^31. */
  method RoundTrip(t: Target, data: seq<byte>, p: nat, v: nat) returns (out: seq<byte>, val: nat, q: nat)
    requires p + |Encode(v)| <= |data| && v < (if t.Unsigned? then 0x1_0000_0000 else 0x8_0000_0000)
    ensures out == Splice(data, p, Encode(v)) && q == p + Length(v)
    ensures val == v <==> t.Unsigned? || v < 0x8000_0000
  {
    Pow2Values();
    Pow2Add(28, 7);
    EncodeLength(v, 5);
    LengthIsWritten(v);
    var next;
    out, next := Write(data, p, v);
    EncodeRun(v, out, p);
    val, q := Read(t, out, p, next - 1);
    assert out[p..q] == Encode(v);
    NarrowExact(t, v);
  }
}
