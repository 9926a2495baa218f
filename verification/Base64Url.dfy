/** base64url without padding (section 5 of RFC 4648) as the server computes it: a 32-bit `int`
    accumulator into which bytes or digits are shifted and which is never masked. */
module Base64Url {
  import opened Bits

  // ------------------------------------------------------------------ the alphabet

  function Char64(v: nat): byte
    requires v < 64
  {
    if v < 26 then 65 + v
    else if v < 52 then 97 + v - 26
    else if v < 62 then 48 + v - 52
    else if v == 62 then 45 else 95
  }

  /** The value of a character, or -1. */
  function Digit(b: byte): (d: int)
    ensures -1 <= d < 64
  {
    if 65 <= b <= 90 then b - 65 else if 97 <= b <= 122 then b - 97 + 26 else if 48 <= b <= 57 then b - 48 + 52
    else if b == 45 then 62 else if b == 95 then 63 else -1
  }

  const PAD: byte := '=' as int

  /** The alphabet as section 5 of RFC 4648 lists it. */
  const ALPHABET: string := "ABCDEFGHIJKLMNOPQRSTUVWXYZ" + "abcdefghijklmnopqrstuvwxyz" + "0123456789-_"

  /** Character v of the alphabet, counted from 0, stands for v. */
  lemma AlphabetAt(v: nat)
    requires v < 64
    ensures |ALPHABET| == 64 && Char64(v) == ALPHABET[v] as int
  {
    Uppercase(v);
    Lowercase(v);
    DigitsAndSigns(v);
  }

  lemma Uppercase(v: nat)
    requires v < 64
    ensures v < 26 ==> Char64(v) == ALPHABET[v] as int
  {}

  lemma Lowercase(v: nat)
    requires v < 64
    ensures 26 <= v < 52 ==> Char64(v) == ALPHABET[v] as int
  {}

  lemma DigitsAndSigns(v: nat)
    requires v < 64
    ensures 52 <= v ==> Char64(v) == ALPHABET[v] as int
  {}

  /** A character has the value v exactly if it is character v of the alphabet, and none if it is not in it. */
  lemma DigitOfAlphabet(b: byte)
    ensures |ALPHABET| == 64 && forall v :: 0 <= v < 64 ==> (Digit(b) == v <==> ALPHABET[v] as int == b)
  {
    forall v | 0 <= v < 64
      ensures Digit(b) == v <==> ALPHABET[v] as int == b
    {
      AlphabetAt(v);
    }
  }

  /** The decode table is the inverse of the alphabet. */
  method MakeDecodeTable() returns (table: array<int>)
    ensures table.Length == 256 && forall b: byte :: table[b] == Digit(b)
  {
    table := new int[256](_ => -1);
    for i := 0 to 64
      invariant forall b: byte :: table[b] == if Digit(b) < i then Digit(b) else -1
    {
      table[Char64(i)] := i;
    }
  }

  // ------------------------------------------------------- 32-bit int arithmetic on bit patterns

  function Shl(v: nat, k: nat): nat {
    v * Pow2(k) % 0x1_0000_0000
  }

  /** Arithmetic shift right. */
  function Sar(v: nat, k: nat): int
    requires v < 0x1_0000_0000
  {
    if v < 0x8000_0000 then v / Pow2(k) else (v - 0x1_0000_0000) / Pow2(k) + 0x1_0000_0000
  }

  lemma ModMod(x: nat, a: nat, b: nat)
    requires a > 0 && b > 0
    ensures a * b > 0 && x % (a * b) % a == x % a
  {
    MulPositive(a, b);
    var q := x / (a * b);
    assert x == (a * b) * q + x % (a * b);
    assert (a * b) * q == (b * q) * a;
    var y := x % (a * b);
    assert x == (b * q + y / a) * a + y % a;
    QuotientUnique(x, a, b * q + y / a, y % a);
  }

  lemma MulMod(y: nat, a: nat, k: nat, c: nat)
    requires a > 0 && c < k
    ensures a * k > 0 && (y * k + c) % (a * k) == (y % a) * k + c
  {
    MulPositive(a, k);
    var q, r := y / a, y % a;
    assert y * k == (q * a + r) * k == q * (a * k) + r * k;
    MulLess(r, a, k);
    QuotientUnique(y * k + c, a * k, q, r * k + c);
  }

  lemma MulLess(r: nat, a: nat, k: nat)
    requires r < a
    ensures r * k + k <= a * k
  {
    assert (r + 1) * k <= a * k;
  }

  lemma DivMod(v: nat, a: nat, b: nat)
    requires a > 0 && b > 0
    ensures a * b > 0 && v / a >= 0 && v / a % b == v % (a * b) / a
  {
    DivDiv(v, a, b);
    var q := v / a;
    assert v == (q / b * b + q % b) * a + v % a;
    assert (q / b * b) * a == (q / b) * (a * b);
    MulLess(q % b, b, a);
    QuotientUnique(v, a * b, q / b, (q % b) * a + v % a);
    QuotientUnique((q % b) * a + v % a, a, q % b, v % a);
  }

  /** Shifting a value by k bits and adding k new ones: what is pending grows by them, although the
      upper bits are lost. */
  lemma Push(val: nat, bits: nat, k: nat, c: nat)
    requires val < 0x1_0000_0000 && k <= 8 && bits <= 8 && c < Pow2(k)
    ensures Or(Shl(val, k), c) < 0x1_0000_0000
    ensures Or(Shl(val, k), c) % Pow2(bits + k) == (val % Pow2(bits)) * Pow2(k) + c
  {
    Pow2Values();
    Pow2Add(32 - k, k);
    MulMod(val, Pow2(32 - k), Pow2(k), 0);
    var y := val % Pow2(32 - k);
    assert Shl(val, k) == y * Pow2(k);
    OrDisjoint(c, y, k);
    MulLess(y, Pow2(32 - k), Pow2(k));
    Pow2Add(bits, k);
    MulMod(y, Pow2(bits), Pow2(k), c);
    Pow2Add(bits, 32 - k - bits);
    ModMod(val, Pow2(bits), Pow2(32 - k - bits));
  }

  lemma NegativeQuotient(val: nat, total: nat, a: nat, m: nat)
    requires a > 0 && total == m * a
    ensures (val - total) / a == val / a - m
  {
    var q := val / a;
    assert (q - m) * a == q * a - m * a;
    QuotientUnique(val - total, a, q - m, val % a);
  }

  lemma AddMultiple(q: nat, t: nat, b: nat)
    requires b > 0
    ensures (q + t * b) % b == q % b
  {
    assert q + t * b == (q / b + t) * b + q % b;
    QuotientUnique(q + t * b, b, q / b + t, q % b);
  }

  lemma MinusMul(x: nat, y: nat, b: nat)
    ensures (x - y) * b == x * b - y * b
  {}

  /** Shifting arithmetically keeps the low bits of the quotient, whatever the sign bit. */
  lemma SarLow(val: nat, n: nat, w: nat)
    requires val < 0x1_0000_0000 && n + w <= 32
    ensures Sar(val, n) >= 0 && Sar(val, n) % Pow2(w) == val / Pow2(n) % Pow2(w)
  {
    DivNat(val, Pow2(n));
    if val >= 0x8000_0000 {
      var t := PowerGap(n, w);
      NegativeQuotient(val, 0x1_0000_0000, Pow2(n), Pow2(32 - n));
      AddMultiple(val / Pow2(n), t, Pow2(w));
    }
  }

  lemma PowerGap(n: nat, w: nat) returns (t: nat)
    requires n + w <= 32
    ensures 0x1_0000_0000 == Pow2(32 - n) * Pow2(n) && t * Pow2(w) == 0x1_0000_0000 - Pow2(32 - n)
  {
    Pow2Values();
    Pow2Add(32 - n, n);
    Pow2Add(32 - w, w);
    Pow2Add(32 - n - w, w);
    Pow2Monotone(32 - n - w, 32 - w);
    MinusMul(Pow2(32 - w), Pow2(32 - n - w), Pow2(w));
    t := Pow2(32 - w) - Pow2(32 - n - w);
  }

  /** Reading the upper w of n + w pending bits. */
  lemma Emit(val: nat, n: nat, w: nat)
    requires val < 0x1_0000_0000 && n + w <= 32
    ensures Sar(val, n) >= 0 && And(Sar(val, n), Pow2(w) - 1) == val % Pow2(n + w) / Pow2(n)
    ensures val % Pow2(n) == val % Pow2(n + w) % Pow2(n)
  {
    SarLow(val, n, w);
    AndLowMask(Sar(val, n), w);
    Pow2Add(n, w);
    DivMod(val, Pow2(n), Pow2(w));
    ModMod(val, Pow2(n), Pow2(w));
  }

  // ------------------------------------------------------------------------ encoding

  /** How many digits n bytes need. */
  function EncodedLength(n: nat): nat {
    (8 * n + 5) / 6
  }

  /** Digit k of the encoding: six of the 24 bits of a group of three bytes, zeros past the end. */
  function EncodedDigit(s: seq<byte>, k: nat): (d: nat)
    requires k < EncodedLength(|s|)
    ensures d < 64
  {
    var i := 3 * (k / 4);
    if k % 4 == 0 then s[i] / 4
    else if k % 4 == 1 then s[i] % 4 * 16 + (if i + 1 < |s| then s[i + 1] / 16 else 0)
    else if k % 4 == 2 then s[i + 1] % 16 * 4 + (if i + 2 < |s| then s[i + 2] / 64 else 0)
    else s[i + 2] % 64
  }

  function Encoded(s: seq<byte>): seq<byte> {
    seq(EncodedLength(|s|), k requires 0 <= k < EncodedLength(|s|) => Char64(EncodedDigit(s, k)))
  }

  /** The bits of `s[..i]` not yet written out: the low ones of its last byte. */
  predicate Pending(s: seq<byte>, i: nat, val: nat, bits: nat) {
    && i <= |s| && val < 0x1_0000_0000 && bits == 8 * i - 6 * (8 * i / 6)
    && (i > 0 ==> val % Pow2(bits) == s[i - 1] % Pow2(bits))
  }

  /** Byte i with the byte before it, whose low bits may still be pending. */
  function Window(s: seq<byte>, i: nat): nat
    requires i < |s|
  {
    var (before: int, b: int) := (if i == 0 then 0 else s[i - 1], s[i]);
    before * 0x100 + b
  }

  lemma PushByte(s: seq<byte>, i: nat, val: nat, bits: nat)
    requires Pending(s, i, val, bits) && i < |s|
    ensures Or(Shl(val, 8), s[i]) < 0x1_0000_0000
    ensures Or(Shl(val, 8), s[i]) % Pow2(bits + 8) == Window(s, i) % Pow2(bits + 8)
  {
    SmallPowers();
    var before: nat := if i == 0 then 0 else s[i - 1];
    assert val % Pow2(bits) == before % Pow2(bits);
    PushPending(before, s[i], val, bits);
  }

  lemma PushPending(before: nat, b: nat, val: nat, bits: nat)
    requires val < 0x1_0000_0000 && b < 0x100 && bits <= 8 && val % Pow2(bits) == before % Pow2(bits)
    ensures Or(Shl(val, 8), b) < 0x1_0000_0000
    ensures Or(Shl(val, 8), b) % Pow2(bits + 8) == (before * 0x100 + b) % Pow2(bits + 8)
  {
    assert Pow2(8) == 0x100;
    Push(val, bits, 8, b);
    Pow2Add(bits, 8);
    MulMod(before, Pow2(bits), 0x100, b);
  }

  lemma WindowParts(a: nat, b: nat)
    requires b < 0x100
    ensures (a * 0x100 + b) % 0x100 / 4 == b / 4
    ensures (a * 0x100 + b) % 0x400 / 16 == a % 4 * 16 + b / 16
    ensures (a * 0x100 + b) % 0x1000 / 64 == a % 16 * 4 + b / 64
    ensures (a * 0x100 + b) % 64 / 1 == b % 64
  {
    var x := a * 0x100 + b;
    QuotientUnique(x, 0x100, a, b);
    QuotientUnique(x, 0x400, a / 4, a % 4 * 0x100 + b);
    QuotientUnique(a % 4 * 0x100 + b, 16, a % 4 * 16 + b / 16, b % 16);
    QuotientUnique(x, 0x1000, a / 16, a % 16 * 0x100 + b);
    QuotientUnique(a % 16 * 0x100 + b, 64, a % 16 * 4 + b / 64, b % 64);
    QuotientUnique(x, 64, 4 * a + b / 64, b % 64);
  }

  lemma WindowDigit(s: seq<byte>, i: nat, k: nat)
    requires i < |s| && 8 * i / 6 <= k < 8 * (i + 1) / 6
    ensures k < EncodedLength(|s|) && 0 <= 8 * (i + 1) - 6 * (k + 1) <= 6
    ensures var bits := 8 * (i + 1) - 6 * (k + 1); Window(s, i) % Pow2(bits + 6) / Pow2(bits) == EncodedDigit(s, k)
  {
    var q := i / 3;
    var bits := 8 * (i + 1) - 6 * (k + 1);
    SmallPowers();
    WindowParts(if i == 0 then 0 else s[i - 1], s[i]);
    if i == 3 * q {
      assert k == 4 * q && bits == 2;
    } else if i == 3 * q + 1 {
      assert k == 4 * q + 1 && bits == 4 && k / 4 == q && k % 4 == 1;
    } else if k == 4 * q + 2 {
      assert i == 3 * q + 2 && bits == 6 && k / 4 == q && k % 4 == 2;
    } else {
      assert i == 3 * q + 2 && k == 4 * q + 3 && bits == 0 && k / 4 == q && k % 4 == 3;
    }
  }

  lemma SmallPowers()
    ensures Pow2(0) == 1 && Pow2(2) == 4 && Pow2(4) == 16 && Pow2(6) == 64
    ensures Pow2(8) == 256 && Pow2(10) == 1024 && Pow2(12) == 4096
  {}

  lemma LeftoverByte(s: seq<byte>, i: nat, bits: nat)
    requires i < |s| && bits <= 8
    ensures Window(s, i) % Pow2(bits) == s[i] % Pow2(bits)
  {
    assert Pow2(8) == 0x100;
    Pow2Add(bits, 8 - bits);
    ModMod(Window(s, i), Pow2(bits), Pow2(8 - bits));
    QuotientUnique(Window(s, i), 0x100, if i == 0 then 0 else s[i - 1], s[i]);
  }

  lemma GroupBits(n: nat)
    ensures 8 * n / 6 == 4 * (n / 3) + n % 3 && 8 * n - 6 * (8 * n / 6) == 2 * (n % 3)
  {
    QuotientUnique(8 * n, 6, 4 * (n / 3) + n % 3, 2 * (n % 3));
  }

  /** The last digit carries the pending bits of the last byte, filled up with zeros. */
  lemma LastDigit(s: seq<byte>, val: nat, bits: nat)
    requires Pending(s, |s|, val, bits) && bits > 0
    ensures bits <= 6 && EncodedLength(|s|) == 8 * |s| / 6 + 1
    ensures And(Shl(val, 6 - bits), 0x3F) == EncodedDigit(s, 8 * |s| / 6)
  {
    GroupBits(|s|);
    GroupIndex(|s| / 3, |s| % 3);
    SmallPowers();
    Push(val, bits, 6 - bits, 0);
    OrZero(Shl(val, 6 - bits));
    AndLowMask(Shl(val, 6 - bits), 6);
  }

  /** What has been written is the beginning of the encoding. */
  predicate Begun(s: seq<byte>, result: seq<byte>) {
    && |result| <= EncodedLength(|s|)
    && forall k :: 0 <= k < |result| ==> result[k] == Char64(EncodedDigit(s, k))
  }

  lemma Continue(s: seq<byte>, result: seq<byte>, digit: nat)
    requires Begun(s, result) && |result| < EncodedLength(|s|) && digit == EncodedDigit(s, |result|)
    ensures Begun(s, result + [Char64(digit)])
  {}

  /** Take one more byte and write out digits as long as there are six bits for one. */
  method AddByte(s: seq<byte>, i: nat, val: nat, bits: nat, result: seq<byte>)
    returns (val': nat, bits': nat, result': seq<byte>)
    requires i < |s| && Pending(s, i, val, bits) && |result| == 8 * i / 6 && Begun(s, result)
    ensures Pending(s, i + 1, val', bits') && |result'| == 8 * (i + 1) / 6 && Begun(s, result')
  {
    PushByte(s, i, val, bits);
    val', bits', result' := Or(Shl(val, 8), s[i]), bits + 8, result;
    while bits' >= 6
      invariant val' < 0x1_0000_0000 && bits' == 8 * (i + 1) - 6 * |result'| && |result'| <= 8 * (i + 1) / 6
      invariant 8 * i / 6 <= |result'| && val' % Pow2(bits') == Window(s, i) % Pow2(bits') && Begun(s, result')
    {
      bits' := bits' - 6;
      EmitDigit(s, i, |result'|, val', bits');
      Continue(s, result', And(Sar(val', bits'), 0x3F));
      result' := result' + [Char64(And(Sar(val', bits'), 0x3F))];
    }
    LeftoverByte(s, i, bits');
  }

  method Encode(s: seq<byte>) returns (result: seq<byte>)
    ensures result == Encoded(s)
  {
    result := [];
    var val: nat, bits: nat := 0, 0;
    for i := 0 to |s|
      invariant Pending(s, i, val, bits) && |result| == 8 * i / 6 && Begun(s, result)
    {
      val, bits, result := AddByte(s, i, val, bits, result);
    }
    if bits > 0 {
      LastDigit(s, val, bits);
      val := Shl(val, 6 - bits);
      Continue(s, result, And(val, 0x3F));
      result := result + [Char64(And(val, 0x3F))];
    }
  }

  lemma EmitDigit(s: seq<byte>, i: nat, k: nat, val: nat, bits: nat)
    requires i < |s| && 8 * i / 6 <= k < 8 * (i + 1) / 6 && bits == 8 * (i + 1) - 6 * (k + 1)
    requires val < 0x1_0000_0000 && val % Pow2(bits + 6) == Window(s, i) % Pow2(bits + 6)
    ensures k < EncodedLength(|s|) && Sar(val, bits) >= 0 && And(Sar(val, bits), 0x3F) == EncodedDigit(s, k)
    ensures val % Pow2(bits) == Window(s, i) % Pow2(bits)
  {
    assert Pow2(6) == 64;
    WindowDigit(s, i, k);
    Emit(val, bits, 6);
    Pow2Add(bits, 6);
    ModMod(Window(s, i), Pow2(bits), 64);
  }

  // ------------------------------------------------------------------------ decoding

  /** The digits of a string: up to the first padding character, other characters skipped. */
  function Digits(str: seq<byte>): seq<nat> {
    if str == [] || str[0] == PAD then []
    else if Digit(str[0]) < 0 then Digits(str[1..])
    else [Digit(str[0])] + Digits(str[1..])
  }

  /** A character outside the alphabet, other than padding, makes no difference. */
  lemma {:induction false} DigitsSkip(a: seq<byte>, b: byte, c: seq<byte>)
    requires Digit(b) == -1 && b != PAD
    ensures Digits(a + [b] + c) == Digits(a + c)
  {
    if a == [] {
      assert a + [b] + c == [b] + c && ([b] + c)[1..] == c && a + c == c;
    } else {
      assert (a + [b] + c)[1..] == a[1..] + [b] + c && (a + c)[1..] == a[1..] + c;
      DigitsSkip(a[1..], b, c);
    }
  }

  /** Byte k of the decoding: eight of the 24 bits of a group of four digits. */
  function DecodedByte(d: seq<nat>, k: nat): nat
    requires k < 6 * |d| / 8
  {
    var i := 4 * (k / 3);
    if k % 3 == 0 then d[i] * 4 + d[i + 1] / 16
    else if k % 3 == 1 then d[i + 1] % 16 * 16 + d[i + 2] / 4
    else d[i + 2] % 4 * 64 + d[i + 3]
  }

  predicate AllDigits(d: seq<nat>) {
    forall i :: 0 <= i < |d| ==> d[i] < 64
  }

  function Decoded(d: seq<nat>): seq<byte>
    requires AllDigits(d)
  {
    seq(6 * |d| / 8, k requires 0 <= k < 6 * |d| / 8 => DecodedByte(d, k))
  }

  lemma {:induction false} DigitsBelow64(str: seq<byte>)
    ensures AllDigits(Digits(str))
  {
    if str != [] && str[0] != PAD { DigitsBelow64(str[1..]); }
  }

  /** The bits of the digits so far not yet written out: the low ones of the last digit. */
  predicate PendingDigits(d: seq<nat>, val: nat, bits: nat) {
    && AllDigits(d) && val < 0x1_0000_0000 && bits == 6 * |d| - 8 * (6 * |d| / 8)
    && (d != [] ==> val % Pow2(bits) == d[|d| - 1] % Pow2(bits))
  }

  /** One more digit shifted in. */
  lemma PushDigit(d: seq<nat>, x: nat, val: nat, bits: nat)
    requires PendingDigits(d, val, bits) && x < 64
    ensures Or(Shl(val, 6), x) < 0x1_0000_0000
    ensures Or(Shl(val, 6), x) % Pow2(bits + 6) == ((if d == [] then 0 else d[|d| - 1]) * 64 + x) % Pow2(bits + 6)
  {
    SmallPowers();
    var before: nat := if d == [] then 0 else d[|d| - 1];
    assert val % Pow2(bits) == before % Pow2(bits);
    Push(val, bits, 6, x);
    Pow2Add(bits, 6);
    MulMod(before, Pow2(bits), 64, x);
  }

  lemma DigitParts(a: nat, x: nat)
    requires a < 64 && x < 64
    ensures (a * 64 + x) % 4096 / 16 == a * 4 + x / 16
    ensures (a * 64 + x) % 1024 / 4 == a % 16 * 16 + x / 4
    ensures (a * 64 + x) % 256 / 1 == a % 4 * 64 + x
    ensures (a * 64 + x) % 64 == x && (a * 64 + x) % 4096 % 16 == x % 16 && (a * 64 + x) % 1024 % 4 == x % 4
  {
    var y := a * 64 + x;
    QuotientUnique(y, 4096, 0, y);
    QuotientUnique(y, 16, a * 4 + x / 16, x % 16);
    QuotientUnique(y, 1024, a / 16, a % 16 * 64 + x);
    QuotientUnique(a % 16 * 64 + x, 4, a % 16 * 16 + x / 4, x % 4);
    QuotientUnique(y, 256, a / 4, a % 4 * 64 + x);
    QuotientUnique(y, 64, a, x);
  }

  /** With eight bits or more pending a byte can be read off. */
  lemma EmitByte(d: seq<nat>, x: nat, val: nat, bits: nat)
    requires AllDigits(d) && x < 64 && val < 0x1_0000_0000
    requires bits + 8 == 6 * |d| - 8 * (6 * |d| / 8) + 6
    requires val % Pow2(bits + 8) == ((if d == [] then 0 else d[|d| - 1]) * 64 + x) % Pow2(bits + 8)
    ensures 6 * |d + [x]| / 8 == 6 * |d| / 8 + 1 && Sar(val, bits) >= 0
    ensures And(Sar(val, bits), 0xFF) == DecodedByte(d + [x], 6 * |d| / 8) < 0x100
    ensures val % Pow2(bits) == x % Pow2(bits)
  {
    assert Pow2(8) == 256;
    Emit(val, bits, 8);
    WindowByte(d, x, bits);
  }

  lemma WindowByte(d: seq<nat>, x: nat, bits: nat)
    requires AllDigits(d) && x < 64 && bits + 8 == 6 * |d| - 8 * (6 * |d| / 8) + 6
    ensures var w := ((if d == [] then 0 else d[|d| - 1]) * 64 + x) % Pow2(bits + 8);
      && 6 * |d + [x]| / 8 == 6 * |d| / 8 + 1
      && w / Pow2(bits) == DecodedByte(d + [x], 6 * |d| / 8) < 0x100
      && w % Pow2(bits) == x % Pow2(bits)
  {
    SmallPowers();
    var j, q, e := |d|, |d| / 4, d + [x];
    assert j % 4 != 0;
    var before := d[j - 1];
    DigitParts(before, x);
    assert e[j] == x && e[j - 1] == before;
    if j == 4 * q + 1 {
      assert bits == 4 && 6 * j / 8 == 3 * q;
    } else if j == 4 * q + 2 {
      assert bits == 2 && 6 * j / 8 == 3 * q + 1 && (3 * q + 1) / 3 == q && (3 * q + 1) % 3 == 1;
    } else {
      assert j == 4 * q + 3 && bits == 0 && 6 * j / 8 == 3 * q + 2 && (3 * q + 2) / 3 == q && (3 * q + 2) % 3 == 2;
    }
  }

  /** With fewer the digit stays pending as a whole. */
  lemma KeepDigit(d: seq<nat>, x: nat, val: nat, bits: nat)
    requires AllDigits(d) && x < 64 && bits == 6 * |d| - 8 * (6 * |d| / 8) + 6 && bits < 8
    requires val % Pow2(bits) == ((if d == [] then 0 else d[|d| - 1]) * 64 + x) % Pow2(bits)
    ensures 6 * |d + [x]| / 8 == 6 * |d| / 8 && val % Pow2(bits) == x % Pow2(bits)
  {
    SmallPowers();
    DigitParts(if d == [] then 0 else d[|d| - 1], x);
  }

  lemma DecodedByteSame(d: seq<nat>, x: nat, k: nat)
    requires k < 6 * |d| / 8
    ensures k < 6 * |d + [x]| / 8 && DecodedByte(d + [x], k) == DecodedByte(d, k)
  {}

  /** The result so far is the bytes that the digits so far make up. */
  predicate SoFar(d: seq<nat>, val: nat, bits: nat, result: seq<byte>) {
    && PendingDigits(d, val, bits) && |result| == 6 * |d| / 8
    && forall k :: 0 <= k < |result| ==> result[k] == DecodedByte(d, k)
  }

  /** Take one more digit and write out a byte when there are eight bits for one. */
  method AddDigit(ghost ds: seq<nat>, d: nat, val: nat, bits: nat, result: seq<byte>)
    returns (val': nat, bits': nat, result': seq<byte>)
    requires SoFar(ds, val, bits, result) && d < 64
    ensures SoFar(ds + [d], val', bits', result')
  {
    PushDigit(ds, d, val, bits);
    val', bits', result' := Or(Shl(val, 6), d), bits + 6, result;
    forall k | 0 <= k < |result|
      ensures k < 6 * |ds + [d]| / 8 && DecodedByte(ds + [d], k) == DecodedByte(ds, k)
    {
      DecodedByteSame(ds, d, k);
    }
    if bits' >= 8 {
      bits' := bits' - 8;
      EmitByte(ds, d, val', bits');
      result' := result' + [And(Sar(val', bits'), 0xFF)];
    } else {
      KeepDigit(ds, d, val', bits');
    }
  }

  method Decode(table: array<int>, str: seq<byte>) returns (result: seq<byte>)
    requires table.Length == 256 && forall b: byte :: table[b] == Digit(b)
    ensures AllDigits(Digits(str)) && result == Decoded(Digits(str))
  {
    result := [];
    var val: nat, bits: nat := 0, 0;
    ghost var ds: seq<nat> := [];
    var i := 0;
    while i < |str|
      invariant i <= |str| && SoFar(ds, val, bits, result) && Digits(str) == ds + Digits(str[i..])
    {
      assert str[i..][0] == str[i] && str[i..][1..] == str[i + 1..];
      if str[i] == PAD {
        break;
      }
      var d := table[str[i]];
      if d >= 0 {
        val, bits, result := AddDigit(ds, d, val, bits, result);
        ds := ds + [d];
      }
      i := i + 1;
    }
    assert Digits(str) == ds;
  }

  // ---------------------------------------------------------------------- round trip

  lemma AlphabetRoundTrip(v: nat)
    requires v < 64
    ensures Digit(Char64(v)) == v && Char64(v) != PAD
  {}

  function EncodedDigits(s: seq<byte>): (d: seq<nat>)
    ensures AllDigits(d)
  {
    seq(EncodedLength(|s|), k requires 0 <= k < EncodedLength(|s|) => EncodedDigit(s, k))
  }

  lemma {:induction false} DigitsOfChars(d: seq<nat>, str: seq<byte>, rest: seq<byte>)
    requires AllDigits(d) && |str| == |d| && forall k :: 0 <= k < |d| ==> str[k] == Char64(d[k])
    requires rest == [] || rest[0] == PAD
    ensures Digits(str + rest) == d
    decreases |d|
  {
    if d != [] {
      AlphabetRoundTrip(d[0]);
      assert (str + rest)[1..] == str[1..] + rest;
      DigitsOfChars(d[1..], str[1..], rest);
    } else {
      assert str + rest == rest;
    }
  }

  lemma GroupIndex(q: nat, r: nat)
    requires r < 4
    ensures (4 * q + r) / 4 == q && (4 * q + r) % 4 == r
    ensures r < 3 ==> (3 * q + r) / 3 == q && (3 * q + r) % 3 == r
  {}

  /** Three bytes cut into four digits and put together again. */
  lemma Regroup(a: nat, b: nat, c: nat)
    requires a < 256 && b < 256 && c < 256
    ensures a / 4 * 4 + (a % 4 * 16 + b / 16) / 16 == a
    ensures (a % 4 * 16 + b / 16) % 16 * 16 + (b % 16 * 4 + c / 64) / 4 == b
    ensures (b % 16 * 4 + c / 64) % 4 * 64 + c % 64 == c
  {
    assert (a % 4 * 16 + b / 16) / 16 == a % 4 && (a % 4 * 16 + b / 16) % 16 == b / 16;
    assert (b % 16 * 4 + c / 64) / 4 == b % 16 && (b % 16 * 4 + c / 64) % 4 == c / 64;
  }

  lemma DecodedEncodedByte(s: seq<byte>, k: nat)
    requires k < |s|
    ensures k < 6 * |EncodedDigits(s)| / 8 && DecodedByte(EncodedDigits(s), k) == s[k]
  {
    var q, r := k / 3, k % 3;
    assert k == 3 * q + r;
    EncodedBits(|s|);
    var a: nat := s[3 * q];
    var b: nat := if 3 * q + 1 < |s| then s[3 * q + 1] else 0;
    var c: nat := if 3 * q + 2 < |s| then s[3 * q + 2] else 0;
    DecodedGroup(s, EncodedDigits(s), q, r, a, b, c);
  }

  lemma DecodedGroup(s: seq<byte>, d: seq<nat>, q: nat, r: nat, a: nat, b: nat, c: nat)
    requires |d| == EncodedLength(|s|) && forall k :: 0 <= k < |d| ==> d[k] == EncodedDigit(s, k)
    requires r < 3 && 3 * q + r < |s| && a == s[3 * q]
    requires b == (if 3 * q + 1 < |s| then s[3 * q + 1] else 0) && c == (if 3 * q + 2 < |s| then s[3 * q + 2] else 0)
    ensures 3 * q + r < 6 * |d| / 8
    ensures DecodedByte(d, 3 * q + r) == if r == 0 then a else if r == 1 then b else c
  {
    GroupDigits(s, q, a, b, c);
    GroupByte(d, q, r, a, b, c);
  }

  /** The three bytes that four digits make up. */
  lemma GroupByte(d: seq<nat>, q: nat, r: nat, a: nat, b: nat, c: nat)
    requires a < 256 && b < 256 && c < 256 && r < 3 && 4 * q + r + 1 < |d|
    requires d[4 * q] == a / 4 && d[4 * q + 1] == a % 4 * 16 + b / 16
    requires r >= 1 ==> d[4 * q + 2] == b % 16 * 4 + c / 64
    requires r >= 2 ==> d[4 * q + 3] == c % 64
    ensures 3 * q + r < 6 * |d| / 8
    ensures DecodedByte(d, 3 * q + r) == if r == 0 then a else if r == 1 then b else c
  {
    Regroup(a, b, c);
    GroupIndex(q, r);
  }

  lemma EncodedBits(n: nat)
    ensures 6 * EncodedLength(n) / 8 == n
  {}

  /** The four digits of group q. */
  lemma GroupDigits(s: seq<byte>, q: nat, a: nat, b: nat, c: nat)
    requires 3 * q < |s| && a == s[3 * q]
    requires b == (if 3 * q + 1 < |s| then s[3 * q + 1] else 0) && c == (if 3 * q + 2 < |s| then s[3 * q + 2] else 0)
    ensures 4 * q + 1 < EncodedLength(|s|)
    ensures EncodedDigit(s, 4 * q) == a / 4 && EncodedDigit(s, 4 * q + 1) == a % 4 * 16 + b / 16
    ensures 3 * q + 1 < |s| ==> 4 * q + 2 < EncodedLength(|s|) && EncodedDigit(s, 4 * q + 2) == b % 16 * 4 + c / 64
    ensures 3 * q + 2 < |s| ==> 4 * q + 3 < EncodedLength(|s|) && EncodedDigit(s, 4 * q + 3) == c % 64
  {
    GroupIndex(q, 0);
    GroupIndex(q, 1);
    GroupIndex(q, 2);
    GroupIndex(q, 3);
  }

  /** Decoding what was encoded gives the bytes back, with or without padding and whatever follows it. */
  lemma RoundTrip(s: seq<byte>, rest: seq<byte>)
    requires rest == [] || rest[0] == PAD
    ensures AllDigits(Digits(Encoded(s) + rest)) && Decoded(Digits(Encoded(s) + rest)) == s
  {
    DigitsOfChars(EncodedDigits(s), Encoded(s), rest);
    forall k | 0 <= k < |s|
      ensures k < 6 * |EncodedDigits(s)| / 8 && DecodedByte(EncodedDigits(s), k) == s[k]
    {
      DecodedEncodedByte(s, k);
    }
    assert 6 * EncodedLength(|s|) / 8 == |s|;
  }
}
