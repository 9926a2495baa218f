/** Packed records: four hash bytes, the two lengths, the key and the value. */
module Records {
  import opened Bits
  import opened Bytes
  import Vbe

  /** The data bytes of one bucket: a 4096-byte page less three 64-bit fields. */
  const BUCKET_SIZE: nat := 4096 - 3 * 8

  type Key = (Hash, seq<byte>)

  datatype Record = Record(hash: Hash, key: seq<byte>, value: seq<byte>) {
    function Id(): Key { (hash, key) }
  }

  function HashBytes(h: Hash): seq<byte> {
    [h % 0x100, h / 0x100 % 0x100, h / 0x100 / 0x100 % 0x100, h / 0x100 / 0x100 / 0x100]
  }

  function HashFrom(s: seq<byte>): Hash
    requires |s| == 4
  {
    var (b0: int, b1: int, b2: int, b3: int) := (s[0], s[1], s[2], s[3]);
    b0 + 0x100 * (b1 + 0x100 * (b2 + 0x100 * b3))
  }

  function Lengths(r: Record): seq<byte> {
    Vbe.Encode(|r.key|) + Vbe.Encode(|r.value|)
  }

  function Encode(r: Record): seq<byte> {
    HashBytes(r.hash) + Lengths(r) + (r.key + r.value)
  }

  function EncodeAll(rs: seq<Record>): seq<byte> {
    if rs == [] then [] else Encode(rs[0]) + EncodeAll(rs[1..])
  }

  /** The space a record takes, as computed before it is written. */
  function BytesRequired(keyLength: nat, valueLength: nat): int {
    4 + Vbe.Length(keyLength) + keyLength + Vbe.Length(valueLength) + valueLength
  }

  predicate Fits(r: Record) {
    |Encode(r)| <= BUCKET_SIZE
  }

  /** The bytes of `data` at `p` are those of `r`. */
  predicate StoredAt(data: seq<byte>, p: nat, r: Record) {
    p + |Encode(r)| <= |data| && data[p..p + |Encode(r)|] == Encode(r)
  }

  /** Where a stored record's key begins. */
  function KeyOffset(p: nat, r: Record): nat {
    p + 4 + |Lengths(r)|
  }

  lemma EncodeSize(r: Record)
    ensures |Encode(r)| == BytesRequired(|r.key|, |r.value|) >= 6
    ensures |Encode(r)| == 4 + |Lengths(r)| + |r.key| + |r.value|
  {
    Vbe.LengthIsWritten(|r.key|);
    Vbe.LengthIsWritten(|r.value|);
  }

  /** Which records fit an empty bucket: those of up to 4064 bytes of key and value do, those of more
      than 4066 do not, and between the two it depends on how many bytes the two lengths take. */
  lemma FitsBySize(r: Record)
    ensures Fits(r) <==> BytesRequired(|r.key|, |r.value|) <= BUCKET_SIZE
    ensures |r.key| + |r.value| <= 4064 ==> Fits(r)
    ensures |r.key| + |r.value| > 4066 ==> !Fits(r)
  {
    EncodeSize(r);
    assert Pow2(14) == 16384;
    Vbe.EncodeLength(|r.key|, 2);
    Vbe.EncodeLength(|r.value|, 2);
  }

  lemma HashRoundTrip(h: Hash)
    ensures HashFrom(HashBytes(h)) == h
  {}

  lemma EncodeParts(r: Record)
    ensures var k := 4 + |Lengths(r)|;
      && |Encode(r)| == k + |r.key| + |r.value|
      && Encode(r)[0..4] == HashBytes(r.hash) && Encode(r)[4..k] == Lengths(r)
      && Encode(r)[k..k + |r.key|] == r.key && Encode(r)[k + |r.key|..|Encode(r)|] == r.value
  {}

  /** Where the parts of a stored record lie. */
  lemma StoredParts(data: seq<byte>, p: nat, r: Record)
    requires StoredAt(data, p, r)
    ensures data[p..p + 4] == HashBytes(r.hash)
    ensures data[p + 4..KeyOffset(p, r)] == Lengths(r)
    ensures KeyOffset(p, r) + |r.key| + |r.value| == p + |Encode(r)| <= |data|
    ensures data[KeyOffset(p, r)..KeyOffset(p, r) + |r.key|] == r.key
    ensures data[KeyOffset(p, r) + |r.key|..p + |Encode(r)|] == r.value
  {
    EncodeParts(r);
    var e, k := Encode(r), 4 + |Lengths(r)|;
    SubSlice(data, p, e, 0, 4);
    SubSlice(data, p, e, 4, k);
    SubSlice(data, p, e, k, k + |r.key|);
    SubSlice(data, p, e, k + |r.key|, |e|);
  }

  lemma SubSlice(data: seq<byte>, p: nat, e: seq<byte>, lo: nat, hi: nat)
    requires p + |e| <= |data| && data[p..p + |e|] == e && lo <= hi <= |e|
    ensures data[p + lo..p + hi] == e[lo..hi]
  {
    assert forall i :: lo <= i < hi ==> data[p + i] == data[p..p + |e|][i] == e[i];
  }

  lemma LengthRuns(data: seq<byte>, p: nat, r: Record)
    requires StoredAt(data, p, r)
    ensures p + 4 + |Lengths(r)| <= |data|
    ensures data[p + 4..p + 4 + |Vbe.Encode(|r.key|)|] == Vbe.Encode(|r.key|)
    ensures data[p + 4 + |Vbe.Encode(|r.key|)|..KeyOffset(p, r)] == Vbe.Encode(|r.value|)
  {
    StoredParts(data, p, r);
    var l := Lengths(r);
    SubSlice(data, p + 4, l, 0, |Vbe.Encode(|r.key|)|);
    SubSlice(data, p + 4, l, |Vbe.Encode(|r.key|)|, |l|);
  }

  /** One length field of a stored record reads back exactly. */
  method ReadLength(data: seq<byte>, p: nat, ghost v: nat) returns (length: nat, cursor: nat)
    requires v <= BUCKET_SIZE && p + |Vbe.Encode(v)| <= |data| && data[p..p + |Vbe.Encode(v)|] == Vbe.Encode(v)
    ensures length == v && cursor == p + |Vbe.Encode(v)|
  {
    Vbe.EncodeRun(v, data, p);
    assert |Vbe.Encode(v)| <= 2 by {
      Pow2Values();
      Vbe.EncodeLength(v, 2);
    }
    length, cursor := Vbe.Read(Vbe.SizeT, data, p, p + |Vbe.Encode(v)| - 1);
    Vbe.NarrowExact(Vbe.SizeT, v);
  }

  /** Reading the fixed part of the record at `p`: its hash, both lengths and where its key starts. */
  method ReadHeader(data: seq<byte>, p: nat, ghost r: Record)
    returns (hash: Hash, keyLength: nat, valueLength: nat, cursor: nat)
    requires StoredAt(data, p, r) && Fits(r)
    ensures hash == r.hash && keyLength == |r.key| && valueLength == |r.value|
    ensures cursor == KeyOffset(p, r) && cursor + keyLength + valueLength == p + |Encode(r)| <= |data|
    ensures data[cursor..cursor + keyLength] == r.key
    ensures data[cursor + keyLength..cursor + keyLength + valueLength] == r.value
  {
    StoredParts(data, p, r);
    LengthRuns(data, p, r);
    HashRoundTrip(r.hash);
    hash := HashFrom(data[p..p + 4]);
    keyLength, cursor := ReadLength(data, p + 4, |r.key|);
    valueLength, cursor := ReadLength(data, cursor, |r.value|);
  }

  /** A stored record's hash and how many bytes it takes. */
  method Measure(data: seq<byte>, p: nat, ghost r: Record) returns (hash: Hash, recordLength: nat)
    requires StoredAt(data, p, r) && Fits(r)
    ensures hash == r.hash && recordLength == |Encode(r)|
  {
    var keyLength, valueLength, cursor;
    hash, keyLength, valueLength, cursor := ReadHeader(data, p, r);
    recordLength := (cursor - p) + keyLength + valueLength;
  }

  /** Writing a record's hash and lengths. */
  method WriteHeader(data: seq<byte>, p: nat, ghost r: Record, hash: Hash, keyLength: nat, valueLength: nat)
    returns (out: seq<byte>, cursor: nat)
    requires r.hash == hash && |r.key| == keyLength && |r.value| == valueLength
    requires KeyOffset(p, r) <= |data|
    ensures out == Splice(data, p, HashBytes(hash) + Lengths(r)) && cursor == KeyOffset(p, r)
  {
    out := Splice(data, p, HashBytes(hash));
    out, cursor := Vbe.Write(out, p + 4, keyLength);
    out, cursor := Vbe.Write(out, cursor, valueLength);
    WrittenLengths(data, p, r);
  }

  /** Writing a record into free space at `p`; the cursor ends at the stored value. */
  method WriteRecord(data: seq<byte>, p: nat, hash: Hash, key: seq<byte>, value: seq<byte>)
    returns (out: seq<byte>, cursor: nat)
    requires p + |Encode(Record(hash, key, value))| <= |data|
    ensures out == Splice(data, p, Encode(Record(hash, key, value)))
    ensures cursor == KeyOffset(p, Record(hash, key, value)) + |key|
  {
    ghost var r := Record(hash, key, value);
    EncodeSize(r);
    out, cursor := WriteHeader(data, p, r, hash, |key|, |value|);
    WrittenBytes(data, p, r);
    out := Splice(out, cursor, key);
    cursor := cursor + |key|;
    out := Splice(out, cursor, value);
  }

  lemma WrittenLengths(data: seq<byte>, p: nat, r: Record)
    requires KeyOffset(p, r) <= |data|
    ensures var k := Vbe.Encode(|r.key|);
      Splice(Splice(Splice(data, p, HashBytes(r.hash)), p + 4, k), p + 4 + |k|, Vbe.Encode(|r.value|))
      == Splice(data, p, HashBytes(r.hash) + Lengths(r))
  {
    var d := Splice(data, p, HashBytes(r.hash));
    SpliceSplice(d, p + 4, Vbe.Encode(|r.key|), Vbe.Encode(|r.value|));
    SpliceSplice(data, p, HashBytes(r.hash), Lengths(r));
  }

  lemma WrittenBytes(data: seq<byte>, p: nat, r: Record)
    requires p + |Encode(r)| <= |data|
    ensures KeyOffset(p, r) + |r.key| + |r.value| == p + |Encode(r)|
    ensures Splice(Splice(Splice(data, p, HashBytes(r.hash) + Lengths(r)), KeyOffset(p, r), r.key),
                   KeyOffset(p, r) + |r.key|, r.value)
      == Splice(data, p, Encode(r))
  {
    var head := HashBytes(r.hash) + Lengths(r);
    SpliceSplice(Splice(data, p, head), KeyOffset(p, r), r.key, r.value);
    SpliceSplice(data, p, head, r.key + r.value);
  }

  lemma {:induction false} EncodeAllAppend(a: seq<Record>, b: seq<Record>)
    ensures EncodeAll(a + b) == EncodeAll(a) + EncodeAll(b)
  {
    if a == [] {
      assert a + b == b;
    } else {
      EncodeAllAppend(a[1..], b);
      assert (a + b)[0] == a[0] && (a + b)[1..] == a[1..] + b;
      ConcatAssoc(Encode(a[0]), EncodeAll(a[1..]), EncodeAll(b));
    }
  }

  lemma ConcatAssoc(a: seq<byte>, b: seq<byte>, c: seq<byte>)
    ensures a + (b + c) == a + b + c
  {}

  lemma EncodeAllOne(r: Record)
    ensures EncodeAll([r]) == Encode(r)
  {
    assert [r][1..] == [];
  }

  lemma EncodeAllCons(r: Record, rs: seq<Record>)
    ensures EncodeAll([r] + rs) == Encode(r) + EncodeAll(rs)
  {
    assert ([r] + rs)[0] == r && ([r] + rs)[1..] == rs;
  }

  lemma EncodeAround(rs: seq<Record>, m: nat)
    requires m < |rs|
    ensures EncodeAll(rs) == EncodeAll(rs[..m]) + Encode(rs[m]) + EncodeAll(rs[m + 1..])
  {
    Around(rs, m);
    EncodeThree(rs[..m], rs[m], rs[m + 1..]);
  }

  lemma Around<T>(s: seq<T>, m: nat)
    requires m < |s|
    ensures s == s[..m] + ([s[m]] + s[m + 1..])
  {}

  lemma EncodeThree(a: seq<Record>, r: Record, c: seq<Record>)
    ensures EncodeAll(a + ([r] + c)) == EncodeAll(a) + Encode(r) + EncodeAll(c)
  {
    EncodeAllAppend(a, [r] + c);
    EncodeAllCons(r, c);
    ConcatAssoc(EncodeAll(a), Encode(r), EncodeAll(c));
  }

  /** Byte offset of the m-th record in a packed list. */
  function Offset(rs: seq<Record>, m: nat): nat
    requires m <= |rs|
  {
    |EncodeAll(rs[..m])|
  }

  /** Record m of a packed list lies at its offset and ends where record m + 1 begins. */
  lemma RecordAt(rs: seq<Record>, m: nat)
    requires m < |rs|
    ensures StoredAt(EncodeAll(rs), Offset(rs, m), rs[m])
    ensures Offset(rs, m + 1) == Offset(rs, m) + |Encode(rs[m])| <= |EncodeAll(rs)|
    ensures Offset(rs, m) < Offset(rs, m + 1)
  {
    EncodeAround(rs, m);
    EncodeAllAppend(rs[..m], [rs[m]]);
    EncodeAllOne(rs[m]);
    assert rs[..m + 1] == rs[..m] + [rs[m]];
    EncodeSize(rs[m]);
  }

  lemma OffsetEnd(rs: seq<Record>)
    ensures Offset(rs, 0) == 0 && Offset(rs, |rs|) == |EncodeAll(rs)|
  {
    assert rs[..|rs|] == rs;
  }

  /** Encoded lengths are prefix-free. */
  lemma VbePrefixFree(v: nat, w: nat, x: seq<byte>, y: seq<byte>)
    requires Vbe.Encode(v) + x == Vbe.Encode(w) + y
    ensures v == w && x == y
  {
    var data := Vbe.Encode(v) + x;
    Vbe.EncodeRun(v, data, 0);
    Vbe.EncodeRun(w, data, 0);
    var i, j := |Vbe.Encode(v)| - 1, |Vbe.Encode(w)| - 1;
    assert !(i < j) && !(j < i);
    assert Vbe.Encode(v) == data[..i + 1] == Vbe.Encode(w);
    assert x == data[i + 1..] == y;
  }

  lemma SplitEqual(a: seq<byte>, x: seq<byte>, b: seq<byte>, y: seq<byte>)
    requires a + x == b + y && |a| == |b|
    ensures a == b && x == y
  {
    assert a == (a + x)[..|a|] && b == (b + y)[..|b|];
    assert x == (a + x)[|a|..] && y == (b + y)[|b|..];
  }

  /** Records are self-delimiting. */
  lemma RecordPrefixFree(r: Record, s: Record, x: seq<byte>, y: seq<byte>)
    requires Encode(r) + x == Encode(s) + y
    ensures r == s && x == y
  {
    var kr, ks := Vbe.Encode(|r.key|), Vbe.Encode(|s.key|);
    var vr, vs := Vbe.Encode(|r.value|), Vbe.Encode(|s.value|);
    assert Encode(r) + x == HashBytes(r.hash) + (kr + (vr + (r.key + (r.value + x))));
    assert Encode(s) + y == HashBytes(s.hash) + (ks + (vs + (s.key + (s.value + y))));
    SplitEqual(HashBytes(r.hash), kr + (vr + (r.key + (r.value + x))),
               HashBytes(s.hash), ks + (vs + (s.key + (s.value + y))));
    HashRoundTrip(r.hash);
    HashRoundTrip(s.hash);
    VbePrefixFree(|r.key|, |s.key|, vr + (r.key + (r.value + x)), vs + (s.key + (s.value + y)));
    VbePrefixFree(|r.value|, |s.value|, r.key + (r.value + x), s.key + (s.value + y));
    SplitEqual(r.key, r.value + x, s.key, s.value + y);
    SplitEqual(r.value, x, s.value, y);
  }

  lemma EncodeAllEmpty(rs: seq<Record>)
    ensures EncodeAll(rs) == [] <==> rs == []
  {
    if rs != [] { EncodeSize(rs[0]); }
  }

  /** The bytes of a bucket determine its records. */
  lemma {:induction false} EncodeAllInjective(a: seq<Record>, b: seq<Record>)
    requires EncodeAll(a) == EncodeAll(b)
    ensures a == b
  {
    EncodeAllEmpty(a);
    EncodeAllEmpty(b);
    if a != [] && b != [] {
      RecordPrefixFree(a[0], b[0], EncodeAll(a[1..]), EncodeAll(b[1..]));
      EncodeAllInjective(a[1..], b[1..]);
      assert a == [a[0]] + a[1..] && b == [b[0]] + b[1..];
    }
  }
}
