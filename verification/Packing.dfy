/** One packed bucket: scanning it, appending to it, shifting a record out of it and
    overwriting a stored value in place. */
module Packing {
  import opened Bits
  import opened Bytes
  import opened Records
  import opened Buckets

  /** Record m of a bucket lies inside its used bytes. */
  lemma HeldRecord(b: Bucket, rs: seq<Record>, m: nat)
    requires Holds(b, rs) && m < |rs|
    ensures StoredAt(b.data, Offset(rs, m), rs[m]) && Fits(rs[m])
    ensures Offset(rs, m + 1) == Offset(rs, m) + |Encode(rs[m])| <= b.bytesUsed
    ensures Offset(rs, m) < Offset(rs, m + 1)
  {
    RecordAt(rs, m);
    var p, l := Offset(rs, m), |Encode(rs[m])|;
    assert b.data[p..p + l] == b.data[..b.bytesUsed][p..p + l];
  }

  /** Where the value of record m lies. */
  lemma HeldValue(b: Bucket, rs: seq<Record>, m: nat)
    requires Holds(b, rs) && m < |rs|
    ensures var at := KeyOffset(Offset(rs, m), rs[m]) + |rs[m].key|;
      at + |rs[m].value| <= |b.data| && b.data[at..at + |rs[m].value|] == rs[m].value
  {
    HeldRecord(b, rs, m);
    StoredParts(b.data, Offset(rs, m), rs[m]);
  }

  lemma HeldEnd(b: Bucket, rs: seq<Record>, m: nat)
    requires Holds(b, rs) && m <= |rs|
    ensures Offset(rs, m) == b.bytesUsed <==> m == |rs|
    ensures Offset(rs, m) <= b.bytesUsed
  {
    OffsetEnd(rs);
    if m < |rs| { HeldRecord(b, rs, m); }
  }

  /** Scan one bucket for a key. The scan steps from record to record and stops exactly at the end
      of the used bytes. */
  method Scan(b: Bucket, ghost rs: seq<Record>, hash: Hash, key: seq<byte>)
    returns (found: bool, start: nat, cursor: nat, valueLength: nat, ghost m: nat)
    requires Holds(b, rs)
    ensures m <= |rs| && forall j :: 0 <= j < m ==> rs[j].Id() != (hash, key)
    ensures found <==> exists j :: 0 <= j < |rs| && rs[j].Id() == (hash, key)
    ensures !found ==> m == |rs|
    ensures found ==>
      && m < |rs| && rs[m].Id() == (hash, key) && valueLength == |rs[m].value|
      && start == Offset(rs, m) && cursor == KeyOffset(start, rs[m])
  {
    start, cursor, m, valueLength, found := 0, 0, 0, 0, false;
    HeldEnd(b, rs, 0);
    assert rs[..0] == [];
    while cursor != b.bytesUsed
      invariant m <= |rs| && cursor == Offset(rs, m) && (cursor == b.bytesUsed <==> m == |rs|)
      invariant forall j :: 0 <= j < m ==> rs[j].Id() != (hash, key)
      decreases |rs| - m
    {
      start := cursor;
      HeldRecord(b, rs, m);
      var recordHash, keyLength;
      recordHash, keyLength, valueLength, cursor := ReadHeader(b.data, start, rs[m]);
      if recordHash == hash && |key| == keyLength && b.data[cursor..cursor + keyLength] == key {
        found := true;
        return;
      }
      cursor := cursor + keyLength + valueLength;
      m := m + 1;
      HeldEnd(b, rs, m);
    }
  }

  /** Copy n bytes, first to last, from one bucket to another or within one. Within one the two stretches
      may overlap: every byte is read before it is overwritten because the destination is not past the source. */
  method CopyForward(bs: seq<Bucket>, from: nat, src: nat, to: nat, dst: nat, n: nat) returns (out: seq<Bucket>)
    requires from < |bs| && to < |bs| && src + n <= |bs[from].data| && dst + n <= |bs[to].data|
    requires from == to ==> dst <= src
    ensures out == bs[to := bs[to].(data := Splice(bs[to].data, dst, bs[from].data[src..src + n]))]
  {
    out := bs;
    CopiedNothing(bs, from, src, to, dst);
    for k := 0 to n
      invariant out == Copied(bs, from, src, to, dst, k)
    {
      CopiedOne(bs, from, src, to, dst, k);
      var b := out[from].data[src + k];
      out := out[to := out[to].(data := out[to].data[dst + k := b])];
    }
  }

  function Copied(bs: seq<Bucket>, from: nat, src: nat, to: nat, dst: nat, n: nat): seq<Bucket>
    requires from < |bs| && to < |bs| && src + n <= |bs[from].data| && dst + n <= |bs[to].data|
  {
    bs[to := bs[to].(data := Splice(bs[to].data, dst, bs[from].data[src..src + n]))]
  }

  lemma CopiedNothing(bs: seq<Bucket>, from: nat, src: nat, to: nat, dst: nat)
    requires from < |bs| && to < |bs| && src <= |bs[from].data| && dst <= |bs[to].data|
    ensures Copied(bs, from, src, to, dst, 0) == bs
  {
    assert Splice(bs[to].data, dst, []) == bs[to].data;
  }

  lemma CopiedOne(bs: seq<Bucket>, from: nat, src: nat, to: nat, dst: nat, k: nat)
    requires from < |bs| && to < |bs| && src + k < |bs[from].data| && dst + k < |bs[to].data|
    requires from == to ==> dst <= src
    ensures var out := Copied(bs, from, src, to, dst, k);
      && out[from].data[src + k] == bs[from].data[src + k]
      && Copied(bs, from, src, to, dst, k + 1)
         == out[to := out[to].(data := out[to].data[dst + k := bs[from].data[src + k]])]
  {
    var s := bs[from].data;
    assert s[src..src + k + 1] == s[src..src + k] + [s[src + k]];
    SpliceSplice(bs[to].data, dst, s[src..src + k], [s[src + k]]);
    SpliceOne(Splice(bs[to].data, dst, s[src..src + k]), dst + k, s[src + k]);
  }

  lemma AppendHolds(b: Bucket, rs: seq<Record>, r: Record)
    requires Holds(b, rs) && b.bytesUsed + |Encode(r)| <= BUCKET_SIZE
    ensures Holds(b.(data := Splice(b.data, b.bytesUsed, Encode(r)), bytesUsed := b.bytesUsed + |Encode(r)|),
                  rs + [r])
  {
    SpliceExtends(b.data, b.bytesUsed, Encode(r));
    EncodeAllAppend(rs, [r]);
    EncodeAllOne(r);
  }

  /** Shifting the bytes behind record m down over it leaves the other records, in order. */
  lemma RemoveHolds(b: Bucket, rs: seq<Record>, m: nat)
    requires Holds(b, rs) && m < |rs|
    ensures var start, end := Offset(rs, m), Offset(rs, m + 1);
      && start <= end <= b.bytesUsed
      && Holds(b.(data := Splice(b.data, start, b.data[end..b.bytesUsed]), bytesUsed := b.bytesUsed - (end - start)),
               rs[..m] + rs[m + 1..])
  {
    HeldRecord(b, rs, m);
    var start, end, used := Offset(rs, m), Offset(rs, m + 1), b.bytesUsed;
    EncodeAround(rs, m);
    EncodeAllAppend(rs[..m], rs[m + 1..]);
    ThreeParts(b.data[..used], EncodeAll(rs[..m]), Encode(rs[m]), EncodeAll(rs[m + 1..]));
    assert b.data[..start] == b.data[..used][..start];
    assert b.data[end..used] == b.data[..used][end..];
    SpliceExtends(b.data, start, b.data[end..used]);
  }

  lemma ThreeParts(s: seq<byte>, a: seq<byte>, b: seq<byte>, c: seq<byte>)
    requires s == a + b + c
    ensures s[..|a|] == a && s[|a| + |b|..] == c
  {}

  /** Writing a value of the same size over the stored one changes just that record. */
  lemma OverwriteHolds(b: Bucket, rs: seq<Record>, m: nat, value: seq<byte>)
    requires Holds(b, rs) && m < |rs| && |value| == |rs[m].value|
    ensures var at := KeyOffset(Offset(rs, m), rs[m]) + |rs[m].key|;
      && at + |value| <= b.bytesUsed
      && Holds(b.(data := Splice(b.data, at, value)), rs[m := rs[m].(value := value)])
  {
    HeldRecord(b, rs, m);
    EncodeParts(rs[m]);
    EncodeOverwritten(rs, m, value);
    var head := HashBytes(rs[m].hash) + Lengths(rs[m]) + rs[m].key;
    assert |EncodeAll(rs[..m]) + head| == KeyOffset(Offset(rs, m), rs[m]) + |rs[m].key|;
    ReplacePart(b.data, b.bytesUsed, EncodeAll(rs[..m]) + head, rs[m].value, value, EncodeAll(rs[m + 1..]));
  }

  lemma EncodeOverwritten(rs: seq<Record>, m: nat, value: seq<byte>)
    requires m < |rs| && |value| == |rs[m].value|
    ensures var a := EncodeAll(rs[..m]) + (HashBytes(rs[m].hash) + Lengths(rs[m]) + rs[m].key);
      && EncodeAll(rs) == a + rs[m].value + EncodeAll(rs[m + 1..])
      && EncodeAll(rs[m := rs[m].(value := value)]) == a + value + EncodeAll(rs[m + 1..])
  {
    var r, rs' := rs[m], rs[m := rs[m].(value := value)];
    EncodeAround(rs, m);
    EncodeAround(rs', m);
    assert rs'[..m] == rs[..m] && rs'[m + 1..] == rs[m + 1..];
    HeadAndValue(r);
    HeadAndValue(rs'[m]);
    var head := HashBytes(r.hash) + Lengths(r) + r.key;
    Regroup(EncodeAll(rs[..m]), head, r.value, EncodeAll(rs[m + 1..]));
    Regroup(EncodeAll(rs[..m]), head, value, EncodeAll(rs[m + 1..]));
  }

  lemma HeadAndValue(r: Record)
    ensures Encode(r) == HashBytes(r.hash) + Lengths(r) + r.key + r.value
  {}

  lemma Regroup(a: seq<byte>, b: seq<byte>, c: seq<byte>, d: seq<byte>)
    ensures a + (b + c) + d == a + b + c + d
  {}

  lemma ReplacePart(data: seq<byte>, used: nat, a: seq<byte>, x: seq<byte>, y: seq<byte>, c: seq<byte>)
    requires used <= |data| && data[..used] == a + x + c && |x| == |y|
    ensures Splice(data, |a|, y)[..used] == a + y + c
  {
    assert forall i :: 0 <= i < used ==> data[i] == (a + x + c)[i];
  }

  lemma EmptyHolds(b: Bucket)
    requires |b.data| == BUCKET_SIZE
    ensures Holds(b.(bytesUsed := 0), [])
  {}
}
