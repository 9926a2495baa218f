/** What every state of the bucket file satisfies, and how single steps keep it. */
module Store {
  import opened Bits
  import opened Bytes
  import opened Records
  import opened Contents
  import opened Buckets
  import opened Packing

  /** Bytes of the file header and of one bucket, three 64-bit fields and its data. */
  const HEADER_BYTES: nat := 4 + 8 + 8
  const BUCKET_BYTES: nat := 3 * 8 + BUCKET_SIZE

  /** Bytes that the header and `n` buckets take. */
  function BytesFor(n: nat): nat {
    HEADER_BYTES + n * BUCKET_BYTES
  }

  /** The mapping covers every bucket (and always one) and is at most a tenth too long. */
  predicate Mapped(length: nat, n: nat) {
    BytesFor(if n == 0 then 1 else n) <= length && 10 * length <= 11 * BytesFor(if n == 0 then 1 else n)
  }

  /** The mapped length once `n` buckets are needed: unchanged if they fit, else a tenth more than they need. */
  function Remapped(length: nat, n: nat): nat {
    if BytesFor(n) <= length then length else BytesFor(n) * 11 / 10
  }

  /** A bucket is taken off the top of the free list, or past the end of the file when that is empty. */
  predicate Taken(free: seq<nat>, count: nat, free': seq<nat>, count': nat, id: nat) {
    if free == [] then free' == [] && count' == count + 1 && id == count
    else free' == free[..|free| - 1] && count' == count && id == free[|free| - 1]
  }

  /** Place i is the first of a chain whose bucket has room for so many bytes; there is none if i is its length. */
  ghost predicate FirstRoom(bs: seq<Bucket>, c: seq<nat>, bytes: nat, i: nat) {
    && i <= |c| && (forall j :: 0 <= j < |c| ==> c[j] < |bs|)
    && (forall j :: 0 <= j < i ==> bs[c[j]].bytesUsed + bytes > BUCKET_SIZE)
    && (i < |c| ==> bs[c[i]].bytesUsed + bytes <= BUCKET_SIZE)
  }

  /** One bucket holds one more record, at its end. */
  ghost predicate AddedTo(before: seq<seq<Record>>, after: seq<seq<Record>>, id: nat, r: Record) {
    forall b: nat :: At(after, b) == if b == id then At(before, b) + [r] else At(before, b)
  }

  /** One bucket holds its records but for one. */
  ghost predicate TakenFrom(before: seq<seq<Record>>, after: seq<seq<Record>>, id: nat, m: nat) {
    && id < |before| && m < |before[id]|
    && after == before[id := before[id][..m] + before[id][m + 1..]]
  }

  ghost predicate FreeEmpty(recs: seq<seq<Record>>, free: seq<nat>) {
    forall i :: 0 <= i < |free| ==> At(recs, free[i]) == []
  }

  /** Mentioning these makes the parts of SoundStore behind the quantifiers available; proofs that
      only pass a sound store along leave them folded. */
  predicate Unfold(k: int) { true }
  predicate UnfoldIds(k: int) { true }

  /** Ids are arranged in disjoint lists, the links spell those lists out, every bucket's used bytes
      are exactly its records, and free buckets hold none. */
  ghost predicate SoundStore(bs: seq<Bucket>, firstFree: int, s: Shape, recs: seq<seq<Record>>) {
    && InRange(|bs|, s) && |recs| == |bs|
    && (forall k :: UnfoldIds(k) ==> Partition(|bs|, s))
    && (forall k :: Unfold(k) ==> Shaped(bs, firstFree, s) && Filled(bs, recs) && FreeEmpty(recs, s.free))
  }

  predicate UnfoldPrefixes(k: int) { true }

  /** Every bucket of a chain carries the prefix length of its head. */
  ghost predicate Uniform(bs: seq<Bucket>, s: Shape)
    requires InRange(|bs|, s)
  {
    forall k :: UnfoldPrefixes(k) ==>
      forall h, i :: h in s.chains && 0 <= i < |s.chains[h]| ==>
        bs[s.chains[h][i]].prefixBits == bs[s.chains[h][0]].prefixBits
  }

  ghost predicate SameRecords(recs: seq<seq<Record>>, other: seq<seq<Record>>) {
    forall b: nat :: At(recs, b) == At(other, b)
  }

  lemma SameContents(recs: seq<seq<Record>>, other: seq<seq<Record>>, c: seq<nat>)
    requires SameRecords(recs, other)
    ensures Flat(recs, c) == Flat(other, c)
  {
    FlatAgree(recs, other, c);
  }

  /** Bucket `id` is new or rewritten, every other one is as before. */
  predicate Others(bs: seq<Bucket>, cs: seq<Bucket>, id: nat) {
    |bs| <= |cs| <= |bs| + 1 && id < |cs| && forall b :: 0 <= b < |bs| && b != id ==> cs[b] == bs[b]
  }

  /** Appending a packed record to one bucket. */
  function Appended(b: Bucket, r: Record): Bucket
    requires b.bytesUsed + |Encode(r)| <= |b.data|
  {
    b.(data := Splice(b.data, b.bytesUsed, Encode(r)), bytesUsed := b.bytesUsed + |Encode(r)|)
  }

  /** Replacing one bucket of a chain by one with the same links keeps the store sound. */
  lemma RewriteSound(bs: seq<Bucket>, firstFree: int, s: Shape, recs: seq<seq<Record>>, b: nat, nb: Bucket,
                     rs: seq<Record>)
    requires SoundStore(bs, firstFree, s, recs) && b < |bs|
    requires s.owner[b] != INVALID || rs == []
    requires nb.next == bs[b].next && Holds(nb, rs)
    ensures SoundStore(bs[b := nb], firstFree, s, recs[b := rs])
  {
    assert Unfold(0);
    ShapedSameLinks(bs, bs[b := nb], firstFree, s);
    FreeStaysEmpty(s, recs, b, rs);
  }

  lemma FreeStaysEmpty(s: Shape, recs: seq<seq<Record>>, b: nat, rs: seq<Record>)
    requires Partition(|recs|, s) && b < |recs| && FreeEmpty(recs, s.free) && (s.owner[b] != INVALID || rs == [])
    ensures FreeEmpty(recs[b := rs], s.free)
  {
    forall i | 0 <= i < |s.free|
      ensures At(recs[b := rs], s.free[i]) == []
    {
      assert s.owner[s.free[i]] == INVALID;
    }
  }

  /** Changing one bucket of chain `h` leaves the contents of the other chains alone. */
  lemma OtherChains(n: nat, s: Shape, recs: seq<seq<Record>>, h: int, b: nat, rs: seq<Record>, g: int)
    requires Partition(n, s) && |recs| == n && b < n && s.owner[b] == h && g in s.chains && g != h
    ensures Flat(recs[b := rs], s.chains[g]) == Flat(recs, s.chains[g])
  {
    forall j | 0 <= j < |s.chains[g]|
      ensures s.chains[g][j] != b
    {}
    FlatSkip(recs, b, rs, s.chains[g]);
  }

  lemma ExtendSound(bs: seq<Bucket>, firstFree: int, s: Shape, recs: seq<seq<Record>>, nb: Bucket)
    requires SoundStore(bs, firstFree, s, recs) && nb.next == INVALID && Holds(nb, [])
    ensures SoundStore(bs + [nb], firstFree, Extended(s), recs + [[]])
    ensures |bs| !in s.chains && SameRecords(recs, recs + [[]])
  {
    assert Unfold(0);
    ExtendShaped(bs, firstFree, s, nb);
  }

  lemma NotAHead(n: nat, s: Shape, b: nat)
    requires Partition(n, s) && b < n && s.owner[b] != b
    ensures b !in s.chains
  {}

  lemma PopSound(bs: seq<Bucket>, firstFree: int, s: Shape, recs: seq<seq<Record>>, nb: Bucket)
    requires SoundStore(bs, firstFree, s, recs) && s.free != [] && nb.next == INVALID && Holds(nb, [])
    ensures firstFree == s.free[|s.free| - 1] < |bs|
    ensures SoundStore(bs[firstFree := nb], bs[firstFree].next, Popped(s), recs)
    ensures firstFree !in s.chains && At(recs, firstFree) == [] && s.owner[firstFree] == INVALID
  {
    assert Unfold(0);
    PopShaped(bs, firstFree, s, nb);
    assert s.owner[firstFree] == INVALID;
    NotAHead(|bs|, s, firstFree);
    assert At(recs, s.free[|s.free| - 1]) == [];
  }

  /** Hanging the fresh one-bucket chain `b` onto the end of chain `h`. */
  lemma JoinSound(bs: seq<Bucket>, firstFree: int, s: Shape, recs: seq<seq<Record>>, h: int, b: nat)
    requires SoundStore(bs, firstFree, s, recs) && h in s.chains && b in s.chains && h != b && s.chains[b] == [b]
    ensures var last := s.chains[h][|s.chains[h]| - 1];
      && last < |bs| && b < |bs| && last != b
      && SoundStore(bs[last := bs[last].(next := b)], firstFree, Joined(s, h, b), recs)
  {
    assert Unfold(0);
    var last := s.chains[h][|s.chains[h]| - 1];
    assert s.owner[last] == h;
    assert s.owner[s.chains[b][0]] == b;
    JoinShaped(bs, firstFree, s, h, b);
    var cs := bs[last := bs[last].(next := b)];
    assert Filled(cs, recs);
  }

  /** What a new or joined bucket leaves alone. */
  ghost predicate Extends(bs: seq<Bucket>, cs: seq<Bucket>, last: nat, id: nat) {
    && |bs| <= |cs| <= |bs| + 1 && last < |bs| && id < |cs| && last != id
    && cs[last] == bs[last].(next := id)
    && forall b :: 0 <= b < |bs| && b != id && b != last ==> cs[b] == bs[b]
  }

  lemma LinkExtends(bs: seq<Bucket>, cs: seq<Bucket>, last: nat, id: nat)
    requires Others(bs, cs, id) && last < |bs| && last != id
    ensures Extends(bs, cs[last := cs[last].(next := id)], last, id)
  {}

  /** A chain's records in the buckets up to and including bucket i, with one more record there. */
  lemma InsertedAt(recs: seq<seq<Record>>, c: seq<nat>, i: nat, r: Record) returns (at: nat)
    requires i < |c| && c[i] < |recs|
    requires forall j :: 0 <= j < |c| && j != i ==> c[j] != c[i]
    ensures at <= |Flat(recs, c)|
    ensures Flat(recs[c[i] := recs[c[i]] + [r]], c) == Flat(recs, c)[..at] + [r] + Flat(recs, c)[at..]
  {
    FlatUpdate(recs, c, i, recs[c[i]] + [r]);
    FlatAt(recs, c, i);
    var a, b := Flat(recs, c[..i]) + recs[c[i]], Flat(recs, c[i + 1..]);
    at := |a|;
    assert Flat(recs, c)[..at] == a && Flat(recs, c)[at..] == b;
    assert Flat(recs, c[..i]) + (recs[c[i]] + [r]) == a + [r];
  }

  /** Element m of the middle of three lists, seen from the whole list. */
  lemma Around<T>(a: seq<T>, s: seq<T>, b: seq<T>, m: nat)
    requires m < |s|
    ensures (a + s + b)[|a| + m] == s[m]
    ensures (a + s + b)[..|a| + m] == a + s[..m] && (a + s + b)[|a| + m + 1..] == s[m + 1..] + b
    ensures a + (s[..m] + s[m + 1..]) + b == a + s[..m] + (s[m + 1..] + b)
    ensures a + s + b == a + s[..m] + [s[m]] + (s[m + 1..] + b)
  {}

  lemma ChainsJoined(chains: map<int, seq<nat>>, h: int, id: nat)
    requires h in chains && id !in chains
    ensures (chains[id := [id]] - {id})[h := chains[h] + [id]] == chains[h := chains[h] + [id]]
  {
    assert chains[id := [id]] - {id} == chains;
  }

  /** The same with record m of bucket i taken out. */
  lemma RemovedAt(recs: seq<seq<Record>>, c: seq<nat>, i: nat, m: nat) returns (at: nat)
    requires i < |c| && c[i] < |recs| && m < |recs[c[i]]|
    requires forall j :: 0 <= j < |c| && j != i ==> c[j] != c[i]
    ensures at < |Flat(recs, c)| && Flat(recs, c)[at] == recs[c[i]][m]
    ensures Flat(recs[c[i] := recs[c[i]][..m] + recs[c[i]][m + 1..]], c) ==
      Flat(recs, c)[..at] + Flat(recs, c)[at + 1..]
  {
    var rs := recs[c[i]];
    FlatUpdate(recs, c, i, rs[..m] + rs[m + 1..]);
    FlatAt(recs, c, i);
    var a, b := Flat(recs, c[..i]), Flat(recs, c[i + 1..]);
    at := |a| + m;
    Around(a, rs, b, m);
  }

  /** And with record m of bucket i replaced. */
  lemma ReplacedAt(recs: seq<seq<Record>>, c: seq<nat>, i: nat, m: nat, r: Record) returns (at: nat)
    requires i < |c| && c[i] < |recs| && m < |recs[c[i]]|
    requires forall j :: 0 <= j < |c| && j != i ==> c[j] != c[i]
    ensures at < |Flat(recs, c)| && Flat(recs, c)[at] == recs[c[i]][m]
    ensures Flat(recs[c[i] := recs[c[i]][m := r]], c) == Flat(recs, c)[..at] + [r] + Flat(recs, c)[at + 1..]
  {
    var rs := recs[c[i]];
    FlatUpdate(recs, c, i, rs[m := r]);
    FlatAt(recs, c, i);
    var a, b := Flat(recs, c[..i]), Flat(recs, c[i + 1..]);
    at := |a| + m;
    Around(a, rs, b, m);
    Around(a, rs[m := r], b, m);
  }

  /** Bucket i of chain `h`: its bytes and its link. */
  lemma ChainStep(bs: seq<Bucket>, firstFree: int, s: Shape, recs: seq<seq<Record>>, h: int, i: nat)
    requires SoundStore(bs, firstFree, s, recs) && h in s.chains && i < |s.chains[h]|
    ensures var b := s.chains[h][i];
      && b < |bs| && Holds(bs[b], recs[b]) && bs[b].next == NextInChain(s.chains[h], i)
      && s.owner[b] == h && forall j :: 0 <= j < |s.chains[h]| && j != i ==> s.chains[h][j] != b
  {
    assert Unfold(0);
    var b := s.chains[h][i];
    assert s.owner[b] == h && s.pos[b] == i;
    assert bs[b].next == NextOf(|bs|, s, b);
  }

  /** The id stored as the link of place i. */
  function NextInChain(c: seq<nat>, i: nat): int {
    if i + 1 < |c| then c[i + 1] else INVALID
  }

  /** No match in one more bucket. */
  lemma NotInPrefix(recs: seq<seq<Record>>, c: seq<nat>, i: nat, id: Key)
    requires i < |c| && FindIn(Flat(recs, c[..i]), id) == None
    requires forall j :: 0 <= j < |At(recs, c[i])| ==> At(recs, c[i])[j].Id() != id
    ensures FindIn(Flat(recs, c[..i + 1]), id) == None
  {
    assert c[..i + 1] == c[..i] + [c[i]];
    FlatAppend(recs, c[..i], [c[i]]);
    FlatOne(recs, c[i]);
    FindInAppend(Flat(recs, c[..i]), At(recs, c[i]), id);
    FindInNone(At(recs, c[i]), id);
  }

  /** The first match of bucket i, where no earlier bucket has one, is the chain's first match. */
  lemma FirstMatch(recs: seq<seq<Record>>, c: seq<nat>, i: nat, m: nat)
    requires i < |c| && m < |At(recs, c[i])|
    requires FindIn(Flat(recs, c[..i]), At(recs, c[i])[m].Id()) == None
    requires forall j :: 0 <= j < m ==> At(recs, c[i])[j].Id() != At(recs, c[i])[m].Id()
    ensures FindIn(Flat(recs, c), At(recs, c[i])[m].Id()) == Some(At(recs, c[i])[m].value)
  {
    var rs := At(recs, c[i]);
    var id := rs[m].Id();
    var before, after := Flat(recs, c[..i]), Flat(recs, c[i + 1..]);
    FlatAt(recs, c, i);
    Assoc(before, rs, after);
    FindInAppend(before, rs + after, id);
    FindInAppend(rs, after, id);
    assert rs == rs[..m] + [rs[m]] + rs[m + 1..];
    FindInHit(rs[..m], rs[m], rs[m + 1..]);
  }

  lemma BucketHolds(bs: seq<Bucket>, firstFree: int, s: Shape, recs: seq<seq<Record>>, b: nat)
    requires SoundStore(bs, firstFree, s, recs) && b < |bs|
    ensures Holds(bs[b], recs[b])
  {
    assert Unfold(0);
  }

  /** A chain grown by a bucket with its prefix length stays uniform, and no prefix length changes. */
  lemma ExtendUniform(bs: seq<Bucket>, cs: seq<Bucket>, s: Shape, t: Shape, h: int, id: nat)
    requires Partition(|bs|, s) && Partition(|cs|, t) && Uniform(bs, s)
    requires h in s.chains && t.chains == s.chains[h := s.chains[h] + [id]]
    requires Extends(bs, cs, s.chains[h][|s.chains[h]| - 1], id)
    requires cs[id].prefixBits == bs[s.chains[h][|s.chains[h]| - 1]].prefixBits
    ensures Uniform(cs, t)
    ensures forall g :: g in s.chains ==> cs[s.chains[g][0]].prefixBits == bs[s.chains[g][0]].prefixBits
  {
    assert UnfoldPrefixes(0);
    var last := s.chains[h][|s.chains[h]| - 1];
    assert t.chains[h][|s.chains[h]|] == id;
    forall g, i | g in s.chains && 0 <= i < |s.chains[g]|
      ensures cs[s.chains[g][i]].prefixBits == bs[s.chains[g][i]].prefixBits
    {
      assert t.chains[g][i] == s.chains[g][i];
    }
  }

  /** Appending a record to a bucket of a chain with room for it. */
  lemma AppendSound(bs: seq<Bucket>, firstFree: int, s: Shape, recs: seq<seq<Record>>, b: nat, r: Record)
    requires SoundStore(bs, firstFree, s, recs) && b < |bs| && s.owner[b] != INVALID
    requires bs[b].bytesUsed + |Encode(r)| <= BUCKET_SIZE
    ensures |bs[b].data| == BUCKET_SIZE
    ensures SoundStore(bs[b := Appended(bs[b], r)], firstFree, s, recs[b := recs[b] + [r]])
  {
    BucketHolds(bs, firstFree, s, recs, b);
    AppendHolds(bs[b], recs[b], r);
    RewriteSound(bs, firstFree, s, recs, b, Appended(bs[b], r), recs[b] + [r]);
  }

  /** Rewriting one bucket of chain `h` leaves the contents of every other chain alone. */
  lemma OtherContents(n: nat, s: Shape, recs: seq<seq<Record>>, h: int, b: nat, rs: seq<Record>)
    requires Partition(n, s) && |recs| == n && b < n && s.owner[b] == h
    ensures forall g :: g in s.chains && g != h ==> Flat(recs[b := rs], s.chains[g]) == Flat(recs, s.chains[g])
  {
    forall g | g in s.chains && g != h
      ensures Flat(recs[b := rs], s.chains[g]) == Flat(recs, s.chains[g])
    {
      OtherChains(n, s, recs, h, b, rs, g);
    }
  }

  lemma AppendedOffset(b: Bucket, rs: seq<Record>, r: Record)
    requires Holds(b, rs)
    ensures Offset(rs + [r], |rs|) == b.bytesUsed
  {
    assert (rs + [r])[..|rs|] == rs;
  }

  /** Growing chain `h` by an empty bucket changes no contents. */
  lemma GrownContents(recs: seq<seq<Record>>, other: seq<seq<Record>>, chains: map<int, seq<nat>>, h: int, id: nat)
    requires SameRecords(recs, other) && At(other, id) == [] && h in chains
    ensures Flat(other, chains[h] + [id]) == Flat(recs, chains[h])
    ensures forall g :: g in chains ==> Flat(other, chains[g]) == Flat(recs, chains[g])
  {
    FlatAppend(other, chains[h], [id]);
    FlatOne(other, id);
    forall g | g in chains
      ensures Flat(other, chains[g]) == Flat(recs, chains[g])
    {
      SameContents(recs, other, chains[g]);
    }
  }

  /** Rewriting a bucket without touching its prefix length. */
  lemma RewriteUniform(bs: seq<Bucket>, s: Shape, b: nat, nb: Bucket)
    requires InRange(|bs|, s) && Uniform(bs, s) && b < |bs| && nb.prefixBits == bs[b].prefixBits
    ensures Uniform(bs[b := nb], s)
  {
    assert UnfoldPrefixes(0);
  }

  /** What follows from rewriting place i of chain `h` to hold `rs`. */
  ghost predicate Rewritten(bs: seq<Bucket>, firstFree: int, s: Shape, recs: seq<seq<Record>>, h: int, i: nat,
                            nb: Bucket, rs: seq<Record>)
    requires InRange(|bs|, s) && |recs| == |bs| && h in s.chains && i < |s.chains[h]|
  {
    var b := s.chains[h][i];
    && SoundStore(bs[b := nb], firstFree, s, recs[b := rs])
    && Uniform(bs[b := nb], s)
    && nb.prefixBits == bs[b].prefixBits
    && (forall g :: g in s.chains && g != h ==> Flat(recs[b := rs], s.chains[g]) == Flat(recs, s.chains[g]))
  }

  lemma RewriteChain(bs: seq<Bucket>, firstFree: int, s: Shape, recs: seq<seq<Record>>, h: int, i: nat,
                     nb: Bucket, rs: seq<Record>)
    requires SoundStore(bs, firstFree, s, recs) && Uniform(bs, s) && h in s.chains && i < |s.chains[h]|
    requires nb.next == bs[s.chains[h][i]].next && nb.prefixBits == bs[s.chains[h][i]].prefixBits && Holds(nb, rs)
    ensures Rewritten(bs, firstFree, s, recs, h, i, nb, rs)
  {
    var b := s.chains[h][i];
    ChainStep(bs, firstFree, s, recs, h, i);
    RewriteSound(bs, firstFree, s, recs, b, nb, rs);
    RewriteUniform(bs, s, b, nb);
    assert UnfoldIds(0);
    OtherContents(|bs|, s, recs, h, b, rs);
  }

  /** Appending record `r` to place i of chain `h`. */
  lemma PutSound(bs: seq<Bucket>, firstFree: int, s: Shape, recs: seq<seq<Record>>, h: int, i: nat, r: Record)
    returns (at: nat, nb: Bucket)
    requires SoundStore(bs, firstFree, s, recs) && Uniform(bs, s) && h in s.chains && i < |s.chains[h]|
    requires bs[s.chains[h][i]].bytesUsed + |Encode(r)| <= BUCKET_SIZE
    ensures var b := s.chains[h][i];
      && |bs[b].data| == BUCKET_SIZE && nb == Appended(bs[b], r)
      && Rewritten(bs, firstFree, s, recs, h, i, nb, recs[b] + [r])
      && Offset(recs[b] + [r], |recs[b]|) == bs[b].bytesUsed
      && at <= |Flat(recs, s.chains[h])|
      && Flat(recs[b := recs[b] + [r]], s.chains[h])
         == Flat(recs, s.chains[h])[..at] + [r] + Flat(recs, s.chains[h])[at..]
  {
    var b := s.chains[h][i];
    ChainStep(bs, firstFree, s, recs, h, i);
    nb := Appended(bs[b], r);
    AppendHolds(bs[b], recs[b], r);
    RewriteChain(bs, firstFree, s, recs, h, i, nb, recs[b] + [r]);
    AppendedOffset(bs[b], recs[b], r);
    at := InsertedAt(recs, s.chains[h], i, r);
  }

  /** A bucket with record m shifted out. */
  function Shortened(b: Bucket, start: nat, end: nat): Bucket
    requires start <= end <= b.bytesUsed <= |b.data|
  {
    b.(data := Splice(b.data, start, b.data[end..b.bytesUsed]), bytesUsed := b.bytesUsed - (end - start))
  }

  /** Removing record m of place i of chain `h`. */
  lemma RemoveSound(bs: seq<Bucket>, firstFree: int, s: Shape, recs: seq<seq<Record>>, h: int, i: nat, m: nat)
    returns (at: nat, nb: Bucket, rs: seq<Record>)
    requires SoundStore(bs, firstFree, s, recs) && Uniform(bs, s) && h in s.chains && i < |s.chains[h]|
    requires m < |recs[s.chains[h][i]]|
    ensures var b := s.chains[h][i]; var start := Offset(recs[b], m); var end := start + |Encode(recs[b][m])|;
      && end <= bs[b].bytesUsed <= |bs[b].data| && nb == Shortened(bs[b], start, end)
      && rs == recs[b][..m] + recs[b][m + 1..]
      && Rewritten(bs, firstFree, s, recs, h, i, nb, rs)
      && at < |Flat(recs, s.chains[h])| && Flat(recs, s.chains[h])[at] == recs[b][m]
      && Flat(recs[b := rs], s.chains[h]) == Flat(recs, s.chains[h])[..at] + Flat(recs, s.chains[h])[at + 1..]
  {
    var b := s.chains[h][i];
    rs := recs[b][..m] + recs[b][m + 1..];
    ChainStep(bs, firstFree, s, recs, h, i);
    HeldRecord(bs[b], recs[b], m);
    RemoveHolds(bs[b], recs[b], m);
    nb := Shortened(bs[b], Offset(recs[b], m), Offset(recs[b], m + 1));
    RewriteChain(bs, firstFree, s, recs, h, i, nb, rs);
    at := RemovedAt(recs, s.chains[h], i, m);
  }

  /** A bucket with bytes stored over a stretch of its data. */
  function Stored(b: Bucket, p: nat, value: seq<byte>): Bucket
    requires p + |value| <= |b.data|
  {
    b.(data := Splice(b.data, p, value))
  }

  /** Overwriting the value of record m of place i of chain `h`. */
  lemma OverwriteSound(bs: seq<Bucket>, firstFree: int, s: Shape, recs: seq<seq<Record>>, h: int, i: nat, m: nat,
                       value: seq<byte>) returns (at: nat, nb: Bucket, rs: seq<Record>)
    requires SoundStore(bs, firstFree, s, recs) && Uniform(bs, s) && h in s.chains && i < |s.chains[h]|
    requires m < |recs[s.chains[h][i]]| && |value| == |recs[s.chains[h][i]][m].value|
    ensures var b := s.chains[h][i]; var r := recs[b][m]; var p := KeyOffset(Offset(recs[b], m), r) + |r.key|;
      && p + |value| <= |bs[b].data| && nb == Stored(bs[b], p, value) && rs == recs[b][m := r.(value := value)]
      && Rewritten(bs, firstFree, s, recs, h, i, nb, rs)
      && at < |Flat(recs, s.chains[h])| && Flat(recs, s.chains[h])[at] == r
      && Flat(recs[b := rs], s.chains[h]) ==
           Flat(recs, s.chains[h])[..at] + [r.(value := value)] + Flat(recs, s.chains[h])[at + 1..]
  {
    var b := s.chains[h][i];
    var r := recs[b][m];
    rs := recs[b][m := r.(value := value)];
    ChainStep(bs, firstFree, s, recs, h, i);
    OverwriteHolds(bs[b], recs[b], m, value);
    nb := Stored(bs[b], KeyOffset(Offset(recs[b], m), r) + |r.key|, value);
    RewriteChain(bs, firstFree, s, recs, h, i, nb, rs);
    at := ReplacedAt(recs, s.chains[h], i, m, r.(value := value));
  }

  /** The links of the buckets `c` spell out that chain. */
  ghost predicate LinksChain(bs: seq<Bucket>, c: seq<nat>) {
    forall t {:trigger bs[c[t]]} :: 0 <= t < |c| ==> c[t] < |bs| && bs[c[t]].next == NextInChain(c, t)
  }

  lemma ChainLinks(bs: seq<Bucket>, firstFree: int, s: Shape, recs: seq<seq<Record>>, h: int)
    requires SoundStore(bs, firstFree, s, recs) && h in s.chains
    ensures LinksChain(bs, s.chains[h])
  {
    forall t | 0 <= t < |s.chains[h]|
      ensures bs[s.chains[h][t]].next == NextInChain(s.chains[h], t)
    {
      ChainStep(bs, firstFree, s, recs, h, t);
    }
  }
}
