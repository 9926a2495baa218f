/** Iterating over the map: bucket by bucket along the chains, chain by chain along the directory. */
module IterationModule {
  import opened Bits
  import opened Prefixes
  import opened Records
  import opened Contents
  import opened Buckets
  import opened Store
  import opened Splitting
  import opened Directory
  import opened HashMapModule

  // ------------------------------------------------------- the blocks of the directory

  lemma DivMonotone(i: nat, j: nat, w: nat)
    requires i <= j && w > 0
    ensures i / w <= j / w
  {
    DivNat(i, w);
    DivNat(j, w);
    var a, b := i / w, j / w;
    assert a * w <= i && j < (b + 1) * w;
    MulMonotone(b + 1, a, w);
  }

  /** Entries for equal ids lie next to each other. */
  ghost predicate Contiguous(entries: seq<int>) {
    forall i, j, k :: 0 <= i <= j <= k < |entries| && entries[i] == entries[k] ==> entries[j] == entries[i]
  }

  /** Chain `h` owns exactly one aligned block of entries. */
  ghost predicate OwnsBlock(entries: seq<int>, h: int, width: nat, q: nat) {
    width > 0 && forall i :: 0 <= i < |entries| ==> (entries[i] == h <==> i / width == q)
  }

  lemma DepthBounds(m: HashMap, h: int)
    requires m.Valid() && h in m.container.shape.chains
    ensures 1 <= m.container.buckets[h].prefixBits <= m.catalogue.prefixBits
    ensures h in m.prefix && m.prefix[h] < Pow2(m.container.buckets[h].prefixBits)
  {
    assert UnfoldModel(0);
    assert h in m.Directory().depth;
  }

  /** In every reachable state a chain of local depth k is referenced by exactly the aligned block of
      2^(D - k) entries for its prefix. */
  lemma AlignedBlock(m: HashMap, h: int)
    requires m.Valid() && h in m.container.shape.chains
    ensures var k := m.container.buckets[h].prefixBits;
      && 1 <= k <= m.catalogue.prefixBits && h in m.prefix && m.prefix[h] < Pow2(k)
      && OwnsBlock(m.catalogue.buffer[..], h, Pow2(m.catalogue.prefixBits - k), m.prefix[h])
  {
    DepthBounds(m, h);
    var d, k, entries := m.catalogue.prefixBits, m.container.buckets[h].prefixBits, m.catalogue.buffer[..];
    forall i | 0 <= i < |entries|
      ensures entries[i] == h <==> i / Pow2(d - k) == m.prefix[h]
    {
      EntryAnswers(m, h, i);
    }
  }

  lemma EntryAnswers(m: HashMap, h: int, i: nat)
    requires m.Valid() && h in m.container.shape.chains && i < m.catalogue.buffer.Length
    ensures h in m.prefix && m.container.buckets[h].prefixBits <= m.catalogue.prefixBits
    ensures m.catalogue.buffer[i] == h <==>
      i / Pow2(m.catalogue.prefixBits - m.container.buckets[h].prefixBits) == m.prefix[h]
  {
    var d := m.catalogue.prefixBits;
    TopOnto(i, d);
    var x: Hash := i * Pow2(HASH_BITS - d);
    assert UnfoldModel(0) && UnfoldRoutes(0) && UnfoldBlocks(0);
    assert h in m.Directory().depth;
    assert Answers(m.Directory(), h, x);
    assert m.route[x] == m.catalogue.Find(x) == m.catalogue.buffer[i];
    TopNested(x, m.container.buckets[h].prefixBits, d);
  }

  lemma BlockContiguous(entries: seq<int>, h: int, width: nat, q: nat, i: nat, j: nat, k: nat)
    requires OwnsBlock(entries, h, width, q) && i <= j <= k < |entries| && entries[i] == h == entries[k]
    ensures entries[j] == h
  {
    DivMonotone(i, j, width);
    DivMonotone(j, k, width);
  }

  /** Every entry names a chain. */
  lemma EntryIsHead(m: HashMap, i: nat)
    requires m.Valid() && i < m.catalogue.buffer.Length
    ensures m.catalogue.buffer[i] in m.container.shape.chains
  {
    var d := m.catalogue.prefixBits;
    TopOnto(i, d);
    var x: Hash := i * Pow2(HASH_BITS - d);
    assert UnfoldRoutes(0);
    assert m.route[x] == m.catalogue.Find(x) == m.catalogue.buffer[i];
    assert m.Directory().route[x] in m.Stored();
  }

  lemma EntriesContiguous(m: HashMap)
    requires m.Valid()
    ensures Contiguous(m.catalogue.buffer[..])
  {
    var entries := m.catalogue.buffer[..];
    forall i, j, k | 0 <= i <= j <= k < |entries| && entries[i] == entries[k]
      ensures entries[j] == entries[i]
    {
      var h := entries[i];
      EntryIsHead(m, i);
      AlignedBlock(m, h);
      var width := Pow2(m.catalogue.prefixBits - m.container.buckets[h].prefixBits);
      BlockContiguous(entries, h, width, m.prefix[h], i, j, k);
    }
  }

  // ------------------------------------------------------------ the records in walking order

  /** The records met from directory entry `i` on, each chain at its first entry. */
  ghost function Walk(entries: seq<int>, cs: Chains, i: nat): seq<Record>
    decreases |entries| - i
  {
    if i >= |entries| then []
    else if (i > 0 && entries[i] == entries[i - 1]) || entries[i] !in cs then Walk(entries, cs, i + 1)
    else cs[entries[i]] + Walk(entries, cs, i + 1)
  }

  /** Every record is on the chain its hash is routed to. */
  ghost predicate Home(cs: Chains, route: imap<Hash, int>) {
    && (forall x: Hash :: x in route)
    && forall h, i :: h in cs && 0 <= i < |cs[h]| ==> route[cs[h][i].hash] == h
  }

  /** A key is met exactly when the walk has not passed the first entry of its chain. */
  lemma {:induction false} WalkFind(entries: seq<int>, cs: Chains, route: imap<Hash, int>, i: nat, f: nat, id: Key)
    requires Contiguous(entries) && Home(cs, route) && i <= |entries|
    requires f < |entries| && entries[f] == route[id.0] && entries[f] in cs
    requires f > 0 ==> entries[f - 1] != entries[f]
    ensures FindIn(Walk(entries, cs, i), id) == if i <= f then FindIn(cs[entries[f]], id) else None
    decreases |entries| - i
  {
    if i < |entries| {
      WalkFind(entries, cs, route, i + 1, f, id);
      var g := entries[i];
      if !(i > 0 && g == entries[i - 1]) && g in cs {
        FindInAppend(cs[g], Walk(entries, cs, i + 1), id);
        if g != entries[f] {
          FindInNone(cs[g], id);
        } else {
          assert i == f;
        }
      }
    }
  }

  lemma DistinctAppend(a: seq<Record>, b: seq<Record>)
    requires DistinctIds(a) && DistinctIds(b)
    requires forall i :: 0 <= i < |a| ==> FindIn(b, a[i].Id()) == None
    ensures DistinctIds(a + b)
  {
    forall i, j | 0 <= i < j < |a + b|
      ensures (a + b)[i].Id() != (a + b)[j].Id()
    {
      if i < |a| <= j { FindInNone(b, a[i].Id()); }
    }
  }

  /** No record is met twice. */
  lemma {:induction false} WalkDistinct(entries: seq<int>, cs: Chains, route: imap<Hash, int>, i: nat)
    requires Contiguous(entries) && Home(cs, route) && i <= |entries|
    requires forall h :: h in cs ==> DistinctIds(cs[h])
    ensures DistinctIds(Walk(entries, cs, i))
    decreases |entries| - i
  {
    if i < |entries| {
      WalkDistinct(entries, cs, route, i + 1);
      var g := entries[i];
      if !(i > 0 && g == entries[i - 1]) && g in cs {
        forall j | 0 <= j < |cs[g]|
          ensures FindIn(Walk(entries, cs, i + 1), cs[g][j].Id()) == None
        {
          WalkFind(entries, cs, route, i + 1, i, cs[g][j].Id());
        }
        DistinctAppend(cs[g], Walk(entries, cs, i + 1));
      }
    }
  }

  lemma {:induction false} FirstEntry(entries: seq<int>, i: nat) returns (f: nat)
    requires i < |entries|
    ensures f <= i && entries[f] == entries[i] && (f > 0 ==> entries[f - 1] != entries[f])
  {
    f := i;
    if i > 0 && entries[i - 1] == entries[i] { f := FirstEntry(entries, i - 1); }
  }

  /** What the walk over the whole directory meets: the stored records, each exactly once. */
  ghost predicate ExactlyOnce(rs: seq<Record>, m: map<Key, seq<byte>>) {
    && DistinctIds(rs)
    && forall id: Key :: FindIn(rs, id) == Lookup(m, id)
  }

  lemma WalkExactlyOnce(m: HashMap)
    requires m.Valid()
    ensures ExactlyOnce(Walk(m.catalogue.buffer[..], m.Stored(), 0), m.model)
  {
    var entries, cs, route := m.catalogue.buffer[..], m.Stored(), m.route;
    EntriesContiguous(m);
    PlacedHome(m);
    WalkDistinct(entries, cs, route, 0);
    forall id: Key
      ensures FindIn(Walk(entries, cs, 0), id) == Lookup(m.model, id)
    {
      RepresentsLookup(m.Directory(), cs, m.model, id);
      var i := RouteEntry(m, id.0);
      var f := FirstEntry(entries, i);
      WalkFind(entries, cs, route, 0, f, id);
    }
  }

  lemma PlacedHome(m: HashMap)
    requires m.Valid()
    ensures Home(m.Stored(), m.route) && forall h :: h in m.Stored() ==> DistinctIds(m.Stored()[h])
  {
    assert UnfoldModel(0);
  }

  lemma RouteEntry(m: HashMap, x: Hash) returns (i: nat)
    requires m.Valid()
    ensures i < m.catalogue.buffer.Length && m.catalogue.buffer[i] == m.route[x]
  {
    assert UnfoldRoutes(0);
    i := m.catalogue.Slot(x);
    assert m.route[x] == m.catalogue.Find(x);
  }

  // ---------------------------------------------------------------------- the iterator

  /** The iterator stands before record `m` of place `t` of the chain of directory entry `ci`, and the
      records from there on are `rest`. */
  ghost predicate Position(entries: seq<int>, st: State, ci: nat, t: nat, m: nat, id: nat, off: nat, rest: seq<Record>)
  {
    && ci < |entries| && entries[ci] in st.s.chains
    && t < |st.s.chains[entries[ci]]| && id == st.s.chains[entries[ci]][t]
    && id < |st.recs| && m <= |st.recs[id]| && off == Offset(st.recs[id], m)
    && forall k :: Open(k) ==> rest == Ahead(entries, st, ci, t, m, id)
  }

  /** The rest of the bucket, of the chain and of the directory. */
  ghost function Ahead(entries: seq<int>, st: State, ci: nat, t: nat, m: nat, id: nat): seq<Record>
    requires ci < |entries| && entries[ci] in st.s.chains && t < |st.s.chains[entries[ci]]|
    requires id < |st.recs| && m <= |st.recs[id]|
  {
    st.recs[id][m..] + (Flat(st.recs, st.s.chains[entries[ci]][t + 1..]) + Walk(entries, StoredOf(st), ci + 1))
  }

  /** At the start of the chain of entry `ci`. */
  lemma AtEntry(entries: seq<int>, st: State, ci: nat)
    requires ci < |entries| && entries[ci] in st.s.chains && |st.s.chains[entries[ci]]| > 0
    requires st.s.chains[entries[ci]][0] < |st.recs|
    requires ci > 0 ==> entries[ci] != entries[ci - 1]
    ensures Position(entries, st, ci, 0, 0, st.s.chains[entries[ci]][0], 0, Walk(entries, StoredOf(st), ci))
  {
    var c := st.s.chains[entries[ci]];
    assert st.recs[c[0]][0..] == st.recs[c[0]] == At(st.recs, c[0]) && c[0 + 1..] == c[1..];
    StoredChain(st, entries[ci]);
    assert StoredOf(st)[entries[ci]] == Flat(st.recs, c) == At(st.recs, c[0]) + Flat(st.recs, c[1..]);
    Assoc(st.recs[c[0]], Flat(st.recs, c[1..]), Walk(entries, StoredOf(st), ci + 1));
  }

  /** From the end of a bucket to the next bucket of its chain. */
  lemma NextBucket(entries: seq<int>, st: State, ci: nat, t: nat, id: nat, off: nat, rest: seq<Record>)
    requires id < |st.recs| && Position(entries, st, ci, t, |st.recs[id]|, id, off, rest)
    requires t + 1 < |st.s.chains[entries[ci]]| && st.s.chains[entries[ci]][t + 1] < |st.recs|
    ensures Position(entries, st, ci, t + 1, 0, st.s.chains[entries[ci]][t + 1], 0, rest)
  {
    assert Open(0);
    var c := st.s.chains[entries[ci]];
    var b := c[t + 1];
    FlatHead(st.recs, c, t + 1);
    assert st.recs[id][|st.recs[id]|..] == [];
    assert st.recs[b][0..] == st.recs[b];
    Assoc(st.recs[b], Flat(st.recs, c[t + 2..]), Walk(entries, StoredOf(st), ci + 1));
  }

  /** From the end of a chain to the entries behind it. */
  lemma EndOfChain(entries: seq<int>, st: State, ci: nat, t: nat, id: nat, off: nat, rest: seq<Record>)
    requires id < |st.recs| && Position(entries, st, ci, t, |st.recs[id]|, id, off, rest)
    requires t + 1 == |st.s.chains[entries[ci]]|
    ensures rest == Walk(entries, StoredOf(st), ci + 1)
  {
    assert Open(0);
    assert st.recs[id][|st.recs[id]|..] == [];
    assert st.s.chains[entries[ci]][t + 1..] == [];
  }

  /** Past one record. */
  lemma PastRecord(entries: seq<int>, st: State, ci: nat, t: nat, m: nat, id: nat, off: nat, rest: seq<Record>)
    requires Position(entries, st, ci, t, m, id, off, rest) && m < |st.recs[id]|
    ensures rest != [] && rest[0] == st.recs[id][m]
    ensures Position(entries, st, ci, t, m + 1, id, Offset(st.recs[id], m + 1), rest[1..])
  {
    assert Open(0);
    assert st.recs[id][m..] == [st.recs[id][m]] + st.recs[id][m + 1..];
    assert rest[1..] ==
      st.recs[id][m + 1..] + (Flat(st.recs, st.s.chains[entries[ci]][t + 1..]) + Walk(entries, StoredOf(st), ci + 1));
  }

  /** The next entry that differs from the one before it. */
  method SkipRepeats(buffer: array<int>, index: nat, ghost cs: Chains) returns (next: nat)
    requires index < buffer.Length
    ensures index < next <= buffer.Length
    ensures next < buffer.Length ==> buffer[next] != buffer[next - 1]
    ensures Walk(buffer[..], cs, next) == Walk(buffer[..], cs, index + 1)
  {
    next := index + 1;
    while next < buffer.Length && buffer[next] == buffer[next - 1]
      invariant index < next <= buffer.Length
      invariant Walk(buffer[..], cs, next) == Walk(buffer[..], cs, index + 1)
    {
      next := next + 1;
    }
  }

  class ConstIterator {
    const hashMap: HashMap
    /** Set when the end is reached: no map any more. */
    var atEnd: bool
    var catalogueIndex: nat
    var bucketId: nat
    var byteOffset: nat

    /** The directory and the store iterated over. */
    ghost const entries: seq<int>
    ghost const st: State
    /** Place in the chain, record in the bucket, and the records still to come. */
    ghost var place: nat
    ghost var index: nat
    ghost var rest: seq<Record>

    /** The map is as it was when the iteration began. */
    ghost predicate Unmodified()
      reads hashMap, hashMap.catalogue, hashMap.catalogue.buffer, hashMap.container
    {
      && hashMap.catalogue.buffer[..] == entries && hashMap.container.Now() == st && hashMap.container.Sound()
      && forall i :: 0 <= i < |entries| ==> entries[i] in st.s.chains
    }

    ghost predicate Standing()
      reads this
    {
      !atEnd && Position(entries, st, catalogueIndex, place, index, bucketId, byteOffset, rest)
    }

    /** On a record, or at the end with nothing left. */
    ghost predicate Valid()
      reads this
    {
      if atEnd then rest == [] else Standing() && index < |st.recs[bucketId]|
    }

    /** The iterator at the first record. */
    constructor Begin(hashMap: HashMap)
      requires hashMap.Valid()
      ensures Valid() && Unmodified() && this.hashMap == hashMap
      ensures rest == Walk(hashMap.catalogue.buffer[..], hashMap.Stored(), 0)
    {
      this.hashMap := hashMap;
      catalogueIndex, byteOffset, atEnd, place, index := 0, 0, false, 0, 0;
      EntriesAreHeads(hashMap);
      bucketId := hashMap.catalogue.buffer[0];
      entries, st := hashMap.catalogue.buffer[..], hashMap.container.Now();
      rest := Walk(hashMap.catalogue.buffer[..], hashMap.Stored(), 0);
      new;
      AtEntry(entries, st, 0);
      FindNextRecord();
    }

    /** Go on to the next directory entry that differs from the one before it. */
    method NextEntry()
      requires Unmodified() && !atEnd && catalogueIndex < |entries|
      requires rest == Walk(entries, StoredOf(st), catalogueIndex + 1)
      modifies this
      ensures rest == old(rest) && catalogueIndex > old(catalogueIndex)
      ensures if atEnd then rest == [] else Standing()
    {
      var next := SkipRepeats(hashMap.catalogue.buffer, catalogueIndex, StoredOf(st));
      if next >= hashMap.catalogue.buffer.Length {
        catalogueIndex, atEnd := next, true;
      } else {
        AtEntry(entries, st, next);
        catalogueIndex, bucketId, byteOffset, place, index := next, hashMap.catalogue.buffer[next], 0, 0, 0;
      }
    }

    /** At the end of a bucket: go on to the next one of the chain or, at its end, to the next entry. */
    method NextBucketOrEntry()
      requires Unmodified() && Standing() && index == |st.recs[bucketId]|
      modifies this
      ensures rest == old(rest)
      ensures if atEnd then rest == []
        else Standing() && (catalogueIndex > old(catalogueIndex) ||
                            (catalogueIndex == old(catalogueIndex) && place > old(place)))
    {
      ChainStep(st.bs, st.firstFree, st.s, st.recs, entries[catalogueIndex], place);
      var next := hashMap.container.buckets[bucketId].next;
      if next != INVALID {
        NextBucket(entries, st, catalogueIndex, place, bucketId, byteOffset, rest);
        bucketId, byteOffset, place, index := next, 0, place + 1, 0;
      } else {
        EndOfChain(entries, st, catalogueIndex, place, bucketId, byteOffset, rest);
        NextEntry();
      }
    }

    /** Stay on a record at the current position or go forward to the next one, past empty buckets and
        over entries that repeat a bucket. */
    method FindNextRecord()
      requires Unmodified() && Standing()
      modifies this
      ensures Valid() && rest == old(rest)
    {
      while true
        invariant Unmodified() && Standing() && rest == old(rest)
        decreases |entries| - catalogueIndex, |st.s.chains[entries[catalogueIndex]]| - place
      {
        var found, probe, record := hashMap.container.ReadRecord(bucketId, byteOffset, index);
        if found {
          return;
        }
        NextBucketOrEntry();
        if atEnd {
          return;
        }
      }
    }

    /** The current record. */
    method Deref() returns (record: Record)
      requires Unmodified() && Valid() && !atEnd
      ensures rest != [] && record == rest[0]
    {
      PastRecord(entries, st, catalogueIndex, place, index, bucketId, byteOffset, rest);
      var found, next;
      found, next, record := hashMap.container.ReadRecord(bucketId, byteOffset, index);
    }

    /** Skip the current record. */
    method Next()
      requires Unmodified() && Valid() && !atEnd
      modifies this
      ensures Valid() && old(rest) != [] && rest == old(rest)[1..]
    {
      PastRecord(entries, st, catalogueIndex, place, index, bucketId, byteOffset, rest);
      var found, record;
      found, byteOffset, record := hashMap.container.ReadRecord(bucketId, byteOffset, index);
      index, rest := index + 1, rest[1..];
      FindNextRecord();
    }
  }

  lemma EntriesAreHeads(m: HashMap)
    requires m.Valid()
    ensures forall i :: 0 <= i < m.catalogue.buffer.Length ==> m.catalogue.buffer[i] in m.container.shape.chains
  {
    forall i | 0 <= i < m.catalogue.buffer.Length
      ensures m.catalogue.buffer[i] in m.container.shape.chains
    {
      EntryIsHead(m, i);
    }
  }

  /** Run an iterator to the end. */
  method Drain(it: ConstIterator) returns (out: seq<(seq<byte>, seq<byte>)>)
    requires it.Unmodified() && it.Valid()
    modifies it
    ensures |out| == |old(it.rest)|
    ensures forall i :: 0 <= i < |out| ==> out[i] == (old(it.rest)[i].key, old(it.rest)[i].value)
  {
    ghost var all, rs := it.rest, [];
    out := [];
    while !it.atEnd
      invariant it.Valid() && it.Unmodified() && rs + it.rest == all
      invariant |out| == |rs| && forall i :: 0 <= i < |rs| ==> out[i] == (rs[i].key, rs[i].value)
      decreases |it.rest|
    {
      var record := it.Deref();
      SameTotal(rs, it.rest);
      out, rs := out + [(record.key, record.value)], rs + [record];
      it.Next();
    }
    assert rs == all;
  }

  /** The keys and values of the records of `m`, each record once. */
  ghost predicate Enumerates(out: seq<(seq<byte>, seq<byte>)>, m: map<Key, seq<byte>>) {
    exists rs :: ExactlyOnce(rs, m) && out == Pairs(rs)
  }

  function Pairs(rs: seq<Record>): seq<(seq<byte>, seq<byte>)> {
    seq(|rs|, i requires 0 <= i < |rs| => (rs[i].key, rs[i].value))
  }

  /** Iterating from begin to end over a map nobody modifies yields every stored record exactly once. */
  method Collect(m: HashMap) returns (out: seq<(seq<byte>, seq<byte>)>)
    requires m.Valid()
    ensures Enumerates(out, m.model)
  {
    WalkExactlyOnce(m);
    var it := new ConstIterator.Begin(m);
    ghost var rs := it.rest;
    out := Drain(it);
    assert out == Pairs(rs);
  }
}
