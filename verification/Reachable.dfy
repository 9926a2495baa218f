/** What holds of every state the map can reach: each follows from the invariant that the operations keep. */
module Reachable {
  import opened Bits
  import opened Prefixes
  import opened Records
  import opened Contents
  import opened Buckets
  import opened Store
  import opened Splitting
  import opened Directory
  import opened HashMapModule
  import opened IterationModule

  /** Id `b` is on the free list or on exactly one chain, at one place. */
  ghost predicate OnOneList(s: Shape, b: nat) {
    && (b in s.free || exists h :: h in s.chains && b in s.chains[h])
    && (forall h :: h in s.chains && b in s.chains[h] ==> b !in s.free)
    && (forall g, h :: g in s.chains && h in s.chains && b in s.chains[g] && b in s.chains[h] ==> g == h)
  }

  lemma ExactlyOneList(n: nat, s: Shape, b: nat)
    requires Partition(n, s) && b < n
    ensures OnOneList(s, b)
  {
    if s.owner[b] == INVALID {
      assert s.free[s.pos[b]] == b;
    } else {
      assert b in s.chains[s.owner[b]];
    }
  }

  lemma ListsDistinct(n: nat, s: Shape)
    requires Partition(n, s)
    ensures Distinct(s.free) && forall h :: h in s.chains ==> Distinct(s.chains[h])
  {}

  /** The free list as the links from its top spell it out. */
  ghost predicate LinksFree(bs: seq<Bucket>, firstFree: int, free: seq<nat>) {
    && firstFree == (if free == [] then INVALID else free[|free| - 1])
    && forall i {:trigger bs[free[i]]} :: 0 <= i < |free| ==>
         free[i] < |bs| && bs[free[i]].next == if i == 0 then INVALID else free[i - 1]
  }

  /** Every bucket of the file is on the free list or on exactly one chain; lists have no repetitions
      and end at INVALID; free buckets are empty. */
  lemma Conservation(m: HashMap)
    requires m.Valid()
    ensures var c := m.container;
      && (forall b :: 0 <= b < |c.buckets| ==> OnOneList(c.shape, b))
      && Distinct(c.shape.free) && LinksFree(c.buckets, c.firstFree, c.shape.free)
      && (forall h :: h in c.shape.chains ==> Distinct(c.shape.chains[h]) && LinksChain(c.buckets, c.shape.chains[h]))
      && (forall i :: 0 <= i < |c.shape.free| ==>
            c.shape.free[i] < |c.buckets| && c.buckets[c.shape.free[i]].bytesUsed == 0)
  {
    var c := m.container;
    FreeList(c.Now());
    forall h | h in c.shape.chains
      ensures LinksChain(c.buckets, c.shape.chains[h])
    {
      ChainLinks(c.buckets, c.firstFree, c.shape, c.recs, h);
    }
    assert UnfoldIds(0);
    forall b | 0 <= b < |c.buckets|
      ensures OnOneList(c.shape, b)
    {
      ExactlyOneList(|c.buckets|, c.shape, b);
    }
    ListsDistinct(|c.buckets|, c.shape);
  }

  lemma FirstFree(st: State)
    requires SoundState(st)
    ensures st.firstFree == if st.s.free == [] then INVALID else st.s.free[|st.s.free| - 1]
  {
    assert Unfold(0);
  }

  lemma FreeLink(st: State, i: nat)
    requires SoundState(st) && i < |st.s.free|
    ensures var b := st.s.free[i];
      && b < |st.bs| && At(st.recs, b) == []
      && st.bs[b].next == if i == 0 then INVALID else st.s.free[i - 1]
  {
    assert Unfold(0);
    var b := st.s.free[i];
    assert st.s.owner[b] == INVALID && st.s.pos[b] == i;
    assert st.bs[b].next == NextOf(|st.bs|, st.s, b);
  }

  lemma FreeList(st: State)
    requires SoundState(st)
    ensures LinksFree(st.bs, st.firstFree, st.s.free)
    ensures forall i :: 0 <= i < |st.s.free| ==> st.s.free[i] < |st.bs| && st.bs[st.s.free[i]].bytesUsed == 0
  {
    forall i | 0 <= i < |st.s.free|
      ensures st.s.free[i] < |st.bs| && st.bs[st.s.free[i]].bytesUsed == 0
      ensures st.bs[st.s.free[i]].next == if i == 0 then INVALID else st.s.free[i - 1]
    {
      FreeLink(st, i);
      NoBytes(st, st.s.free[i]);
    }
    FirstFree(st);
  }

  /** Every chain is reachable from the directory. */
  lemma HeadIsEntry(m: HashMap, h: int) returns (i: nat)
    requires m.Valid() && h in m.container.shape.chains
    ensures i < m.catalogue.buffer.Length && m.catalogue.buffer[i] == h
  {
    var k := m.container.buckets[h].prefixBits;
    DepthBounds(m, h);
    TopOnto(m.prefix[h], k);
    var x: Hash := m.prefix[h] * Pow2(HASH_BITS - k);
    assert m.route[x] == h by {
      assert UnfoldModel(0) && UnfoldBlocks(0);
      assert h in m.Directory().depth;
      assert Answers(m.Directory(), h, x);
    }
    i := RouteEntry(m, x);
  }

  lemma BucketPrefix(bs: seq<Bucket>, s: Shape, h: int, i: nat)
    requires InRange(|bs|, s) && Uniform(bs, s) && h in s.chains && i < |s.chains[h]|
    ensures bs[s.chains[h][i]].prefixBits == bs[h].prefixBits
  {
    assert UnfoldPrefixes(0);
  }

  lemma PlacedPrefix(d: Dir, cs: Chains, m: map<Key, seq<byte>>, h: int, j: nat)
    requires Represents(d, cs, m) && h in cs && j < |cs[h]|
    ensures h in d.depth && h in d.prefix && d.depth[h] <= HASH_BITS && Top(cs[h][j].hash, d.depth[h]) == d.prefix[h]
  {
    assert UnfoldModel(0) && UnfoldBlocks(0);
    assert Answers(d, h, cs[h][j].hash);
  }

  /** Every bucket of a chain, with records or without, carries its head's prefix length. */
  lemma ChainDepth(m: HashMap, h: int, i: nat)
    requires m.Valid() && h in m.container.shape.chains && i < |m.container.shape.chains[h]|
    ensures var k := m.container.buckets[h].prefixBits;
      && m.container.buckets[m.container.shape.chains[h][i]].prefixBits == k
      && 1 <= k <= m.catalogue.prefixBits && h in m.prefix && m.prefix[h] < Pow2(k)
  {
    DepthBounds(m, h);
    BucketPrefix(m.container.buckets, m.container.shape, h, i);
  }

  /** Every record on a chain begins with the prefix the chain answers for. */
  lemma ChainPrefix(m: HashMap, h: int, j: nat)
    requires m.Valid() && h in m.container.shape.chains && j < |m.container.Contents(h)|
    ensures h in m.prefix && m.container.buckets[h].prefixBits <= HASH_BITS
    ensures Top(m.container.Contents(h)[j].hash, m.container.buckets[h].prefixBits) == m.prefix[h]
  {
    DepthBounds(m, h);
    StoredChain(m.container.Now(), h);
    assert m.Stored()[h][j].hash == m.container.Contents(h)[j].hash;
    PlacedPrefix(m.Directory(), m.Stored(), m.model, h, j);
  }

  /** Space: the directory has fewer than twice as many entries as there are buckets, and the mapping
      covers every bucket and is at most a tenth longer than they need. */
  lemma SpaceBounds(m: HashMap)
    requires m.Valid()
    ensures m.catalogue.buffer.Length < 2 * |m.container.buckets| && m.catalogue.prefixBits <= HASH_BITS
    ensures 20 + 4096 * |m.container.buckets| <= m.container.mappedLength
    ensures 10 * m.container.mappedLength <= 11 * (20 + 4096 * |m.container.buckets|)
  {}
}
