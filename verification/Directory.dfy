/** Extendible hashing as values: which hash is routed to which chain, and the map that the chains stand for. */
module Directory {
  import opened Bits
  import opened Prefixes
  import opened Records
  import opened Contents

  /** For every hash the chain it is routed to; for every chain its local depth and the prefix it
      answers for; and the depth of the directory. */
  datatype Dir = Dir(route: imap<Hash, int>, depth: map<int, nat>, prefix: map<int, nat>, bits: nat)

  /** The records of every chain. */
  type Chains = map<int, seq<Record>>

  /** Mentioning this makes the last part of Routed available. */
  predicate UnfoldBlocks(k: int) { true }

  /** A hash is routed to chain `h` exactly when it begins with the prefix of `h`. */
  ghost predicate Answers(d: Dir, h: int, x: Hash)
    requires h in d.depth && h in d.prefix && x in d.route && d.depth[h] <= HASH_BITS
  {
    d.route[x] == h <==> Top(x, d.depth[h]) == d.prefix[h]
  }

  /** The extendible-hashing invariant: a chain with local depth k answers for exactly the hashes that
      share its k-bit prefix, and k is between 1 and the directory's depth. */
  ghost predicate Routed(d: Dir) {
    && d.bits <= HASH_BITS && d.prefix.Keys == d.depth.Keys
    && (forall x: Hash :: x in d.route && d.route[x] in d.depth)
    && (forall h :: h in d.depth ==> 1 <= d.depth[h] <= d.bits && d.prefix[h] < Pow2(d.depth[h]))
    && (forall k :: UnfoldBlocks(k) ==> forall h, x: Hash :: h in d.depth ==> Answers(d, h, x))
  }

  /** Every record is on the chain its hash is routed to, and no chain holds a key twice. */
  ghost predicate Placed(d: Dir, cs: Chains)
    requires Routed(d)
  {
    && cs.Keys == d.depth.Keys
    && (forall h :: h in cs ==> DistinctIds(cs[h]))
    && (forall h, i :: h in cs && 0 <= i < |cs[h]| ==> d.route[cs[h][i].hash] == h)
  }

  function Lookup(m: map<Key, seq<byte>>, id: Key): Option<seq<byte>> {
    if id in m then Some(m[id]) else None
  }

  /** Looking a key up on the chain its hash is routed to gives what the map says. */
  ghost predicate Abstracts(d: Dir, cs: Chains, m: map<Key, seq<byte>>)
    requires Routed(d) && cs.Keys == d.depth.Keys
  {
    forall id: Key :: FindIn(cs[d.route[id.0]], id) == Lookup(m, id)
  }

  /** Mentioning this makes the definition of Represents available. */
  predicate UnfoldModel(k: int) { true }

  /** The chains, reached through the directory, stand for the map `m`. */
  ghost predicate Represents(d: Dir, cs: Chains, m: map<Key, seq<byte>>) {
    && (forall x: Hash :: x in d.route && d.route[x] in cs)
    && forall k :: UnfoldModel(k) ==> Routed(d) && Placed(d, cs) && Abstracts(d, cs, m)
  }

  /** A record with a new key enters the chain it is routed to. */
  lemma InsertRepresents(d: Dir, cs: Chains, m: map<Key, seq<byte>>, r: Record, at: nat)
    requires Represents(d, cs, m) && r.Id() !in m && at <= |cs[d.route[r.hash]]|
    ensures var h := d.route[r.hash];
      Represents(d, cs[h := cs[h][..at] + [r] + cs[h][at..]], m[r.Id() := r.value])
  {
    assert UnfoldModel(0);
    var h := d.route[r.hash];
    var a, b := cs[h][..at], cs[h][at..];
    assert cs[h] == a + b;
    assert FindIn(cs[h], r.Id()) == None;
    InsertDistinct(a, r, b);
    var cs' := cs[h := a + [r] + b];
    InsertedRoutes(d, h, a, r, b);
    forall id: Key
      ensures FindIn(cs'[d.route[id.0]], id) == Lookup(m[r.Id() := r.value], id)
    {
      if d.route[id.0] == h { InsertFind(a, r, b, id); }
    }
  }

  lemma InsertedRoutes(d: Dir, h: int, a: seq<Record>, r: Record, b: seq<Record>)
    requires forall x: Hash :: x in d.route
    requires d.route[r.hash] == h && forall i :: 0 <= i < |a + b| ==> d.route[(a + b)[i].hash] == h
    ensures forall i :: 0 <= i < |a + [r] + b| ==> d.route[(a + [r] + b)[i].hash] == h
  {
    forall i | 0 <= i < |a + [r] + b| && i != |a|
      ensures d.route[(a + [r] + b)[i].hash] == h
    {
      assert (a + [r] + b)[i] == (a + b)[if i < |a| then i else i - 1];
    }
  }

  /** A record leaves its chain. */
  lemma RemoveRepresents(d: Dir, cs: Chains, m: map<Key, seq<byte>>, h: int, at: nat)
    requires Represents(d, cs, m) && h in cs && at < |cs[h]|
    ensures Represents(d, cs[h := cs[h][..at] + cs[h][at + 1..]], m - {cs[h][at].Id()})
  {
    assert UnfoldModel(0);
    var a, r, b := cs[h][..at], cs[h][at], cs[h][at + 1..];
    assert cs[h] == a + [r] + b;
    RemoveDistinct(a, r, b);
    var cs' := cs[h := a + b];
    forall i | 0 <= i < |a + b|
      ensures d.route[(a + b)[i].hash] == h
    {
      assert (a + b)[i] == cs[h][if i < at then i else i + 1];
    }
    forall id: Key
      ensures FindIn(cs'[d.route[id.0]], id) == Lookup(m - {r.Id()}, id)
    {
      if d.route[id.0] == h { RemoveFind(a, r, b, id); }
    }
  }

  /** A record gets another value. */
  lemma ReplaceRepresents(d: Dir, cs: Chains, m: map<Key, seq<byte>>, h: int, at: nat, value: seq<byte>)
    requires Represents(d, cs, m) && h in cs && at < |cs[h]|
    ensures Represents(d, cs[h := cs[h][..at] + [cs[h][at].(value := value)] + cs[h][at + 1..]],
                       m[cs[h][at].Id() := value])
  {
    assert UnfoldModel(0);
    var a, r, b := cs[h][..at], cs[h][at], cs[h][at + 1..];
    var s := r.(value := value);
    assert cs[h] == a + [r] + b;
    var cs' := cs[h := a + [s] + b];
    forall i | 0 <= i < |a + [s] + b|
      ensures d.route[(a + [s] + b)[i].hash] == h
    {
      assert (a + [s] + b)[i].hash == cs[h][i].hash;
    }
    ReplaceFind(a, r, s, b, r.Id());
    forall id: Key
      ensures FindIn(cs'[d.route[id.0]], id) == Lookup(m[r.Id() := value], id)
    {
      if d.route[id.0] == h { ReplaceFind(a, r, s, b, id); }
    }
  }

  // ------------------------------------------------------------- splitting a chain

  /** Chain `h`, to which `hash` is routed, can be split, `n` being the head of the new chain. */
  ghost predicate Splittable(d: Dir, h: int, n: int, hash: Hash) {
    Routed(d) && h in d.depth && d.depth[h] < d.bits && n !in d.depth && d.route[hash] == h
  }

  /** The bit by which chain `h` is split. */
  function NewBit(d: Dir, h: int): nat
    requires h in d.depth && d.depth[h] < HASH_BITS
  {
    HASH_BITS - d.depth[h] - 1
  }

  /** The prefix of `h` with one more bit: clear for `h`, set for `n`. */
  function Lengthened(prefix: map<int, nat>, h: int, n: int): map<int, nat>
    requires h in prefix
  {
    prefix[h := 2 * prefix[h]][n := 2 * prefix[h] + 1]
  }

  /** The directory after the entries with the prefix of `hash` and the new bit set point to `n`. */
  ghost predicate IsSplitDir(d: Dir, e: Dir, h: int, n: int, hash: Hash)
    requires Splittable(d, h, n, hash)
  {
    var k := d.depth[h];
    && e.bits == d.bits
    && e.depth == d.depth[h := k + 1][n := k + 1] && e.prefix == Lengthened(d.prefix, h, n)
    && (forall x: Hash :: x in e.route)
    && forall x: Hash :: e.route[x] == if Top(x, k + 1) == 2 * (Top(hash, k + 1) / 2) + 1 then n else d.route[x]
  }

  /** A longer prefix is a shorter one and a bit. */
  lemma PrefixBit(x: Hash, k: nat)
    requires k < HASH_BITS
    ensures Top(x, k + 1) == 2 * Top(x, k) + if HasBit(x, HASH_BITS - k - 1) then 1 else 0
  {
    TopStep(x, k);
  }

  /** Exactly the hashes of chain `h` with the new bit are routed anew. */
  lemma SplitRoute(d: Dir, e: Dir, h: int, n: int, hash: Hash, x: Hash)
    requires Splittable(d, h, n, hash) && IsSplitDir(d, e, h, n, hash)
    ensures e.route[x] == if d.route[x] == h && HasBit(x, NewBit(d, h)) then n else d.route[x]
  {
    PrefixBit(x, d.depth[h]);
    PrefixBit(hash, d.depth[h]);
    assert UnfoldBlocks(0);
    assert Answers(d, h, x) && Answers(d, h, hash);
  }

  lemma SplitOwner(d: Dir, e: Dir, h: int, n: int, hash: Hash, x: Hash, g: int)
    requires Splittable(d, h, n, hash) && IsSplitDir(d, e, h, n, hash) && g in e.depth
    ensures e.depth[g] <= HASH_BITS && Answers(e, g, x)
  {
    SplitRoute(d, e, h, n, hash, x);
    PrefixBit(x, d.depth[h]);
    assert UnfoldBlocks(0);
    assert Answers(d, h, x);
    if g != h && g != n { assert Answers(d, g, x); }
  }

  /** Both halves answer for their longer prefixes, all other chains as before. */
  lemma SplitRouted(d: Dir, e: Dir, h: int, n: int, hash: Hash)
    requires Splittable(d, h, n, hash) && IsSplitDir(d, e, h, n, hash)
    ensures Routed(e)
  {
    forall x: Hash
      ensures e.route[x] in e.depth
    {
      SplitRoute(d, e, h, n, hash, x);
    }
    forall g, x: Hash | g in e.depth
      ensures e.depth[g] <= HASH_BITS && Answers(e, g, x)
    {
      SplitOwner(d, e, h, n, hash, x, g);
    }
    assert Pow2(d.depth[h] + 1) == 2 * Pow2(d.depth[h]);
  }

  /** The records of chain `h` divided by the new bit. */
  function SplitChains(cs: Chains, h: int, n: int, bit: nat): Chains
    requires h in cs
  {
    cs[h := Select(cs[h], bit, false)][n := Select(cs[h], bit, true)]
  }

  /** The local depths and the chains after chain `h` has been split, `n` being the new chain. */
  ghost predicate ChainSplit(d: Dir, cs: Chains, h: int, n: int, depth: map<int, nat>, after: Chains) {
    && n !in d.depth && h in d.depth && h in cs && d.depth[h] < HASH_BITS && h in depth && depth[h] == d.depth[h] + 1
    && forall k :: UnfoldBlocks(k) ==>
         && depth == d.depth[h := d.depth[h] + 1][n := d.depth[h] + 1]
         && after == SplitChains(cs, h, n, NewBit(d, h))
  }

  lemma SplitPlace(d: Dir, e: Dir, cs: Chains, h: int, n: int, hash: Hash, g: int, i: nat)
    requires Splittable(d, h, n, hash) && IsSplitDir(d, e, h, n, hash) && Placed(d, cs)
    requires g in SplitChains(cs, h, n, NewBit(d, h)) && i < |SplitChains(cs, h, n, NewBit(d, h))[g]|
    ensures e.route[SplitChains(cs, h, n, NewBit(d, h))[g][i].hash] == g
  {
    var rs := SplitChains(cs, h, n, NewBit(d, h))[g];
    SplitRoute(d, e, h, n, hash, rs[i].hash);
    if g == h || g == n {
      SelectMember(cs[h], NewBit(d, h), g == n, rs[i]);
      assert rs[i] in rs && rs[i] in cs[h];
    } else {
      assert cs[g][i] == rs[i];
    }
  }

  lemma SplitPlaced(d: Dir, e: Dir, cs: Chains, h: int, n: int, hash: Hash)
    requires Splittable(d, h, n, hash) && IsSplitDir(d, e, h, n, hash) && Placed(d, cs) && Routed(e)
    ensures Placed(e, SplitChains(cs, h, n, NewBit(d, h)))
  {
    var cs': Chains := SplitChains(cs, h, n, NewBit(d, h));
    SelectDistinct(cs[h], NewBit(d, h), false);
    SelectDistinct(cs[h], NewBit(d, h), true);
    forall g: int, i: int | g in cs' && 0 <= i < |cs'[g]|
      ensures e.route[cs'[g][i].hash] == g
    {
      SplitPlace(d, e, cs, h, n, hash, g, i);
    }
  }

  lemma SplitFind(d: Dir, e: Dir, cs: Chains, h: int, n: int, hash: Hash, id: Key)
    requires Splittable(d, h, n, hash) && IsSplitDir(d, e, h, n, hash) && cs.Keys == d.depth.Keys && Routed(e)
    ensures FindIn(SplitChains(cs, h, n, NewBit(d, h))[e.route[id.0]], id) == FindIn(cs[d.route[id.0]], id)
  {
    SplitRoute(d, e, h, n, hash, id.0);
    SelectFind(cs[h], NewBit(d, h), false, id);
    SelectFind(cs[h], NewBit(d, h), true, id);
  }

  /** Splitting a chain changes neither what is stored nor whether it is found. */
  lemma SplitRepresents(d: Dir, e: Dir, cs: Chains, m: map<Key, seq<byte>>, h: int, n: int, hash: Hash)
    requires Represents(d, cs, m) && Splittable(d, h, n, hash) && IsSplitDir(d, e, h, n, hash)
    ensures Represents(e, SplitChains(cs, h, n, NewBit(d, h)), m)
    ensures hash in e.route && e.route[hash] == if HasBit(hash, NewBit(d, h)) then n else h
  {
    assert UnfoldModel(0);
    SplitRouted(d, e, h, n, hash);
    SplitRoute(d, e, h, n, hash, hash);
    SplitPlaced(d, e, cs, h, n, hash);
    var cs': Chains := SplitChains(cs, h, n, NewBit(d, h));
    forall id: Key
      ensures FindIn(cs'[e.route[id.0]], id) == Lookup(m, id)
    {
      SplitFind(d, e, cs, h, n, hash, id);
    }
  }

  /** A deeper directory with the same routes. */
  lemma DeeperRepresents(d: Dir, cs: Chains, m: map<Key, seq<byte>>)
    requires Represents(d, cs, m) && d.bits < HASH_BITS
    ensures Represents(d.(bits := d.bits + 1), cs, m)
  {
    assert UnfoldModel(0);
    var e := d.(bits := d.bits + 1);
    forall h, x: Hash | h in e.depth
      ensures Answers(e, h, x)
    {
      assert UnfoldBlocks(0);
      assert Answers(d, h, x);
    }
    assert Routed(e);
  }

  lemma RepresentsLookup(d: Dir, cs: Chains, m: map<Key, seq<byte>>, id: Key)
    requires Represents(d, cs, m)
    ensures FindIn(cs[d.route[id.0]], id) == Lookup(m, id)
  {
    assert UnfoldModel(0);
  }

  /** A chain that can be split because it is less deep than the directory. */
  lemma RepresentsSplittable(d: Dir, cs: Chains, m: map<Key, seq<byte>>, h: int, n: int, hash: Hash)
    requires Represents(d, cs, m) && h in d.depth && d.depth[h] < d.bits && n !in d.depth
    requires hash in d.route && d.route[hash] == h
    ensures Splittable(d, h, n, hash) && h in cs && h in d.prefix && d.bits <= HASH_BITS
  {
    assert UnfoldModel(0);
  }
}
