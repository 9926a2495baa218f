/** The hash map: directory and container tied together. */
module HashMapModule {
  import opened Bits
  import opened Prefixes
  import opened Records
  import opened Contents
  import opened Buckets
  import opened Store
  import opened Splitting
  import opened Directory
  import opened CatalogueModule
  import opened ContainerModule

  /** Mentioning this makes the definition of Mirrors available. */
  predicate UnfoldRoutes(k: int) { true }

  /** The prefix length of every chain, and its records. */
  ghost function DepthsOf(st: State): map<int, nat>
    requires SoundState(st)
  {
    map h | h in st.s.chains :: st.bs[h].prefixBits
  }

  /** Mentioning this makes the definition of StoredOf available. */
  predicate UnfoldStored(k: int) { true }

  ghost predicate Listed(st: State, cs: Chains) {
    && cs.Keys == st.s.chains.Keys
    && forall k :: UnfoldStored(k) ==> cs == map h | h in st.s.chains :: Flat(st.recs, st.s.chains[h])
  }

  ghost function StoredOf(st: State): (cs: Chains)
    ensures Listed(st, cs)
  {
    assert Listed(st, map h | h in st.s.chains :: Flat(st.recs, st.s.chains[h]));
    var cs :| Listed(st, cs);
    cs
  }

  lemma StoredChain(st: State, h: int)
    requires h in st.s.chains
    ensures StoredOf(st)[h] == Flat(st.recs, st.s.chains[h])
  {
    assert UnfoldStored(0);
  }

  /** Only one chain has other records than before. */
  lemma OneStored(a: State, b: State, head: int)
    requires a.s.chains.Keys == b.s.chains.Keys && head in b.s.chains
    requires forall g :: g in b.s.chains && g != head ==> Flat(b.recs, b.s.chains[g]) == Flat(a.recs, a.s.chains[g])
    ensures StoredOf(b) == StoredOf(a)[head := Flat(b.recs, b.s.chains[head])]
  {
    forall g | g in b.s.chains
      ensures StoredOf(b)[g] == StoredOf(a)[head := Flat(b.recs, b.s.chains[head])][g]
    {
      StoredChain(a, g);
      StoredChain(b, g);
    }
  }

  /** What a split of the container does to them. */
  lemma SplitMaps(job: Job, st: State, kept: nat, d: Dir, cs: Chains)
    requires job.WellFormed() && IsSplit(job, st, kept) && job.p == job.start.bs[job.h].prefixBits + 1
    requires d.depth == DepthsOf(job.start) && cs == StoredOf(job.start)
    ensures ChainSplit(d, cs, job.h, job.n, DepthsOf(st), StoredOf(st))
  {
    SplitDepths(job, st, kept);
    SplitStored(job, st, kept);
    DescribeSplit(d, cs, job.h, job.n, job.p, DepthsOf(st), StoredOf(st));
  }

  lemma DescribeSplit(d: Dir, cs: Chains, h: int, n: int, p: nat, depth: map<int, nat>, after: Chains)
    requires h in d.depth && h in cs && n !in d.depth && d.depth[h] + 1 == p <= HASH_BITS
    requires depth == d.depth[h := p][n := p] && after == SplitChains(cs, h, n, HASH_BITS - p)
    ensures ChainSplit(d, cs, h, n, depth, after)
  {}

  lemma SplitDepths(job: Job, st: State, kept: nat)
    requires job.WellFormed() && IsSplit(job, st, kept)
    ensures DepthsOf(st) == DepthsOf(job.start)[job.h := job.p][job.n := job.p]
  {
    SplitHeads(job, st, kept);
  }

  lemma SplitStored(job: Job, st: State, kept: nat)
    requires job.WellFormed() && IsSplit(job, st, kept)
    ensures StoredOf(st) == SplitChains(StoredOf(job.start), job.h, job.n, job.Bit())
  {
    SplitHeads(job, st, kept);
    StoredChain(job.start, job.h);
    forall g | g in st.s.chains
      ensures StoredOf(st)[g] == SplitChains(StoredOf(job.start), job.h, job.n, job.Bit())[g]
    {
      StoredChain(st, g);
      if g != job.n { StoredChain(job.start, g); }
    }
  }

  class HashMap {
    const catalogue: Catalogue
    const container: Container

    /** The chain each hash is routed to. */
    ghost var route: imap<Hash, int>
    /** The prefix each chain answers for. */
    ghost var prefix: map<int, nat>
    /** The finite map that the two files stand for. */
    ghost var model: map<Key, seq<byte>>

    /** `route` is what looking hashes up in the directory gives. */
    ghost predicate Mirrors()
      requires catalogue.Valid()
      reads this`route, catalogue, catalogue.buffer
    {
      && (forall x: Hash :: x in route)
      && forall k :: UnfoldRoutes(k) ==> forall x: Hash :: route[x] == catalogue.Find(x)
    }

    ghost function Depths(): map<int, nat>
      requires container.Sound()
      reads container
    {
      DepthsOf(container.Now())
    }

    ghost function Directory(): Dir
      requires container.Sound()
      reads this`route, this`prefix, catalogue, container
    {
      Dir(route, Depths(), prefix, catalogue.prefixBits)
    }

    ghost function Stored(): Chains
      reads container
    {
      StoredOf(container.Now())
    }

    ghost predicate Valid()
      reads this, catalogue, catalogue.buffer, container
    {
      && catalogue.Valid() && container.Valid() && Mirrors()
      && Represents(Directory(), Stored(), model)
      && Pow2(catalogue.prefixBits) < 2 * |container.buckets|
    }

    /** The directory has not reached its full depth, or need not grow beyond it. */
    predicate CanDouble()
      reads catalogue, container
    {
      catalogue.prefixBits == HASH_BITS ==> |container.buckets| <= 0x1_0000_0000
    }

    ghost function Depth(bucketId: int): nat
      reads container
    {
      if 0 <= bucketId < |container.buckets| then container.buckets[bucketId].prefixBits else 0
    }

    /** Inserting on this chain doubles the directory: the chain is long, it is as deep as the directory,
        and there are more buckets than directory entries. */
    ghost predicate Doubles(bucketId: int)
      requires bucketId in container.shape.chains
      reads catalogue, container
    {
      && container.Long(bucketId) && Depth(bucketId) == catalogue.prefixBits
      && |container.buckets| > Pow2(catalogue.prefixBits)
    }

    /** Inserting on this chain splits it: it is long, and less deep than the directory then is. */
    ghost predicate Splits(bucketId: int)
      requires bucketId in container.shape.chains
      reads catalogue, container
    {
      container.Long(bucketId) && (Depth(bucketId) < catalogue.prefixBits || Doubles(bucketId))
    }

    /** The view is that of the value stored for a key. */
    ghost predicate Locates(view: View, hash: Hash, key: seq<byte>)
      reads this, container
    {
      && (hash, key) in model && container.Denotes(view, Record(hash, key, model[(hash, key)]))
      && hash in route && route[hash] in container.shape.chains
      && view.bucket in container.shape.chains[route[hash]]
    }

    constructor ()
      ensures Valid() && model == map[] && fresh(catalogue) && fresh(catalogue.buffer) && fresh(container)
      ensures |container.buckets| == 2
    {
      catalogue := new Catalogue(1);
      container := new Container();
      new;
      Populate();
    }

    /** Give an empty map its two buckets. */
    method Populate()
      requires catalogue.Valid() && catalogue.prefixBits == 1
      requires container.Sound() && container.buckets == [] && container.shape == Shape(map[], [], [], [])
      modifies this, catalogue.buffer, container
      ensures Valid() && model == map[] && |container.buckets| == 2
    {
      var b0, b1 := FirstBuckets();
      StartRoutes(b0, b1);
      FreshRepresents(Directory(), Stored(), b0, b1);
      Adopt(Directory(), Stored(), map[]);
    }

    /** Route each half of the hashes to its bucket. */
    ghost method StartRoutes(b0: int, b1: int)
      requires catalogue.Valid() && catalogue.prefixBits == 1 && catalogue.buffer.Length == 2
      requires catalogue.buffer[0] == b0 && catalogue.buffer[1] == b1
      modifies this`route, this`prefix
      ensures Mirrors() && prefix == map[b0 := 0, b1 := 1]
      ensures forall x: Hash :: x in route && route[x] == ByHalf(x, b0, b1)
    {
      prefix := map[b0 := 0, b1 := 1];
      route := imap x: Hash | true :: ByHalf(x, b0, b1);
      HalvesMirror(b0, b1);
    }

    /** Let the two files stand for the map `m`. */
    ghost method Adopt(d: Dir, cs: Chains, m: map<Key, seq<byte>>)
      requires catalogue.Valid() && container.Valid() && Mirrors()
      requires d == Directory() && cs == Stored() && Represents(d, cs, m)
      requires Pow2(catalogue.prefixBits) < 2 * |container.buckets|
      modifies this`model
      ensures Valid() && model == m
    {
      model := m;
      assert Directory() == d && Stored() == cs;
    }

    method FirstBuckets() returns (b0: nat, b1: nat)
      requires catalogue.Valid() && catalogue.prefixBits == 1
      requires container.Sound() && container.buckets == [] && container.shape == Shape(map[], [], [], [])
      modifies catalogue.buffer, container
      ensures catalogue.Valid() && catalogue.buffer.Length == 2
      ensures catalogue.buffer[0] == b0 && catalogue.buffer[1] == b1
      ensures container.Valid() && b0 != b1 && |container.buckets| == 2
      ensures Depths() == map[b0 as int := 1, b1 as int := 1] && Stored() == map[b0 as int := [], b1 as int := []]
    {
      b0 := FirstBucket(0, 0);
      b1 := FirstBucket(0xFFFF_FFFF, 1);
      FreshState(container.Now(), b0, b1);
    }

    /** Create a bucket with a one-bit prefix and point the entry for `hash` to it. */
    method FirstBucket(hash: Hash, ghost bit: int) returns (id: nat)
      requires catalogue.Valid() && catalogue.prefixBits == 1 && bit == ByHalf(hash, 0, 1)
      requires container.Sound() && container.shape.free == []
      modifies catalogue.buffer, container
      ensures catalogue.Valid() && container.Sound() && container.shape.free == []
      ensures id !in old(container.shape.chains) && container.shape.chains == old(container.shape.chains)[id := [id]]
      ensures id == |old(container.buckets)| && |container.buckets| == id + 1
      ensures container.buckets[id].prefixBits == 1
      ensures forall b :: 0 <= b < id ==> container.buckets[b] == old(container.buckets[b])
      ensures SameRecords(old(container.recs), container.recs) && At(container.recs, id) == []
      ensures catalogue.buffer.Length == 2 && catalogue.buffer[bit] == id
      ensures catalogue.buffer[1 - bit] == old(catalogue.buffer[1 - bit])
    {
      FirstBit(hash);
      id := container.CreateBucket(1);
      catalogue.buffer[catalogue.Slot(hash)] := id;
    }

    /** With one prefix bit the two entries answer for the two halves of the hashes. */
    lemma HalvesMirror(b0: int, b1: int)
      requires catalogue.Valid() && catalogue.prefixBits == 1 && catalogue.buffer.Length == 2
      requires catalogue.buffer[0] == b0 && catalogue.buffer[1] == b1
      requires forall x: Hash :: x in route && route[x] == ByHalf(x, b0, b1)
      ensures Mirrors()
    {
      forall x: Hash
        ensures route[x] == catalogue.Find(x)
      {
        FirstBit(x);
      }
    }

    /** Where the value for a key is stored, if it is. */
    method Find(hash: Hash, key: seq<byte>) returns (result: Option<View>)
      requires Valid()
      ensures result.Some? <==> (hash, key) in model
      ensures result.Some? ==> Locates(result.value, hash, key)
    {
      var bucketId := Route(hash);
      InStored(bucketId, hash, key);
      result := container.FindRecord(bucketId, hash, key);
    }

    method Remove(hash: Hash, key: seq<byte>) returns (removed: bool)
      requires Valid()
      modifies this`model, container`buckets, container`recs
      ensures Valid() && model == old(model) - {(hash, key)}
      ensures removed <==> (hash, key) in old(model)
      ensures |container.buckets| == |old(container.buckets)|
      ensures if removed then exists id: nat, m: nat :: TakenFrom(old(container.recs), container.recs, id, m)
        else container.buckets == old(container.buckets) && container.recs == old(container.recs)
    {
      var bucketId := Route(hash);
      InStored(bucketId, hash, key);
      ghost var d, cs, at, c := Directory(), Stored(), 0, [];
      ghost var before, without := model, model - {(hash, key)};
      removed, at, c := RemoveStored(bucketId, hash, key, d, cs);
      AfterRemove(d, cs, before, bucketId, removed, at, (hash, key), c);
      Adopt(d, cs[bucketId := c], without);
    }

    /** Remove a key from one chain. */
    method RemoveStored(bucketId: nat, hash: Hash, key: seq<byte>, ghost d: Dir, ghost cs: Chains)
      returns (removed: bool, ghost at: nat, ghost c: seq<Record>)
      requires container.Valid() && bucketId in cs && d == Directory() && cs == Stored()
      modifies container`buckets, container`recs
      ensures container.Valid() && Directory() == d && Stored() == cs[bucketId := c]
      ensures if removed then exists id: nat, m: nat :: TakenFrom(old(container.recs), container.recs, id, m)
        else container.buckets == old(container.buckets) && container.recs == old(container.recs)
      ensures |container.buckets| == |old(container.buckets)|
      ensures removed <==> FindIn(cs[bucketId], (hash, key)).Some?
      ensures removed ==>
        at < |cs[bucketId]| && cs[bucketId][at].Id() == (hash, key) && c == cs[bucketId][..at] + cs[bucketId][at + 1..]
      ensures !removed ==> c == cs[bucketId]
    {
      StoredChain(container.Now(), bucketId);
      removed, at := container.RemoveRecord(bucketId, hash, key);
      OneChainChanged(bucketId);
      c := container.Contents(bucketId);
    }

    /** Split the chain a hash is routed to if it has grown long, doubling the directory first when
        the chain is as deep as the directory and there are more buckets than entries. */
    method MakeRoom(hash: Hash, bucketId: nat) returns (target: nat)
      requires Valid() && bucketId == route[hash] && bucketId in container.shape.chains && CanDouble()
      modifies this`route, this`prefix, catalogue, catalogue.buffer, container
      ensures Valid() && target == route[hash] && bucketId in container.shape.chains
      ensures catalogue.buffer == old(catalogue.buffer) || fresh(catalogue.buffer)
      ensures catalogue.prefixBits == old(catalogue.prefixBits) + if old(Doubles(bucketId)) then 1 else 0
      ensures Depth(bucketId) == old(Depth(bucketId)) + if old(Splits(bucketId)) then 1 else 0
      ensures old(Splits(bucketId)) ==> WasSplit(old(container.Now()), bucketId, container.Now())
      ensures !old(Splits(bucketId)) ==> unchanged(container) && unchanged(catalogue) && unchanged(catalogue.buffer)
    {
      container.SplitWhenLong(bucketId);
      target := bucketId;
      if container.BucketToSplit(bucketId) {
        if container.buckets[bucketId].prefixBits == catalogue.prefixBits
          && |container.buckets| > Pow2(catalogue.prefixBits) {
          NotYetFullDepth(catalogue.prefixBits, |container.buckets|);
          DoubleDirectory();
        }
        if container.buckets[bucketId].prefixBits < catalogue.prefixBits {
          target := SplitChain(hash, bucketId);
        }
      }
    }

    /** Store a record with a new key on the chain its hash is routed to. */
    method Insert(target: nat, hash: Hash, key: seq<byte>, value: seq<byte>) returns (view: View, ghost place: nat)
      requires Valid() && target == route[hash] && (hash, key) !in model && Fits(Record(hash, key, value))
      modifies this`model, container
      ensures Valid() && model == old(model)[(hash, key) := value] && Locates(view, hash, key)
      ensures target in old(container.shape.chains) && target in container.shape.chains
      ensures forall g :: Depth(g) == old(Depth(g)) || g !in old(container.shape.chains)
      ensures container.PutFirst(target, Record(hash, key, value), view.bucket, place)
    {
      RouteExists(target, hash);
      ghost var d, cs, at := Directory(), Stored(), 0;
      ghost var before, extended := model, model[(hash, key) := value];
      view, at, place := InsertStored(target, hash, key, value, d, cs);
      InsertRepresents(d, cs, before, Record(hash, key, value), at);
      Adopt(d, Stored(), extended);
    }

    /** Add a record to one chain. */
    method InsertStored(target: nat, hash: Hash, key: seq<byte>, value: seq<byte>, ghost d: Dir, ghost cs: Chains)
      returns (view: View, ghost at: nat, ghost place: nat)
      requires container.Valid() && target in cs && d == Directory() && cs == Stored()
      requires Fits(Record(hash, key, value))
      modifies container
      ensures container.Valid() && Directory() == d && at <= |cs[target]|
      ensures Stored() == cs[target := cs[target][..at] + [Record(hash, key, value)] + cs[target][at..]]
      ensures |old(container.buckets)| <= |container.buckets|
      ensures container.Denotes(view, Record(hash, key, value))
      ensures target in container.shape.chains && view.bucket in container.shape.chains[target]
      ensures target in old(container.shape.chains)
      ensures forall g :: Depth(g) == old(Depth(g)) || g !in old(container.shape.chains)
      ensures container.PutFirst(target, Record(hash, key, value), view.bucket, place)
    {
      StoredChain(container.Now(), target);
      view, at, place := container.CreateRecord(target, hash, key, value);
      OneChainChanged(target);
    }

    /** The stored value for a key; a missing key is first inserted with the default value. */
    method Get(hash: Hash, key: seq<byte>, defaultValue: seq<byte>) returns (view: View)
      requires Valid()
      requires (hash, key) !in model ==> Fits(Record(hash, key, defaultValue)) && CanDouble()
      modifies this, catalogue, catalogue.buffer, container
      ensures Valid() && Locates(view, hash, key)
      ensures model == if (hash, key) in old(model) then old(model) else old(model)[(hash, key) := defaultValue]
      ensures catalogue.buffer == old(catalogue.buffer) || fresh(catalogue.buffer)
      ensures (hash, key) in old(model) ==> unchanged(container) && unchanged(catalogue) && unchanged(catalogue.buffer)
      ensures (hash, key) !in old(model) ==>
        && hash in old(route) && old(route)[hash] in old(container.shape.chains)
        && catalogue.prefixBits == old(catalogue.prefixBits) + (if old(Doubles(route[hash])) then 1 else 0)
        && Depth(old(route)[hash]) == old(Depth(route[hash])) + (if old(Splits(route[hash])) then 1 else 0)
    {
      var found := Find(hash, key);
      if found.Some? {
        return found.value;
      }
      var bucketId := Route(hash);
      RouteExists(bucketId, hash);
      view := AddMissing(bucketId, hash, key, defaultValue);
    }

    /** Insert a key that is missing on the chain its hash is routed to, or on the half it is split into. */
    method AddMissing(bucketId: nat, hash: Hash, key: seq<byte>, value: seq<byte>) returns (view: View)
      requires Valid() && (hash, key) !in model && Fits(Record(hash, key, value)) && CanDouble()
      requires bucketId == route[hash] && bucketId in container.shape.chains
      modifies this, catalogue, catalogue.buffer, container
      ensures Valid() && Locates(view, hash, key) && model == old(model)[(hash, key) := value]
      ensures catalogue.buffer == old(catalogue.buffer) || fresh(catalogue.buffer)
      ensures catalogue.prefixBits == old(catalogue.prefixBits) + if old(Doubles(bucketId)) then 1 else 0
      ensures Depth(bucketId) == old(Depth(bucketId)) + if old(Splits(bucketId)) then 1 else 0
    {
      var target := MakeRoom(hash, bucketId);
      ghost var place;
      view, place := Insert(target, hash, key, value);
    }

    /** Getting a missing key, up to step n of the walk that looks for room. If the record is larger than
        a bucket the walk is still running then, however large n is: the call does not return, the map
        keeps its contents, and a chain grows beyond n buckets. */
    method GetFor(hash: Hash, key: seq<byte>, defaultValue: seq<byte>, n: nat) returns (running: bool)
      requires Valid() && (hash, key) !in model && CanDouble()
      modifies this, catalogue, catalogue.buffer, container
      ensures Valid() && model == old(model)
      ensures !Fits(Record(hash, key, defaultValue)) ==> running && |container.shape.chains[route[hash]]| > n
    {
      var bucketId := Route(hash);
      RouteExists(bucketId, hash);
      var target := MakeRoom(hash, bucketId);
      FitsBySize(Record(hash, key, defaultValue));
      running := WalkRouted(target, hash, BytesRequired(|key|, |defaultValue|), n);
    }

    /** Walk the chain a hash is routed to for a while. */
    method WalkRouted(target: nat, ghost hash: Hash, bytesRequired: nat, n: nat) returns (running: bool)
      requires Valid() && target == route[hash]
      modifies this`model, container
      ensures Valid() && model == old(model) && target in container.shape.chains
      ensures bytesRequired > BUCKET_SIZE ==> running && |container.shape.chains[target]| > n
    {
      RouteExists(target, hash);
      ghost var d, cs := Directory(), Stored();
      running := WalkStored(target, bytesRequired, n, d, cs);
      Adopt(d, cs, model);
    }

    /** Walk one chain for a while. */
    method WalkStored(target: nat, bytesRequired: nat, n: nat, ghost d: Dir, ghost cs: Chains) returns (running: bool)
      requires container.Valid() && target in cs && d == Directory() && cs == Stored()
      modifies container
      ensures container.Valid() && Directory() == d && Stored() == cs && |old(container.buckets)| <= |container.buckets|
      ensures target in container.shape.chains
      ensures bytesRequired > BUCKET_SIZE ==> running && |container.shape.chains[target]| > n
    {
      StoredChain(container.Now(), target);
      running := container.WalkFor(target, bytesRequired, n);
      OneChainChanged(target);
      assert cs[target := cs[target]] == cs;
    }

    /** Write another value of the same size over the stored one, through the view of it. */
    method Overwrite(view: View, value: seq<byte>, ghost hash: Hash, ghost key: seq<byte>)
      requires Valid() && Locates(view, hash, key) && |value| == view.length
      modifies this`model, container`buckets, container`recs
      ensures Valid() && model == old(model)[(hash, key) := value]
      ensures |container.buckets| == |old(container.buckets)|
      ensures forall b :: 0 <= b < |container.buckets| && b != view.bucket ==>
        container.buckets[b] == old(container.buckets[b])
    {
      ghost var bucketId := route[hash];
      RouteExists(bucketId, hash);
      ghost var d, cs, r := Directory(), Stored(), Record(hash, key, model[(hash, key)]);
      ghost var at := OverwriteStored(view, value, bucketId, r, d, cs);
      ReplaceRepresents(d, cs, model, bucketId, at, value);
      Adopt(d, Stored(), model[(hash, key) := value]);
    }

    /** Overwrite a value on one chain. */
    method OverwriteStored(view: View, value: seq<byte>, ghost bucketId: int, ghost r: Record,
                           ghost d: Dir, ghost cs: Chains)
      returns (ghost at: nat)
      requires container.Valid() && bucketId in cs && d == Directory() && cs == Stored()
      requires container.Denotes(view, r) && |value| == view.length && view.bucket in container.shape.chains[bucketId]
      modifies container`buckets, container`recs
      ensures container.Valid() && Directory() == d && at < |cs[bucketId]| && cs[bucketId][at] == r
      ensures Stored() == cs[bucketId := cs[bucketId][..at] + [r.(value := value)] + cs[bucketId][at + 1..]]
      ensures |container.buckets| == |old(container.buckets)|
      ensures forall b :: 0 <= b < |container.buckets| && b != view.bucket ==>
        container.buckets[b] == old(container.buckets[b])
    {
      StoredChain(container.Now(), bucketId);
      at := container.Overwrite(view, value, bucketId, r);
      OneChainChanged(bucketId);
    }

    /** Double the directory. */
    method DoubleDirectory()
      requires Valid() && Pow2(catalogue.prefixBits) < |container.buckets| && catalogue.prefixBits < HASH_BITS
      modifies catalogue, catalogue.buffer
      ensures Valid() && fresh(catalogue.buffer) && catalogue.prefixBits == old(catalogue.prefixBits) + 1
    {
      ghost var d := Directory();
      assert Mirrors();
      DoubleEntries();
      DeeperRepresents(d, Stored(), model);
      assert Directory() == d.(bits := d.bits + 1);
    }

    method DoubleEntries()
      requires catalogue.Valid() && Mirrors() && catalogue.prefixBits < HASH_BITS
      modifies catalogue, catalogue.buffer
      ensures catalogue.Valid() && Mirrors()
      ensures fresh(catalogue.buffer) && catalogue.prefixBits == old(catalogue.prefixBits) + 1
    {
      assert UnfoldRoutes(0);
      catalogue.Split();
    }

    /** Split one chain of the container. */
    method SplitContents(bucketId: nat, ghost d: Dir, ghost cs: Chains) returns (newBucketId: nat)
      requires container.Valid() && bucketId in container.shape.chains
      requires container.buckets[bucketId].prefixBits < HASH_BITS
      requires d.depth == Depths() && cs == Stored()
      modifies container
      ensures container.Valid() && ChainSplit(d, cs, bucketId, newBucketId, Depths(), Stored())
      ensures |old(container.buckets)| <= |container.buckets|
      ensures WasSplit(old(container.Now()), bucketId, container.Now())
    {
      ghost var kept, start := 0, container.Now();
      newBucketId, kept := container.Split(bucketId);
      assert SplitInto(start, bucketId, newBucketId, kept, container.Now());
      SplitMaps(Job(start, bucketId, newBucketId, start.bs[bucketId].prefixBits + 1), container.Now(), kept, d, cs);
    }

    /** Point the entries that share a prefix of `hash` to a chain. */
    method Redirect(hash: Hash, offset: nat, id: int)
      requires catalogue.Valid() && Mirrors() && 1 <= offset <= catalogue.prefixBits
      modifies this`route, catalogue.buffer
      ensures catalogue.Valid() && Mirrors()
      ensures forall x: Hash :: x in route && x in old(route)
      ensures forall x: Hash :: route[x] == if Top(x, offset) == Top(hash, offset) then id else old(route)[x]
    {
      assert UnfoldRoutes(0);
      catalogue.Set(hash, offset, id);
      route := imap x: Hash | true :: if Top(x, offset) == Top(hash, offset) then id else route[x];
    }

    /** Point the entries with the leading bits of `hash`, the last of them set, to the new chain. */
    method Repoint(hash: Hash, bucketId: nat, newBucketId: nat, prefixBits: nat, ghost d: Dir) returns (target: nat)
      requires catalogue.Valid() && Mirrors() && 1 <= prefixBits <= catalogue.prefixBits
      requires route == d.route && prefix == d.prefix && bucketId in prefix && route[hash] == bucketId
      modifies this`route, this`prefix, catalogue.buffer
      ensures catalogue.Valid() && Mirrors() && prefix == Lengthened(d.prefix, bucketId, newBucketId)
      ensures HalfRedirected(d.route, route, hash, prefixBits, newBucketId)
      ensures target == route[hash]
    {
      var marked, isMarked := MarkBit(hash, prefixBits);
      Redirect(marked, prefixBits, newBucketId);
      prefix := Lengthened(d.prefix, bucketId, newBucketId);
      target := if isMarked then newBucketId else bucketId;
    }

    /** The entry for one hash. */
    method Route(hash: Hash) returns (bucketId: int)
      requires catalogue.Valid() && Mirrors()
      ensures bucketId == route[hash] == catalogue.Find(hash)
    {
      assert UnfoldRoutes(0);
      bucketId := catalogue.Find(hash);
    }

    /** Split the chain that `hash` is routed to and point the entries with the new bit to the new chain. */
    method SplitChain(hash: Hash, bucketId: nat) returns (target: nat)
      requires Valid() && bucketId == route[hash] && bucketId in container.shape.chains
      requires container.buckets[bucketId].prefixBits < catalogue.prefixBits
      modifies this`route, this`prefix, catalogue.buffer, container
      ensures Valid() && target == route[hash]
      ensures bucketId in container.shape.chains && Depth(bucketId) == old(Depth(bucketId)) + 1
      ensures WasSplit(old(container.Now()), bucketId, container.Now())
    {
      ghost var d, cs := Directory(), Stored();
      assert d.depth[bucketId] == container.buckets[bucketId].prefixBits;
      var newBucketId := SplitContents(bucketId, d, cs);
      RepresentsSplittable(d, cs, model, bucketId, newBucketId, hash);
      assert bucketId in Depths();
      target := Reroute(hash, bucketId, newBucketId, d, cs);
    }

    /** Point the entries of the half with the new bit to the new chain. */
    method Reroute(hash: Hash, bucketId: nat, newBucketId: nat, ghost d: Dir, ghost cs: Chains) returns (target: nat)
      requires catalogue.Valid() && container.Valid() && Mirrors()
      requires route == d.route && prefix == d.prefix && catalogue.prefixBits == d.bits
      requires Represents(d, cs, model) && d.route[hash] == bucketId
      requires ChainSplit(d, cs, bucketId, newBucketId, Depths(), Stored()) && d.depth[bucketId] < d.bits
      requires bucketId in d.prefix
      requires Pow2(catalogue.prefixBits) < 2 * |container.buckets|
      modifies this`route, this`prefix, catalogue.buffer
      ensures Valid() && target == route[hash]
    {
      assert bucketId in Depths();
      var prefixBits := container.buckets[bucketId].prefixBits;
      assert prefixBits == Depths()[bucketId] == d.depth[bucketId] + 1;
      ghost var depth, after := Depths(), Stored();
      target := Repoint(hash, bucketId, newBucketId, prefixBits, d);
      assert Depths() == depth && Stored() == after;
      Rerouted(hash, bucketId, newBucketId, d, cs, depth, after);
    }

    /** Once they do, the map is valid again. */
    lemma Rerouted(hash: Hash, bucketId: nat, newBucketId: nat, d: Dir, cs: Chains,
                   depth: map<int, nat>, after: Chains)
      requires catalogue.Valid() && container.Valid() && Mirrors() && catalogue.prefixBits == d.bits
      requires Represents(d, cs, model) && d.route[hash] == bucketId && bucketId in d.prefix
      requires ChainSplit(d, cs, bucketId, newBucketId, depth, after) && d.depth[bucketId] < d.bits
      requires depth == Depths() && after == Stored()
      requires prefix == Lengthened(d.prefix, bucketId, newBucketId)
      requires HalfRedirected(d.route, route, hash, d.depth[bucketId] + 1, newBucketId)
      requires Pow2(catalogue.prefixBits) < 2 * |container.buckets|
      ensures Valid()
    {
      RepresentsSplittable(d, cs, model, bucketId, newBucketId, hash);
      AfterSplit(d, Directory(), cs, Stored(), model, bucketId, newBucketId, hash);
    }

    /** The chain a hash is routed to exists. */
    lemma RouteExists(bucketId: int, hash: Hash)
      requires Valid() && bucketId == route[hash]
      ensures bucketId in container.shape.chains && bucketId >= 0
      ensures bucketId in Stored() && Stored()[bucketId] == container.Contents(bucketId)
    {
      assert UnfoldStored(0);
    }

    /** And looking a key up on it gives what the model says. */
    lemma InStored(bucketId: int, hash: Hash, key: seq<byte>)
      requires Valid() && bucketId == route[hash]
      ensures bucketId in container.shape.chains && bucketId >= 0
      ensures bucketId in Stored() && Stored()[bucketId] == container.Contents(bucketId)
      ensures FindIn(container.Contents(bucketId), (hash, key)) == Lookup(model, (hash, key))
    {
      RouteExists(bucketId, hash);
      RepresentsLookup(Directory(), Stored(), model, (hash, key));
    }

    /** A container operation that changes one chain leaves the directory as it was. */
    twostate lemma OneChainChanged(head: int)
      requires old(container.Sound()) && container.Sound()
      requires unchanged(catalogue) && prefix == old(prefix) && route == old(route)
      requires head in container.shape.chains && container.OnlyChanges(head)
      ensures Directory() == old(Directory())
      ensures Stored() == old(Stored())[head := container.Contents(head)]
    {
      OneStored(old(container.Now()), container.Now(), head);
      assert Directory().depth == old(Directory().depth);
    }
  }

  /** Whether or not a record was removed from chain `h`, what is left stands for the map without the key. */
  lemma AfterRemove(d: Dir, cs: Chains, m: map<Key, seq<byte>>, h: int, removed: bool, at: nat, id: Key, c: seq<Record>)
    requires Represents(d, cs, m) && h in cs && (removed <==> id in m)
    requires removed ==> at < |cs[h]| && cs[h][at].Id() == id && c == cs[h][..at] + cs[h][at + 1..]
    requires !removed ==> c == cs[h]
    ensures Represents(d, cs[h := c], m - {id})
  {
    if removed {
      RemoveRepresents(d, cs, m, h, at);
    } else {
      assert cs[h := c] == cs && m - {id} == m;
    }
  }

  /** Hashes that share the leading `offset` bits of `hash`, but for a set last one, are routed to `id`,
      all others as before. */
  ghost predicate HalfRedirected(before: imap<Hash, int>, after: imap<Hash, int>, hash: Hash, offset: nat, id: int)
    requires offset <= HASH_BITS && forall x: Hash :: x in before
  {
    && (forall x: Hash :: x in after)
    && forall k :: UnfoldBlocks(k) ==>
         forall x: Hash :: after[x] == if Top(x, offset) == 2 * (Top(hash, offset) / 2) + 1 then id else before[x]
  }

  /** A hash with the last bit of its prefix set, and whether it already was. */
  method MarkBit(hash: Hash, prefixBits: nat) returns (marked: Hash, isMarked: bool)
    requires 0 < prefixBits <= HASH_BITS
    ensures Top(marked, prefixBits) == 2 * (Top(hash, prefixBits) / 2) + 1
    ensures isMarked <==> Top(hash, prefixBits) == Top(marked, prefixBits)
  {
    var newBit := Pow2(HASH_BITS - prefixBits);
    TopSet(hash, prefixBits);
    AndBit(hash, HASH_BITS - prefixBits);
    marked, isMarked := Or(hash, newBit), And(hash, newBit) != 0;
  }

  /** The directory and the chains after one chain has been split and its entries redirected. */
  lemma AfterSplit(d: Dir, e: Dir, cs: Chains, after: Chains, m: map<Key, seq<byte>>, h: int, n: int, hash: Hash)
    requires Represents(d, cs, m) && Splittable(d, h, n, hash) && ChainSplit(d, cs, h, n, e.depth, after)
    requires e.bits == d.bits && e.prefix == Lengthened(d.prefix, h, n)
    requires HalfRedirected(d.route, e.route, hash, d.depth[h] + 1, n)
    ensures Represents(e, after, m)
  {
    assert UnfoldBlocks(0);
    assert IsSplitDir(d, e, h, n, hash);
    SplitRepresents(d, e, cs, m, h, n, hash);
  }

  function ByHalf(x: Hash, b0: int, b1: int): int {
    if x < 0x8000_0000 then b0 else b1
  }

  lemma FirstBit(x: Hash)
    ensures Top(x, 1) == ByHalf(x, 0, 1)
  {
    Pow2Values();
  }

  /** A directory with fewer entries than there are buckets can still be doubled. */
  lemma NotYetFullDepth(d: nat, n: nat)
    requires d <= HASH_BITS && Pow2(d) < n && (d == HASH_BITS ==> n <= 0x1_0000_0000)
    ensures d < HASH_BITS
  {
    Pow2Values();
  }

  /** Two one-bucket chains with one-bit prefixes and no records. */
  lemma FreshState(st: State, b0: nat, b1: nat)
    requires SoundState(st) && b0 != b1 && st.s.chains == map[b0 := [b0], b1 := [b1]]
    requires b0 < |st.bs| && b1 < |st.bs| && st.bs[b0].prefixBits == st.bs[b1].prefixBits == 1
    requires At(st.recs, b0) == At(st.recs, b1) == []
    ensures Uniform(st.bs, st.s)
    ensures DepthsOf(st) == map[b0 as int := 1, b1 as int := 1]
    ensures StoredOf(st) == map[b0 as int := [], b1 as int := []]
  {
    StoredChain(st, b0);
    StoredChain(st, b1);
    FlatOne(st.recs, b0);
    FlatOne(st.recs, b1);
  }

  /** Two empty chains, one for each first bit, stand for the empty map. */
  lemma FreshRepresents(d: Dir, cs: Chains, b0: int, b1: int)
    requires b0 != b1 && d.bits == 1 && d.depth == map[b0 := 1, b1 := 1] && d.prefix == map[b0 := 0, b1 := 1]
    requires forall x: Hash :: x in d.route && d.route[x] == ByHalf(x, b0, b1)
    requires cs == map[b0 := [], b1 := []]
    ensures Represents(d, cs, map[])
  {
    forall h, x: Hash | h in d.depth
      ensures Answers(d, h, x)
    {
      FirstBit(x);
    }
    assert Pow2(1) == 2;
  }
}
