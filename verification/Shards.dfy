/** One shard of the sharded map: a hash map whose operations, done while the shard's lock is held, are the
    steps that the system of threads takes. */
module Shards {
  import opened Bits
  import opened Records
  import opened Contents
  import opened Directory
  import opened HashMapModule
  import opened IterationModule
  import opened WrappedHashMapModule
  import Runs
  import ShardedMap

  class Shard {
    const hashMap: HashMap
    const hashKey: seq<byte> -> Hash

    /** The finite map that the shard is in the system of threads. */
    ghost var model: ShardedMap.Model

    ghost predicate Valid()
      reads this, hashMap, hashMap.catalogue, hashMap.catalogue.buffer, hashMap.container
    {
      hashMap.Valid() && Agrees(hashKey, model, hashMap.model)
    }

    constructor (hashKey: seq<byte> -> Hash)
      ensures Valid() && model == map[] && this.hashKey == hashKey
      ensures fresh(hashMap) && fresh(hashMap.catalogue) && fresh(hashMap.catalogue.buffer) && fresh(hashMap.container)
    {
      this.hashKey := hashKey;
      hashMap := new HashMap();
      model := map[];
    }

    /** get: the value, if the key is there. */
    method Get(key: seq<byte>) returns (answer: ShardedMap.Answer)
      requires Valid()
      ensures answer == ShardedMap.Reply(model, ShardedMap.Get(key))
      ensures answer == ShardedMap.Found(Lookup(hashMap.model, (hashKey(key), key)))
    {
      AgreesOn(hashKey, model, hashMap.model, key);
      var found := Runs.FindValue(hashMap, hashKey(key), key);
      answer := ShardedMap.Found(found);
    }

    /** set: look for the key and insert it if it is missing. */
    method Set(key: seq<byte>, value: seq<byte>) returns (answer: ShardedMap.Answer)
      requires Valid()
      requires key !in model ==> Fits(Record(hashKey(key), key, value)) && hashMap.CanDouble()
      modifies this`model, hashMap, hashMap.catalogue, hashMap.catalogue.buffer, hashMap.container
      ensures Valid() && model == ShardedMap.After(old(model), ShardedMap.Set(key, value))
      ensures answer == ShardedMap.Reply(old(model), ShardedMap.Set(key, value))
      ensures answer == ShardedMap.Done((hashKey(key), key) !in old(hashMap.model))
      ensures answer == ShardedMap.Done(true) ==> hashMap.model == old(hashMap.model)[(hashKey(key), key) := value]
      ensures answer == ShardedMap.Done(false) ==> hashMap.model == old(hashMap.model)
      ensures hashMap.catalogue.buffer == old(hashMap.catalogue.buffer) || fresh(hashMap.catalogue.buffer)
    {
      AgreesOn(hashKey, model, hashMap.model, key);
      var found := hashMap.Find(hashKey(key), key);
      if found.Some? {
        return ShardedMap.Done(false);
      }
      Add(key, value);
      answer := ShardedMap.Done(true);
    }

    method Add(key: seq<byte>, value: seq<byte>)
      requires Valid() && key !in model && Fits(Record(hashKey(key), key, value)) && hashMap.CanDouble()
      modifies this`model, hashMap, hashMap.catalogue, hashMap.catalogue.buffer, hashMap.container
      ensures Valid() && model == old(model)[key := value]
      ensures hashMap.model == old(hashMap.model)[(hashKey(key), key) := value]
      ensures hashMap.catalogue.buffer == old(hashMap.catalogue.buffer) || fresh(hashMap.catalogue.buffer)
    {
      AgreesOn(hashKey, model, hashMap.model, key);
      AgreesPut(hashKey, model, hashMap.model, key, value);
      model := model[key := value];
      var _ := hashMap.Get(hashKey(key), key, value);
    }

    /** set of a missing key, up to step n of the walk for room: with a record larger than a bucket it is still
        running, the shard unchanged, which is the stuck thread of the system. */
    method SetFor(key: seq<byte>, value: seq<byte>, n: nat) returns (running: bool)
      requires Valid() && key !in model && hashMap.CanDouble()
      modifies hashMap, hashMap.catalogue, hashMap.catalogue.buffer, hashMap.container
      ensures Valid()
      ensures !Fits(Record(hashKey(key), key, value)) ==> running
    {
      AgreesOn(hashKey, model, hashMap.model, key);
      running := hashMap.GetFor(hashKey(key), key, value, n);
    }

    method Remove(key: seq<byte>) returns (answer: ShardedMap.Answer)
      requires Valid()
      modifies this`model, hashMap`model, hashMap.container
      ensures Valid() && model == ShardedMap.After(old(model), ShardedMap.Remove(key))
      ensures answer == ShardedMap.Reply(old(model), ShardedMap.Remove(key))
      ensures answer == ShardedMap.Done((hashKey(key), key) in old(hashMap.model))
      ensures hashMap.model == old(hashMap.model) - {(hashKey(key), key)}
    {
      AgreesOn(hashKey, model, hashMap.model, key);
      AgreesRemove(hashKey, model, hashMap.model, key);
      var removed := hashMap.Remove(hashKey(key), key);
      model := model - {key};
      answer := ShardedMap.Done(removed);
    }

    /** What keys() lists while it holds the shard's lock: every key once. */
    method Keys() returns (keys: seq<seq<byte>>)
      requires Valid()
      ensures ShardedMap.NoRepeats(keys) && forall k :: k in keys <==> k in model
    {
      var pairs := Collect(hashMap);
      ghost var rs :| ExactlyOnce(rs, hashMap.model) && pairs == Pairs(rs);
      keys := seq(|pairs|, i requires 0 <= i < |pairs| => pairs[i].0);
      KeysOnce(hashKey, model, hashMap.model, rs, keys);
    }
  }

  /** Records with different ids have different keys, since the hash is a function of the key. */
  lemma KeysOnce(f: seq<byte> -> Hash, model: ShardedMap.Model, stored: map<Key, seq<byte>>, rs: seq<Record>,
                 keys: seq<seq<byte>>)
    requires Agrees(f, model, stored) && ExactlyOnce(rs, stored)
    requires |keys| == |rs| && forall i :: 0 <= i < |rs| ==> keys[i] == rs[i].key
    ensures ShardedMap.NoRepeats(keys) && forall k :: k in keys <==> k in model
  {
    forall i | 0 <= i < |rs|
      ensures rs[i].Id() in stored && rs[i].hash == f(rs[i].key) && rs[i].key in model
    {
      FindInAny(rs, i);
      assert Lookup(stored, rs[i].Id()).Some?;
    }
    forall k | k in model
      ensures k in keys
    {
      assert Lookup(stored, (f(k), k)).Some?;
      var i := FindInStored(rs, (f(k), k));
      assert keys[i] == k;
    }
  }
}
