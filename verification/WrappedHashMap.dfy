/** The typed wrapper: keys hashed by one function, values of one fixed size, handed out as references
    into the stored bytes. */
module WrappedHashMapModule {
  import opened Bits
  import opened Records
  import opened ContainerModule
  import opened HashMapModule

  /** Keys are stored under their hash. */
  ghost predicate Agrees(f: seq<byte> -> Hash, model: map<seq<byte>, seq<byte>>, stored: map<Key, seq<byte>>) {
    && (forall key :: key in model ==> (f(key), key) in stored)
    && (forall id :: id in stored ==> id.0 == f(id.1) && id.1 in model && model[id.1] == stored[id])
  }

  lemma AgreesOn(f: seq<byte> -> Hash, model: map<seq<byte>, seq<byte>>, stored: map<Key, seq<byte>>, key: seq<byte>)
    requires Agrees(f, model, stored)
    ensures key in model <==> (f(key), key) in stored
    ensures key in model ==> model[key] == stored[(f(key), key)]
  {
    if (f(key), key) in stored { assert (f(key), key).1 in model; }
  }

  lemma AgreesPut(f: seq<byte> -> Hash, model: map<seq<byte>, seq<byte>>, stored: map<Key, seq<byte>>,
                  key: seq<byte>, value: seq<byte>)
    requires Agrees(f, model, stored)
    ensures Agrees(f, model[key := value], stored[(f(key), key) := value])
  {}

  lemma AgreesRemove(f: seq<byte> -> Hash, model: map<seq<byte>, seq<byte>>, stored: map<Key, seq<byte>>,
                     key: seq<byte>)
    requires Agrees(f, model, stored)
    ensures Agrees(f, model - {key}, stored - {(f(key), key)})
  {}

  /** All values have the size of the value type. */
  ghost predicate AllOfSize(size: nat, model: map<seq<byte>, seq<byte>>) {
    forall key :: key in model ==> |model[key]| == size
  }

  lemma PutTwice(m: map<seq<byte>, seq<byte>>, key: seq<byte>, first: seq<byte>, second: seq<byte>)
    ensures m[key := first][key := second] == m[key := second]
  {}

  class WrappedHashMap {
    const hashMap: HashMap
    const hashFunction: seq<byte> -> Hash
    /** sizeof(Value) */
    const valueSize: nat

    /** The map from keys to values that clients see. */
    ghost var model: map<seq<byte>, seq<byte>>

    ghost predicate Valid()
      reads this, hashMap, hashMap.catalogue, hashMap.catalogue.buffer, hashMap.container
    {
      hashMap.Valid() && Agrees(hashFunction, model, hashMap.model) && AllOfSize(valueSize, model)
    }

    constructor (hashFunction: seq<byte> -> Hash, valueSize: nat)
      ensures Valid() && model == map[]
      ensures this.hashFunction == hashFunction && this.valueSize == valueSize
      ensures fresh(hashMap) && fresh(hashMap.catalogue) && fresh(hashMap.catalogue.buffer) && fresh(hashMap.container)
    {
      this.hashFunction := hashFunction;
      this.valueSize := valueSize;
      hashMap := new HashMap();
      model := map[];
    }

    /** The value-initialised value type. */
    function Default(): (value: seq<byte>)
      ensures |value| == valueSize
    {
      seq(valueSize, _ => 0)
    }

    /** Whether a missing key could be inserted. */
    ghost predicate Insertable(key: seq<byte>)
      reads this, hashMap, hashMap.catalogue, hashMap.container
    {
      key !in model ==>
        Fits(Record(hashFunction(key), key, Default())) && hashMap.CanDouble()
    }

    /** A reference to the value of a key, inserted with the default value if it was missing. */
    method Index(key: seq<byte>) returns (view: View)
      requires Valid() && Insertable(key)
      modifies this`model, hashMap, hashMap.catalogue, hashMap.catalogue.buffer, hashMap.container
      ensures Valid() && model == if key in old(model) then old(model) else old(model)[key := Default()]
      ensures key !in old(model) ==>
        |model[key]| == valueSize && forall i :: 0 <= i < valueSize ==> model[key][i] == 0
      ensures hashMap.Locates(view, hashFunction(key), key) && view.length == valueSize
      ensures hashMap.catalogue.buffer == old(hashMap.catalogue.buffer) || fresh(hashMap.catalogue.buffer)
    {
      var hash := hashFunction(key);
      AgreesOn(hashFunction, model, hashMap.model, key);
      AgreesPut(hashFunction, model, hashMap.model, key, Default());
      if key !in model {
        model := model[key := Default()];
      }
      view := hashMap.Get(hash, key, Default());
      AgreesOn(hashFunction, model, hashMap.model, key);
      ViewLength(hashMap.container, view, Record(hash, key, hashMap.model[(hash, key)]));
    }

    /** The bytes behind a reference. */
    method ReadThrough(view: View, ghost key: seq<byte>) returns (value: seq<byte>)
      requires Valid() && hashMap.Locates(view, hashFunction(key), key)
      ensures key in model && value == model[key] && |value| == valueSize
    {
      AgreesOn(hashFunction, model, hashMap.model, key);
      ghost var hash := hashFunction(key);
      value := hashMap.container.ReadView(view, Record(hash, key, hashMap.model[(hash, key)]));
    }

    /** Reading the value of a key: a missing one is inserted and reads as zeros. */
    method Value(key: seq<byte>) returns (value: seq<byte>)
      requires Valid() && Insertable(key)
      modifies this`model, hashMap, hashMap.catalogue, hashMap.catalogue.buffer, hashMap.container
      ensures Valid() && model == old(model)[key := value] && |value| == valueSize
      ensures key in old(model) ==> value == old(model)[key]
      ensures key !in old(model) ==> forall i :: 0 <= i < valueSize ==> value[i] == 0
      ensures hashMap.catalogue.buffer == old(hashMap.catalogue.buffer) || fresh(hashMap.catalogue.buffer)
    {
      var view := Index(key);
      value := ReadThrough(view, key);
    }

    /** Assigning through the reference changes that key's value and nothing else. */
    method Assign(key: seq<byte>, value: seq<byte>)
      requires Valid() && Insertable(key) && |value| == valueSize
      modifies this`model, hashMap, hashMap.catalogue, hashMap.catalogue.buffer, hashMap.container
      ensures Valid() && model == old(model)[key := value]
      ensures hashMap.catalogue.buffer == old(hashMap.catalogue.buffer) || fresh(hashMap.catalogue.buffer)
    {
      PutTwice(model, key, Default(), value);
      var view := Index(key);
      WriteThrough(view, key, value);
    }

    /** Writing a value through a reference. */
    method WriteThrough(view: View, ghost key: seq<byte>, value: seq<byte>)
      requires Valid() && hashMap.Locates(view, hashFunction(key), key) && |value| == valueSize == view.length
      modifies this`model, hashMap`model, hashMap.container
      ensures Valid() && model == old(model)[key := value]
    {
      AgreesPut(hashFunction, model, hashMap.model, key, value);
      model := model[key := value];
      hashMap.Overwrite(view, value, hashFunction(key), key);
    }

    method Remove(key: seq<byte>) returns (removed: bool)
      requires Valid()
      modifies this`model, hashMap`model, hashMap.container
      ensures Valid() && model == old(model) - {key} && (removed <==> key in old(model))
    {
      AgreesOn(hashFunction, model, hashMap.model, key);
      AgreesRemove(hashFunction, model, hashMap.model, key);
      removed := hashMap.Remove(hashFunction(key), key);
      model := model - {key};
    }
  }

  lemma ViewLength(c: Container, view: View, r: Record)
    requires c.Denotes(view, r)
    ensures view.length == |r.value|
  {}
}
