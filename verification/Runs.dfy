/** Whole runs: any sequence of operations on a fresh map answers like a finite map. */
module Runs {
  import opened Bits
  import opened Records
  import opened Contents
  import opened Directory
  import opened HashMapModule

  type Model = map<Key, seq<byte>>

  datatype Op = OpGet(hash: Hash, key: seq<byte>, value: seq<byte>)
              | OpFind(hash: Hash, key: seq<byte>)
              | OpRemove(hash: Hash, key: seq<byte>)

  datatype Answer = Value(value: Option<seq<byte>>) | Removed(removed: bool)

  /** What a finite map answers, and what becomes of it. */
  function Reply(m: Model, op: Op): Answer {
    match op
    case OpGet(h, k, v) => Value(Some(if (h, k) in m then m[(h, k)] else v))
    case OpFind(h, k) => Value(Lookup(m, (h, k)))
    case OpRemove(h, k) => Removed((h, k) in m)
  }

  function After(m: Model, op: Op): Model {
    match op
    case OpGet(h, k, v) => if (h, k) in m then m else m[(h, k) := v]
    case OpFind(h, k) => m
    case OpRemove(h, k) => m - {(h, k)}
  }

  /** The answers of a finite map to a sequence of operations, and the map they leave. */
  function Replies(m: Model, ops: seq<Op>): seq<Answer>
    decreases |ops|
  {
    if ops == [] then [] else [Reply(m, ops[0])] + Replies(After(m, ops[0]), ops[1..])
  }

  function Final(m: Model, ops: seq<Op>): Model
    decreases |ops|
  {
    if ops == [] then m else Final(After(m, ops[0]), ops[1..])
  }

  lemma {:induction false} RunSnoc(m: Model, ops: seq<Op>, op: Op)
    ensures Replies(m, ops + [op]) == Replies(m, ops) + [Reply(Final(m, ops), op)]
    ensures Final(m, ops + [op]) == After(Final(m, ops), op)
    decreases |ops|
  {
    if ops == [] {
      assert ops + [op] == [op] && [op][1..] == [];
    } else {
      assert (ops + [op])[0] == ops[0] && (ops + [op])[1..] == ops[1..] + [op];
      RunSnoc(After(m, ops[0]), ops[1..], op);
    }
  }

  // ---------------------------------------------------------- what the answers mean

  predicate GetsAt(ops: seq<Op>, i: nat, id: Key) {
    i < |ops| && ops[i].OpGet? && (ops[i].hash, ops[i].key) == id
  }

  predicate RemovesAt(ops: seq<Op>, i: nat, id: Key) {
    i < |ops| && ops[i].OpRemove? && (ops[i].hash, ops[i].key) == id
  }

  /** Get q gave a key the value that it has just before operation i: it is the first get of the key since
      the key was last removed. */
  ghost predicate Origin(ops: seq<Op>, i: nat, id: Key, q: nat) {
    && q < i <= |ops| && GetsAt(ops, q, id)
    && (forall j :: q < j < i ==> !RemovesAt(ops, j, id))
    && (forall j :: 0 <= j < q && GetsAt(ops, j, id) ==> exists r :: j < r < q && RemovesAt(ops, r, id))
  }

  /** If a key has been got since it was last removed, then some get was the first. */
  lemma {:induction false} FirstGet(ops: seq<Op>, i: nat, id: Key, g: nat) returns (q: nat)
    requires g < i <= |ops| && GetsAt(ops, g, id) && forall j :: g < j < i ==> !RemovesAt(ops, j, id)
    ensures Origin(ops, i, id, q)
    decreases g
  {
    if e: nat :| e < g && GetsAt(ops, e, id) && forall r :: e < r < g ==> !RemovesAt(ops, r, id) {
      q := FirstGet(ops, i, id, e);
    } else {
      q := g;
    }
  }

  /** The finite map after i operations, told by the operations alone. */
  lemma {:induction false} OriginLaw(ops: seq<Op>, i: nat, id: Key)
    requires i <= |ops|
    ensures id in Final(map[], ops[..i]) <==> exists q: nat :: Origin(ops, i, id, q)
    ensures forall q: nat :: Origin(ops, i, id, q) ==>
      id in Final(map[], ops[..i]) && Final(map[], ops[..i])[id] == ops[q].value
  {
    if i == 0 {
      assert ops[..0] == [];
    } else {
      var j := i - 1;
      OriginLaw(ops, j, id);
      RunSnoc(map[], ops[..j], ops[j]);
      assert ops[..i] == ops[..j] + [ops[j]];
      OriginStep(ops, i, j, id);
    }
  }

  /** How one more operation changes which get is the origin. */
  lemma OriginStep(ops: seq<Op>, i: nat, j: nat, id: Key)
    requires j < |ops| && i == j + 1
    ensures RemovesAt(ops, j, id) ==> forall q: nat :: !Origin(ops, i, id, q)
    ensures !RemovesAt(ops, j, id) ==> forall q: nat :: q != j ==> (Origin(ops, i, id, q) <==> Origin(ops, j, id, q))
    ensures Origin(ops, i, id, j) <==> GetsAt(ops, j, id) && forall q: nat :: !Origin(ops, j, id, q)
  {
    if GetsAt(ops, j, id) && !Origin(ops, i, id, j) {
      var g: nat :| g < j && GetsAt(ops, g, id) && forall r :: g < r < j ==> !RemovesAt(ops, r, id);
      var q := FirstGet(ops, j, id, g);
    }
  }

  lemma {:induction false} ReplyAt(ops: seq<Op>, i: nat)
    requires i < |ops|
    ensures |Replies(map[], ops)| == |ops| && Replies(map[], ops)[i] == Reply(Final(map[], ops[..i]), ops[i])
    decreases |ops|
  {
    var n := |ops| - 1;
    RunSnoc(map[], ops[..n], ops[n]);
    assert ops == ops[..n] + [ops[n]];
    if i < n {
      ReplyAt(ops[..n], i);
      assert ops[..n][..i] == ops[..i];
    } else {
      RepliesLength(map[], ops[..n]);
    }
  }

  lemma {:induction false} RepliesLength(m: Model, ops: seq<Op>)
    ensures |Replies(m, ops)| == |ops|
    decreases |ops|
  {
    if ops != [] { RepliesLength(After(m, ops[0]), ops[1..]); }
  }

  /** Every answer of a run, told by the operations alone: find gives the value of the first get since the
      last remove, get the same or else its own default, and remove says whether there was such a get. */
  lemma AnswerLaw(ops: seq<Op>, i: nat)
    requires i < |ops|
    ensures |Replies(map[], ops)| == |ops|
    ensures var id, answer := (ops[i].hash, ops[i].key), Replies(map[], ops)[i];
      && (ops[i].OpRemove? ==> (answer == Removed(true) <==> exists q: nat :: Origin(ops, i, id, q)) && answer.Removed?)
      && (!ops[i].OpRemove? ==> forall q: nat :: Origin(ops, i, id, q) ==> answer == Value(Some(ops[q].value)))
      && (ops[i].OpFind? && (forall q: nat :: !Origin(ops, i, id, q)) ==> answer == Value(None))
      && (ops[i].OpGet? && (forall q: nat :: !Origin(ops, i, id, q)) ==> answer == Value(Some(ops[i].value)))
  {
    ReplyAt(ops, i);
    OriginLaw(ops, i, (ops[i].hash, ops[i].key));
  }

  // -------------------------------------------------------------------- running them

  predicate Inserts(m: Model, op: Op) {
    op.OpGet? && (op.hash, op.key) !in m
  }

  /** An operation returns unless it would insert a record larger than a bucket. */
  predicate Returns(m: Model, op: Op) {
    Inserts(m, op) ==> Fits(Record(op.hash, op.key, op.value))
  }

  /** An input that does not: a value of 4067 bytes under the empty key. */
  lemma OversizedGet(value: seq<byte>)
    requires |value| == 4067
    ensures !Returns(map[], OpGet(0, [], value))
  {
    FitsBySize(Record(0, [], value));
  }

  /** One operation on the map. */
  method Execute(m: HashMap, op: Op) returns (answer: Answer)
    requires m.Valid()
    requires Returns(m.model, op) && (Inserts(m.model, op) ==> m.CanDouble())
    modifies m, m.catalogue, m.catalogue.buffer, m.container
    ensures m.Valid() && m.model == After(old(m.model), op) && answer == Reply(old(m.model), op)
    ensures m.catalogue.buffer == old(m.catalogue.buffer) || fresh(m.catalogue.buffer)
  {
    match op
    case OpGet(hash, key, value) =>
      var stored := GetValue(m, hash, key, value);
      answer := Value(Some(stored));
    case OpFind(hash, key) =>
      var stored := FindValue(m, hash, key);
      answer := Value(stored);
    case OpRemove(hash, key) =>
      var removed := m.Remove(hash, key);
      answer := Removed(removed);
  }

  method WillInsert(m: HashMap, op: Op) returns (inserts: bool)
    requires m.Valid()
    ensures inserts == Inserts(m.model, op)
  {
    inserts := false;
    if op.OpGet? {
      var found := m.Find(op.hash, op.key);
      inserts := found.None?;
    }
  }

  /** The bytes found for a key. */
  method FindValue(m: HashMap, hash: Hash, key: seq<byte>) returns (value: Option<seq<byte>>)
    requires m.Valid()
    ensures value == Lookup(m.model, (hash, key))
  {
    var view := m.Find(hash, key);
    if view.None? {
      return None;
    }
    var stored := m.container.ReadView(view.value, Record(hash, key, m.model[(hash, key)]));
    return Some(stored);
  }

  /** The bytes that getting a key with a default gives. */
  method GetValue(m: HashMap, hash: Hash, key: seq<byte>, defaultValue: seq<byte>) returns (value: seq<byte>)
    requires m.Valid()
    requires (hash, key) !in m.model ==> Fits(Record(hash, key, defaultValue)) && m.CanDouble()
    modifies m, m.catalogue, m.catalogue.buffer, m.container
    ensures m.Valid() && m.model == After(old(m.model), OpGet(hash, key, defaultValue))
    ensures m.model[(hash, key)] == value
    ensures m.catalogue.buffer == old(m.catalogue.buffer) || fresh(m.catalogue.buffer)
  {
    var view := m.Get(hash, key, defaultValue);
    value := m.container.ReadView(view, Record(hash, key, m.model[(hash, key)]));
  }

  lemma RunNext(ops: seq<Op>, i: nat)
    requires i < |ops|
    ensures Replies(map[], ops[..i + 1]) == Replies(map[], ops[..i]) + [Reply(Final(map[], ops[..i]), ops[i])]
    ensures Final(map[], ops[..i + 1]) == After(Final(map[], ops[..i]), ops[i])
  {
    RunSnoc(map[], ops[..i], ops[i]);
    assert ops[..i + 1] == ops[..i] + [ops[i]];
  }

  /** Do an operation if it returns. */
  method Attempt(m: HashMap, op: Op) returns (done: bool, answer: Answer)
    requires m.Valid()
    modifies m, m.catalogue, m.catalogue.buffer, m.container
    ensures m.Valid() && (m.catalogue.buffer == old(m.catalogue.buffer) || fresh(m.catalogue.buffer))
    ensures done ==> m.model == After(old(m.model), op) && answer == Reply(old(m.model), op)
    ensures !done ==> m.model == old(m.model) && Inserts(m.model, op) && (!Returns(m.model, op) || !m.CanDouble())
  {
    done, answer := true, Removed(false);
    var inserts := WillInsert(m, op);
    if inserts && !(Fits(Record(op.hash, op.key, op.value)) && m.CanDouble()) {
      done := false;
    } else {
      answer := Execute(m, op);
    }
  }

  /** A run from a fresh map, of any operations. It ends early only at one that does not return, or when
      a directory of full depth would have to grow; up to there the answers and the contents are those of a
      finite map, whatever splits and doublings happen on the way. */
  method Run(ops: seq<Op>) returns (m: HashMap, answers: seq<Answer>)
    ensures fresh(m) && m.Valid() && |answers| <= |ops|
    ensures answers == Replies(map[], ops[..|answers|]) && m.model == Final(map[], ops[..|answers|])
    ensures |answers| < |ops| ==>
      Inserts(m.model, ops[|answers|]) && (!Returns(m.model, ops[|answers|]) || !m.CanDouble())
  {
    m := new HashMap();
    answers := [];
    assert ops[..0] == [];
    for i := 0 to |ops|
      invariant i == |answers| && fresh(m) && m.Valid()
      invariant fresh(m.catalogue) && fresh(m.catalogue.buffer) && fresh(m.container)
      invariant answers == Replies(map[], ops[..i]) && m.model == Final(map[], ops[..i])
    {
      RunNext(ops, i);
      var done, answer := Attempt(m, ops[i]);
      if !done {
        return;
      }
      answers := answers + [answer];
    }
  }
}
