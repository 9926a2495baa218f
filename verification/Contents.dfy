/** Record lists: the contents of a chain read in order, looked up by key, and split by a hash bit. */
module Contents {
  import opened Bits
  import opened Records

  datatype Option<+T> = None | Some(value: T)

  // ------------------------------------------------------- contents of a chain

  function At(recs: seq<seq<Record>>, b: nat): seq<Record> {
    if b < |recs| then recs[b] else []
  }

  /** The records of the buckets `c`, in chain order. */
  function Flat(recs: seq<seq<Record>>, c: seq<nat>): seq<Record> {
    if c == [] then [] else At(recs, c[0]) + Flat(recs, c[1..])
  }

  lemma {:induction false} FlatAppend(recs: seq<seq<Record>>, c: seq<nat>, d: seq<nat>)
    ensures Flat(recs, c + d) == Flat(recs, c) + Flat(recs, d)
  {
    if c == [] {
      assert c + d == d;
    } else {
      FlatAppend(recs, c[1..], d);
      assert (c + d)[0] == c[0] && (c + d)[1..] == c[1..] + d;
      Assoc(At(recs, c[0]), Flat(recs, c[1..]), Flat(recs, d));
    }
  }

  lemma Assoc<T>(a: seq<T>, b: seq<T>, c: seq<T>)
    ensures a + (b + c) == a + b + c
  {}

  lemma FlatOne(recs: seq<seq<Record>>, b: nat)
    ensures Flat(recs, [b]) == At(recs, b)
  {
    assert [b][1..] == [];
  }

  lemma FlatOfTwo(recs: seq<seq<Record>>, a: nat, b: nat)
    ensures Flat(recs, [a, b]) == At(recs, a) + At(recs, b)
  {
    assert [a, b][1..] == [b];
    FlatOne(recs, b);
  }

  lemma {:induction false} FlatAgree(recs: seq<seq<Record>>, other: seq<seq<Record>>, c: seq<nat>)
    requires forall i :: 0 <= i < |c| ==> At(recs, c[i]) == At(other, c[i])
    ensures Flat(recs, c) == Flat(other, c)
  {
    if c != [] {
      assert At(recs, c[0]) == At(other, c[0]);
      assert forall i :: 0 <= i < |c[1..]| ==> c[1..][i] == c[i + 1];
      FlatAgree(recs, other, c[1..]);
    }
  }

  lemma FlatAt(recs: seq<seq<Record>>, c: seq<nat>, i: nat)
    requires i < |c|
    ensures Flat(recs, c) == Flat(recs, c[..i]) + At(recs, c[i]) + Flat(recs, c[i + 1..])
  {
    assert c == c[..i] + ([c[i]] + c[i + 1..]);
    FlatAppend(recs, c[..i], [c[i]] + c[i + 1..]);
    FlatAppend(recs, [c[i]], c[i + 1..]);
    FlatOne(recs, c[i]);
  }

  lemma {:induction false} FlatEmpty(recs: seq<seq<Record>>, c: seq<nat>)
    requires forall i :: 0 <= i < |c| ==> At(recs, c[i]) == []
    ensures Flat(recs, c) == []
  {
    if c != [] {
      assert At(recs, c[0]) == [];
      assert forall i :: 0 <= i < |c[1..]| ==> c[1..][i] == c[i + 1];
      FlatEmpty(recs, c[1..]);
    }
  }

  /** Changing the records of one bucket of a chain. */
  lemma FlatUpdate(recs: seq<seq<Record>>, c: seq<nat>, i: nat, rs: seq<Record>)
    requires i < |c| && c[i] < |recs|
    requires forall j :: 0 <= j < |c| && j != i ==> c[j] != c[i]
    ensures Flat(recs[c[i] := rs], c) == Flat(recs, c[..i]) + rs + Flat(recs, c[i + 1..])
  {
    var other, tail := recs[c[i] := rs], c[i + 1..];
    FlatAt(other, c, i);
    FlatSkip(recs, c[i], rs, c[..i]);
    assert forall j :: 0 <= j < |tail| ==> tail[j] == c[i + 1 + j];
    FlatSkip(recs, c[i], rs, tail);
  }

  lemma FlatSkip(recs: seq<seq<Record>>, b: nat, rs: seq<Record>, c: seq<nat>)
    requires b < |recs| && forall j :: 0 <= j < |c| ==> c[j] != b
    ensures Flat(recs[b := rs], c) == Flat(recs, c)
  {
    FlatAgree(recs[b := rs], recs, c);
  }

  /** Appending to bucket i of a chain whose later buckets are empty appends to the chain. */
  lemma FlatExtend(recs: seq<seq<Record>>, c: seq<nat>, i: nat, r: Record)
    requires i < |c| && c[i] < |recs|
    requires forall j :: 0 <= j < |c| && j != i ==> c[j] != c[i]
    requires forall j :: i < j < |c| ==> At(recs, c[j]) == []
    ensures Flat(recs[c[i] := recs[c[i]] + [r]], c) == Flat(recs, c) + [r]
  {
    FlatUpdate(recs, c, i, recs[c[i]] + [r]);
    FlatAt(recs, c, i);
    FlatEmptyTail(recs, c, i);
  }

  lemma FlatEmptyTail(recs: seq<seq<Record>>, c: seq<nat>, i: nat)
    requires i < |c| && forall j :: i < j < |c| ==> At(recs, c[j]) == []
    ensures Flat(recs, c[i + 1..]) == []
  {
    var tail := c[i + 1..];
    assert forall j :: 0 <= j < |tail| ==> tail[j] == c[i + 1 + j];
    FlatEmpty(recs, tail);
  }

  // ------------------------------------------------------------------- lookup

  /** The value of the first record with this key. */
  function FindIn(rs: seq<Record>, id: Key): Option<seq<byte>> {
    if rs == [] then None
    else if rs[0].Id() == id then Some(rs[0].value)
    else FindIn(rs[1..], id)
  }

  predicate DistinctIds(rs: seq<Record>) {
    forall i, j :: 0 <= i < j < |rs| ==> rs[i].Id() != rs[j].Id()
  }

  lemma {:induction false} FindInAppend(a: seq<Record>, b: seq<Record>, id: Key)
    ensures FindIn(a + b, id) == if FindIn(a, id).Some? then FindIn(a, id) else FindIn(b, id)
  {
    if a == [] {
      assert a + b == b;
    } else {
      assert (a + b)[0] == a[0] && (a + b)[1..] == a[1..] + b;
      FindInAppend(a[1..], b, id);
    }
  }

  lemma {:induction false} FindInNone(rs: seq<Record>, id: Key)
    ensures FindIn(rs, id) == None <==> forall i :: 0 <= i < |rs| ==> rs[i].Id() != id
  {
    if rs != [] {
      FindInNone(rs[1..], id);
      assert forall i :: 1 <= i < |rs| ==> rs[i] == rs[1..][i - 1];
    }
  }

  lemma FindInHit(a: seq<Record>, r: Record, b: seq<Record>)
    requires forall i :: 0 <= i < |a| ==> a[i].Id() != r.Id()
    ensures FindIn(a + [r] + b, r.Id()) == Some(r.value)
  {
    FindInNone(a, r.Id());
    FindInAppend(a + [r], b, r.Id());
    FindInAppend(a, [r], r.Id());
  }

  /** Where the keys are distinct, any record can be looked up. */
  lemma FindInAny(rs: seq<Record>, i: nat)
    requires DistinctIds(rs) && i < |rs|
    ensures FindIn(rs, rs[i].Id()) == Some(rs[i].value)
  {
    assert rs == rs[..i] + [rs[i]] + rs[i + 1..];
    FindInHit(rs[..i], rs[i], rs[i + 1..]);
  }

  /** A key that is found belongs to a stored record. */
  lemma {:induction false} FindInStored(rs: seq<Record>, id: Key) returns (i: nat)
    requires FindIn(rs, id).Some?
    ensures i < |rs| && rs[i] == Record(id.0, id.1, FindIn(rs, id).value)
  {
    if rs[0].Id() == id {
      i := 0;
    } else {
      i := FindInStored(rs[1..], id);
      i := i + 1;
    }
  }

  /** Adding a record with a new key, anywhere in the list. */
  lemma InsertFind(a: seq<Record>, r: Record, b: seq<Record>, id: Key)
    requires FindIn(a + b, r.Id()) == None
    ensures FindIn(a + [r] + b, id) == if id == r.Id() then Some(r.value) else FindIn(a + b, id)
  {
    FindInAppend(a, b, id);
    FindInAppend(a + [r], b, id);
    FindInAppend(a, [r], id);
    assert [r][1..] == [];
  }

  lemma InsertDistinct(a: seq<Record>, r: Record, b: seq<Record>)
    requires DistinctIds(a + b) && FindIn(a + b, r.Id()) == None
    ensures DistinctIds(a + [r] + b)
  {
    FindInNone(a + b, r.Id());
    var was, rs := a + b, a + [r] + b;
    forall i, j | 0 <= i < j < |rs|
      ensures rs[i].Id() != rs[j].Id()
    {
      assert i < |a| ==> rs[i] == was[i];
      assert i > |a| ==> rs[i] == was[i - 1];
      assert j < |a| ==> rs[j] == was[j];
      assert j > |a| ==> rs[j] == was[j - 1];
    }
  }

  /** Taking a record out of a list with distinct keys forgets exactly its key. */
  lemma RemoveFind(a: seq<Record>, r: Record, b: seq<Record>, id: Key)
    requires DistinctIds(a + [r] + b)
    ensures FindIn(a + b, id) == if id == r.Id() then None else FindIn(a + [r] + b, id)
  {
    RemoveDistinct(a, r, b);
    if id != r.Id() { InsertFind(a, r, b, id); }
  }

  lemma RemoveDistinct(a: seq<Record>, r: Record, b: seq<Record>)
    requires DistinctIds(a + [r] + b)
    ensures DistinctIds(a + b) && FindIn(a + b, r.Id()) == None
  {
    var rs, was := a + b, a + [r] + b;
    forall i | 0 <= i < |rs|
      ensures rs[i] == was[if i < |a| then i else i + 1]
    {}
    assert was[|a|] == r;
    forall i | 0 <= i < |rs|
      ensures rs[i].Id() != r.Id()
    {
      assert rs[i] == was[if i < |a| then i else i + 1];
    }
    FindInNone(rs, r.Id());
  }

  /** Giving a record another value changes only what its key is mapped to. */
  lemma ReplaceFind(a: seq<Record>, r: Record, s: Record, b: seq<Record>, id: Key)
    requires DistinctIds(a + [r] + b) && s.Id() == r.Id()
    ensures FindIn(a + [s] + b, id) == if id == s.Id() then Some(s.value) else FindIn(a + [r] + b, id)
    ensures DistinctIds(a + [s] + b)
  {
    RemoveDistinct(a, r, b);
    InsertDistinct(a, s, b);
    InsertFind(a, r, b, id);
    InsertFind(a, s, b, id);
  }

  // ------------------------------------------------------ splitting by a hash bit

  predicate HasBit(h: Hash, s: nat) {
    h / Pow2(s) % 2 == 1
  }

  /** The records whose hash has bit s set (or clear), in their order. */
  function Select(rs: seq<Record>, s: nat, want: bool): seq<Record> {
    if rs == [] then []
    else (if HasBit(rs[0].hash, s) == want then [rs[0]] else []) + Select(rs[1..], s, want)
  }

  lemma {:induction false} SelectSnoc(rs: seq<Record>, r: Record, s: nat, want: bool)
    ensures Select(rs + [r], s, want) == Select(rs, s, want) + if HasBit(r.hash, s) == want then [r] else []
  {
    if rs == [] {
      assert rs + [r] == [r] && [r][1..] == [];
    } else {
      assert (rs + [r])[0] == rs[0] && (rs + [r])[1..] == rs[1..] + [r];
      SelectSnoc(rs[1..], r, s, want);
      Assoc(if HasBit(rs[0].hash, s) == want then [rs[0]] else [], Select(rs[1..], s, want),
            if HasBit(r.hash, s) == want then [r] else []);
    }
  }

  lemma {:induction false} SelectMember(rs: seq<Record>, s: nat, want: bool, r: Record)
    ensures r in Select(rs, s, want) <==> r in rs && HasBit(r.hash, s) == want
  {
    if rs != [] {
      SelectMember(rs[1..], s, want, r);
      assert rs == [rs[0]] + rs[1..];
    }
  }

  /** Looking a key up in its half is looking it up in the whole list. */
  lemma {:induction false} SelectFind(rs: seq<Record>, s: nat, want: bool, id: Key)
    ensures FindIn(Select(rs, s, want), id) == if HasBit(id.0, s) == want then FindIn(rs, id) else None
  {
    if rs != [] {
      var tail := Select(rs[1..], s, want);
      SelectFind(rs[1..], s, want, id);
      FindInAppend([rs[0]], tail, id);
      assert [] + tail == tail;
      assert [rs[0]][1..] == [];
    }
  }

  lemma TailDistinct(rs: seq<Record>)
    requires rs != [] && DistinctIds(rs)
    ensures DistinctIds(rs[1..]) && FindIn(rs[1..], rs[0].Id()) == None
  {
    assert rs == [] + [rs[0]] + rs[1..];
    RemoveDistinct([], rs[0], rs[1..]);
    assert [] + rs[1..] == rs[1..];
  }

  lemma PrependDistinct(r: Record, rs: seq<Record>)
    requires DistinctIds(rs) && FindIn(rs, r.Id()) == None
    ensures DistinctIds([r] + rs)
  {
    FindInNone(rs, r.Id());
  }

  lemma {:induction false} SelectDistinct(rs: seq<Record>, s: nat, want: bool)
    requires DistinctIds(rs)
    ensures DistinctIds(Select(rs, s, want))
  {
    if rs != [] {
      var tail := Select(rs[1..], s, want);
      TailDistinct(rs);
      SelectDistinct(rs[1..], s, want);
      SelectFind(rs[1..], s, want, rs[0].Id());
      PrependDistinct(rs[0], tail);
      assert [] + tail == tail;
    }
  }
}
