/** The container: buckets in one growing file, overflow chains, a free list, and the in-place
    splitting of a chain by one more hash bit. */
module ContainerModule {
  import opened Bits
  import opened Records
  import opened Contents
  import opened Buckets
  import opened Packing
  import opened Store
  import opened Splitting
  import opened Tightness

  /** Where a stored value lies. */
  datatype View = View(bucket: nat, offset: nat, length: nat)

  class Container {
    var buckets: seq<Bucket>
    var firstFree: int
    var mappedLength: nat

    ghost var shape: Shape
    ghost var recs: seq<seq<Record>>

    ghost predicate Sound()
      reads this
    {
      SoundStore(buckets, firstFree, shape, recs) && Mapped(mappedLength, |buckets|)
    }

    ghost predicate Valid()
      reads this
    {
      Sound() && Uniform(buckets, shape)
    }

    ghost function Contents(h: int): seq<Record>
      reads this
      requires h in shape.chains
    {
      Flat(recs, shape.chains[h])
    }

    constructor ()
      ensures Valid() && buckets == [] && shape == Shape(map[], [], [], [])
    {
      buckets, firstFree, mappedLength := [], INVALID, BytesFor(1);
      shape, recs := Shape(map[], [], [], []), [];
    }

    /** A bucket off the free list or, when that is empty, past the end of the file. */
    method CreateBucket(prefixBits: nat) returns (id: nat)
      requires Sound()
      modifies this
      ensures Sound()
      ensures id !in old(shape.chains) && shape.chains == old(shape.chains)[id := [id]]
      ensures Others(old(buckets), buckets, id)
      ensures Taken(old(shape.free), |old(buckets)|, shape.free, |buckets|, id)
      ensures mappedLength == Remapped(old(mappedLength), |buckets|)
      ensures buckets[id].prefixBits == prefixBits && buckets[id].bytesUsed == 0
      ensures SameRecords(old(recs), recs) && At(recs, id) == []
      ensures id < |old(buckets)| ==> old(shape.owner)[id] == INVALID
    {
      assert Unfold(0);
      if firstFree == INVALID {
        var bytesNeeded := |buckets| * BUCKET_BYTES + BytesFor(1);
        if bytesNeeded > mappedLength {
          mappedLength := bytesNeeded * 11 / 10;
        }
        id := |buckets|;
        var bucket := Bucket(prefixBits, 0, INVALID, seq(BUCKET_SIZE, _ => 0));
        EmptyHolds(bucket);
        ExtendSound(buckets, firstFree, shape, recs, bucket);
        buckets, recs, shape := buckets + [bucket], recs + [[]], Extended(shape);
      } else {
        id := firstFree;
        var bucket := buckets[id].(prefixBits := prefixBits, bytesUsed := 0, next := INVALID);
        EmptyHolds(bucket);
        PopSound(buckets, firstFree, shape, recs, bucket);
        firstFree := buckets[id].next;
        buckets, shape := buckets[id := bucket], Popped(shape);
      }
    }

    /** Hang a new bucket onto the end of chain `h`. */
    method ExtendChain(ghost h: int, last: nat, prefixBits: nat) returns (id: nat)
      requires Sound() && h in shape.chains && last == shape.chains[h][|shape.chains[h]| - 1]
      modifies this
      ensures Sound()
      ensures shape.chains == old(shape.chains)[h := old(shape.chains[h]) + [id]]
      ensures Extends(old(buckets), buckets, last, id)
      ensures Taken(old(shape.free), |old(buckets)|, shape.free, |buckets|, id)
      ensures mappedLength == Remapped(old(mappedLength), |buckets|)
      ensures buckets[id].prefixBits == prefixBits && buckets[id].bytesUsed == 0
      ensures SameRecords(old(recs), recs) && At(recs, id) == []
    {
      ChainStep(buckets, firstFree, shape, recs, h, |shape.chains[h]| - 1);
      assert last < |buckets| && shape.owner[last] == h && h != INVALID;
      id := CreateBucket(prefixBits);
      assert h != id && shape.chains[h] == old(shape.chains[h]) && shape.chains[id] == [id];
      ChainsJoined(old(shape.chains), h, id);
      LinkExtends(old(buckets), buckets, last, id);
      HangOn(h, last, id);
    }

    method HangOn(ghost h: int, last: nat, id: nat)
      requires Sound() && h in shape.chains && last == shape.chains[h][|shape.chains[h]| - 1]
      requires id in shape.chains && h != id && shape.chains[id] == [id] && id < |buckets|
      modifies this`buckets, this`shape
      ensures Sound() && buckets == old(buckets)[last := old(buckets[last]).(next := id)]
      ensures shape.chains == (old(shape.chains) - {id})[h := old(shape.chains[h]) + [id]]
      ensures shape.free == old(shape.free)
    {
      JoinSound(buckets, firstFree, shape, recs, h, id);
      buckets := buckets[last := buckets[last].(next := id)];
      shape := Joined(shape, h, id);
    }

    /** The view is the value of record m of its bucket. */
    ghost predicate Shows(v: View, m: nat)
      reads this
    {
      && v.bucket < |recs| && m < |recs[v.bucket]|
      && var rs := recs[v.bucket];
         v.offset == KeyOffset(Offset(rs, m), rs[m]) + |rs[m].key| && v.length == |rs[m].value|
    }

    /** The view is the stored value of record `r`. */
    ghost predicate Denotes(v: View, r: Record)
      reads this
    {
      exists m: nat :: Shows(v, m) && recs[v.bucket][m] == r
    }

    /** The bytes a view stands for. */
    method ReadView(v: View, ghost r: Record) returns (value: seq<byte>)
      requires Sound() && Denotes(v, r)
      ensures value == r.value
    {
      BucketHolds(buckets, firstFree, shape, recs, v.bucket);
      ghost var m: nat :| Shows(v, m) && recs[v.bucket][m] == r;
      HeldValue(buckets[v.bucket], recs[v.bucket], m);
      value := buckets[v.bucket].data[v.offset..v.offset + v.length];
    }

    /** Search chain `head` for a key. */
    method FindRecord(head: nat, hash: Hash, key: seq<byte>) returns (result: Option<View>)
      requires Sound() && head in shape.chains
      ensures result.None? <==> FindIn(Contents(head), (hash, key)).None?
      ensures result.Some? ==>
        && Denotes(result.value, Record(hash, key, FindIn(Contents(head), (hash, key)).value))
        && result.value.bucket in shape.chains[head]
    {
      ghost var c, i := shape.chains[head], 0;
      var id: int := head;
      assert c[..0] == [];
      while id != INVALID
        invariant i <= |c| && id == (if i < |c| then c[i] else INVALID)
        invariant FindIn(Flat(recs, c[..i]), (hash, key)) == None
        decreases |c| - i
      {
        ChainStep(buckets, firstFree, shape, recs, head, i);
        var found, start, cursor, valueLength;
        ghost var m;
        found, start, cursor, valueLength, m := Scan(buckets[id], recs[id], hash, key);
        if found {
          FirstMatch(recs, c, i, m);
          var v := View(id, cursor + |key|, valueLength);
          assert Shows(v, m);
          return Some(v);
        }
        NotInPrefix(recs, c, i, (hash, key));
        id := buckets[id].next;
        i := i + 1;
      }
      assert c[..i] == c;
      return None;
    }

    /** The chains have the same heads with the same prefix lengths, and all but `head` the same contents. */
    twostate predicate OnlyChanges(head: int)
      requires old(Sound()) && Sound()
      reads this
    {
      && shape.chains.Keys == old(shape.chains).Keys
      && (forall g :: g in shape.chains && g != head ==> Contents(g) == old(Contents(g)))
      && (forall g :: g in shape.chains ==> buckets[g].prefixBits == old(buckets[g].prefixBits))
    }

    /** From bucket `id`, at place i of chain `head`, to the one after it, which is added if there is none. */
    method WalkStep(ghost head: int, id: nat, ghost i: nat) returns (next: nat)
      requires Valid() && head in shape.chains && i < |shape.chains[head]| && id == shape.chains[head][i]
      modifies this
      ensures Valid() && OnlyChanges(head) && Contents(head) == old(Contents(head))
      ensures i + 1 < |shape.chains[head]| && next == shape.chains[head][i + 1]
      ensures i + 1 < |old(shape.chains)[head]| ==> unchanged(this)
      ensures i + 1 == |old(shape.chains)[head]| ==>
        && shape.chains[head] == old(shape.chains)[head] + [next] && buckets[next].bytesUsed == 0
        && Taken(old(shape.free), |old(buckets)|, shape.free, |buckets|, next)
      ensures SameRecords(old(recs), recs)
    {
      ChainStep(buckets, firstFree, shape, recs, head, i);
      if buckets[id].next == INVALID {
        next := ExtendChain(head, id, buckets[id].prefixBits);
        assert UnfoldIds(0);
        ExtendUniform(old(buckets), buckets, old(shape), shape, head, next);
        BucketHolds(buckets, firstFree, shape, recs, next);
        GrownContents(old(recs), recs, old(shape.chains), head, next);
      } else {
        next := buckets[id].next;
      }
    }

    /** First fit: walk chain `head` to the first bucket with room, adding one at its end if there is none. */
    method FirstFit(head: nat, bytesRequired: nat) returns (id: nat, ghost i: nat)
      requires Valid() && head in shape.chains && bytesRequired <= BUCKET_SIZE
      modifies this
      ensures Valid() && OnlyChanges(head) && Contents(head) == old(Contents(head))
      ensures FirstRoom(old(buckets), old(shape.chains)[head], bytesRequired, i)
      ensures i < |old(shape.chains)[head]| ==> unchanged(this)
      ensures i == |old(shape.chains)[head]| ==>
        && shape.chains[head] == old(shape.chains)[head] + [id]
        && Taken(old(shape.free), |old(buckets)|, shape.free, |buckets|, id)
      ensures shape.chains[head][i] == id && SameRecords(old(recs), recs)
      ensures buckets[id].bytesUsed + bytesRequired <= BUCKET_SIZE
    {
      ghost var n := |shape.chains[head]|;
      id, i := head, 0;
      while buckets[id].bytesUsed + bytesRequired > BUCKET_SIZE
        invariant Valid() && OnlyChanges(head) && Contents(head) == old(Contents(head))
        invariant i < |shape.chains[head]| && id == shape.chains[head][i] && i <= n
        invariant forall j :: 0 <= j < i ==>
          old(buckets)[old(shape.chains)[head][j]].bytesUsed + bytesRequired > BUCKET_SIZE
        invariant i < n ==> unchanged(this)
        invariant i == n ==>
          && shape.chains[head] == old(shape.chains)[head] + [id] && buckets[id].bytesUsed == 0
          && Taken(old(shape.free), |old(buckets)|, shape.free, |buckets|, id)
        invariant SameRecords(old(recs), recs)
        decreases n - i
      {
        id := WalkStep(head, id, i);
        i := i + 1;
      }
    }

    /** The first n steps of the walk for a record of any size. With a record larger than a bucket it is
        still running after n steps, however large n is, and has grown the chain beyond n buckets; with
        any other it has ended once n exceeds the length of the chain. */
    method WalkFor(head: nat, bytesRequired: nat, n: nat) returns (running: bool)
      requires Valid() && head in shape.chains
      modifies this
      ensures Valid() && OnlyChanges(head) && Contents(head) == old(Contents(head))
      ensures n >= |old(shape.chains)[head]| ==> (running <==> bytesRequired > BUCKET_SIZE)
      ensures bytesRequired > BUCKET_SIZE ==> running && |shape.chains[head]| > n
      ensures |buckets| >= |old(buckets)|
    {
      ghost var length := |shape.chains[head]|;
      var id, i := head, 0;
      while i < n && buckets[id].bytesUsed + bytesRequired > BUCKET_SIZE
        invariant Valid() && OnlyChanges(head) && Contents(head) == old(Contents(head))
        invariant i <= n && i < |shape.chains[head]| && id == shape.chains[head][i]
        invariant i >= length ==> buckets[id].bytesUsed == 0
        invariant i < length ==> |shape.chains[head]| == length
        invariant i >= length ==> |shape.chains[head]| == i + 1
        invariant |buckets| >= |old(buckets)|
      {
        id := WalkStep(head, id, i);
        i := i + 1;
      }
      running := buckets[id].bytesUsed + bytesRequired > BUCKET_SIZE;
    }

    /** Write a record behind the records of bucket `id`. */
    method PutRecord(ghost head: int, id: nat, ghost i: nat, hash: Hash, key: seq<byte>, value: seq<byte>)
      returns (view: View, ghost at: nat)
      requires Valid() && head in shape.chains && i < |shape.chains[head]| && id == shape.chains[head][i]
      requires buckets[id].bytesUsed + BytesRequired(|key|, |value|) <= BUCKET_SIZE
      modifies this`buckets, this`recs
      ensures Valid() && OnlyChanges(head) && |buckets| == |old(buckets)|
      ensures at <= |old(Contents(head))|
      ensures Contents(head) == old(Contents(head))[..at] + [Record(hash, key, value)] + old(Contents(head))[at..]
      ensures view.bucket == id && Denotes(view, Record(hash, key, value))
      ensures AddedTo(old(recs), recs, id, Record(hash, key, value))
    {
      ghost var r := Record(hash, key, value);
      EncodeSize(r);
      ghost var nb;
      at, nb := PutSound(buckets, firstFree, shape, recs, head, i, r);
      var bucket := buckets[id];
      var data, cursor := WriteRecord(bucket.data, bucket.bytesUsed, hash, key, value);
      bucket := bucket.(data := data, bytesUsed := bucket.bytesUsed + BytesRequired(|key|, |value|));
      assert bucket == Appended(buckets[id], r);
      buckets, recs := buckets[id := bucket], recs[id := recs[id] + [r]];
      view := View(id, cursor, |value|);
      assert Shows(view, |old(recs[id])|);
    }

    /** Store a record that fits a bucket, in the first bucket of chain `head` with room for it. */
    method CreateRecord(head: nat, hash: Hash, key: seq<byte>, value: seq<byte>)
      returns (view: View, ghost at: nat, ghost place: nat)
      requires Valid() && head in shape.chains && Fits(Record(hash, key, value))
      modifies this
      ensures Valid() && OnlyChanges(head)
      ensures at <= |old(Contents(head))|
      ensures Contents(head) == old(Contents(head))[..at] + [Record(hash, key, value)] + old(Contents(head))[at..]
      ensures PutFirst(head, Record(hash, key, value), view.bucket, place)
      ensures Denotes(view, Record(hash, key, value)) && view.bucket in shape.chains[head]
    {
      EncodeSize(Record(hash, key, value));
      var id;
      id, place := FirstFit(head, BytesRequired(|key|, |value|));
      view, at := PutRecord(head, id, place, hash, key, value);
    }

    /** First fit: the record has been added behind the others of the first bucket of chain `head` that had
        room for it; if none had, behind the chain, in a bucket off the free list or past the end of the file. */
    twostate predicate PutFirst(head: int, r: Record, id: nat, place: nat)
      reads this
      requires head in old(shape.chains) && head in shape.chains
    {
      var c := old(shape.chains)[head];
      && FirstRoom(old(buckets), c, |Encode(r)|, place) && AddedTo(old(recs), recs, id, r)
      && (place < |c| ==>
            id == c[place] && shape == old(shape) && |buckets| == |old(buckets)| && mappedLength == old(mappedLength))
      && (place == |c| ==>
            shape.chains[head] == c + [id] && Taken(old(shape.free), |old(buckets)|, shape.free, |buckets|, id))
    }

    /** Shift the bytes behind a record down over it. */
    method ShiftOut(ghost head: int, ghost i: nat, ghost m: nat, id: nat, start: nat, recordLength: nat)
      returns (ghost at: nat)
      requires Valid() && head in shape.chains && i < |shape.chains[head]| && id == shape.chains[head][i]
      requires m < |recs[id]| && start == Offset(recs[id], m) && recordLength == |Encode(recs[id][m])|
      modifies this`buckets, this`recs
      ensures Valid() && OnlyChanges(head) && |buckets| == |old(buckets)|
      ensures at < |old(Contents(head))| && old(Contents(head))[at] == old(recs[id][m])
      ensures Contents(head) == old(Contents(head))[..at] + old(Contents(head))[at + 1..]
      ensures TakenFrom(old(recs), recs, id, m)
    {
      ghost var nb, rs;
      at, nb, rs := RemoveSound(buckets, firstFree, shape, recs, head, i, m);
      var end := start + recordLength;
      var shifted := CopyForward(buckets, id, end, id, start, buckets[id].bytesUsed - end);
      var bucket := shifted[id].(bytesUsed := shifted[id].bytesUsed - recordLength);
      assert bucket == nb && shifted[id := bucket] == buckets[id := nb];
      buckets, recs := shifted[id := bucket], recs[id := rs];
    }

    /** Remove the record with this key from chain `head` by shifting the rest of its bucket down over it. */
    method RemoveRecord(head: nat, hash: Hash, key: seq<byte>) returns (removed: bool, ghost at: nat)
      requires Valid() && head in shape.chains
      modifies this`buckets, this`recs
      ensures Valid() && OnlyChanges(head) && |buckets| == |old(buckets)|
      ensures removed <==> FindIn(old(Contents(head)), (hash, key)).Some?
      ensures removed ==>
        && at < |old(Contents(head))| && old(Contents(head))[at].Id() == (hash, key)
        && Contents(head) == old(Contents(head))[..at] + old(Contents(head))[at + 1..]
        && exists id: nat, m: nat :: TakenFrom(old(recs), recs, id, m) && id in shape.chains[head]
      ensures !removed ==> buckets == old(buckets) && recs == old(recs)
    {
      ghost var c, i := shape.chains[head], 0;
      at := 0;
      var id: int := head;
      assert c[..0] == [];
      while id != INVALID
        invariant buckets == old(buckets) && recs == old(recs)
        invariant i <= |c| && id == (if i < |c| then c[i] else INVALID)
        invariant FindIn(Flat(recs, c[..i]), (hash, key)) == None
        decreases |c| - i
      {
        ChainStep(buckets, firstFree, shape, recs, head, i);
        var found, start, cursor, valueLength;
        ghost var m;
        found, start, cursor, valueLength, m := Scan(buckets[id], recs[id], hash, key);
        if found {
          FirstMatch(recs, c, i, m);
          EncodeParts(recs[id][m]);
          at := ShiftOut(head, i, m, id, start, (cursor - start) + |key| + valueLength);
          assert TakenFrom(old(recs), recs, id, m) && id in shape.chains[head];
          return true, at;
        }
        NotInPrefix(recs, c, i, (hash, key));
        id := buckets[id].next;
        i := i + 1;
      }
      assert c[..i] == c;
      return false, at;
    }

    /** A client writes a value of the same size through a view it was handed. */
    method Overwrite(v: View, value: seq<byte>, ghost head: int, ghost r: Record) returns (ghost at: nat)
      requires Valid() && head in shape.chains && v.bucket in shape.chains[head]
      requires Denotes(v, r) && |value| == v.length
      modifies this`buckets, this`recs
      ensures Valid() && OnlyChanges(head) && |buckets| == |old(buckets)|
      ensures at < |old(Contents(head))| && old(Contents(head))[at] == r
      ensures Contents(head) == old(Contents(head))[..at] + [r.(value := value)] + old(Contents(head))[at + 1..]
      ensures Denotes(v, r.(value := value))
      ensures forall b :: 0 <= b < |buckets| && b != v.bucket ==> buckets[b] == old(buckets[b])
    {
      ghost var m: nat :| Shows(v, m) && recs[v.bucket][m] == r;
      ghost var i :| 0 <= i < |shape.chains[head]| && shape.chains[head][i] == v.bucket;
      at := StoreValue(head, i, m, v.bucket, v.offset, value);
      assert recs[v.bucket][..m] == old(recs[v.bucket])[..m];
      assert Shows(v, m);
    }

    method StoreValue(ghost head: int, ghost i: nat, ghost m: nat, id: nat, offset: nat, value: seq<byte>)
      returns (ghost at: nat)
      requires Valid() && head in shape.chains && i < |shape.chains[head]| && id == shape.chains[head][i]
      requires m < |recs[id]| && |value| == |recs[id][m].value|
      requires offset == KeyOffset(Offset(recs[id], m), recs[id][m]) + |recs[id][m].key|
      modifies this`buckets, this`recs
      ensures Valid() && OnlyChanges(head) && |buckets| == |old(buckets)|
      ensures at < |old(Contents(head))| && old(Contents(head))[at] == old(recs[id][m])
      ensures Contents(head) ==
        old(Contents(head))[..at] + [old(recs[id][m]).(value := value)] + old(Contents(head))[at + 1..]
      ensures recs == old(recs)[id := old(recs[id])[m := old(recs[id][m]).(value := value)]]
      ensures forall b :: 0 <= b < |buckets| && b != id ==> buckets[b] == old(buckets[b])
    {
      ghost var nb, rs;
      at, nb, rs := OverwriteSound(buckets, firstFree, shape, recs, head, i, m, value);
      var bucket := Stored(buckets[id], offset, value);
      assert bucket == nb;
      buckets, recs := buckets[id := bucket], recs[id := rs];
    }

    /** The record at a byte offset of a bucket and the offset behind it, unless the records end there. */
    method ReadRecord(id: nat, byteOffset: nat, ghost m: nat) returns (found: bool, next: nat, record: Record)
      requires Sound() && id < |buckets| && m <= |recs[id]| && byteOffset == Offset(recs[id], m)
      ensures found <==> m < |recs[id]|
      ensures found ==> record == recs[id][m] && next == Offset(recs[id], m + 1)
      ensures !found ==> next == byteOffset
    {
      var bucket := buckets[id];
      BucketHolds(buckets, firstFree, shape, recs, id);
      HeldEnd(bucket, recs[id], m);
      if byteOffset >= bucket.bytesUsed {
        return false, byteOffset, Record(0, [], []);
      }
      HeldRecord(bucket, recs[id], m);
      var hash, keyLength, valueLength, cursor := ReadHeader(bucket.data, byteOffset, recs[id][m]);
      var valueStart := cursor + keyLength;
      record := Record(hash, bucket.data[cursor..valueStart], bucket.data[valueStart..valueStart + valueLength]);
      return true, valueStart + valueLength, record;
    }

    /** A chain is long if it has three buckets or more, or two with records for one and a half. */
    ghost predicate Long(head: int)
      requires head in shape.chains
      reads this
    {
      || |shape.chains[head]| >= 3
      || (|shape.chains[head]| == 2 && 2 * |EncodeAll(Contents(head))| > 3 * BUCKET_SIZE)
    }

    /** Those are the chains to be split. */
    lemma SplitWhenLong(head: nat)
      requires Sound() && head in shape.chains
      ensures BucketToSplit(head) <==> Long(head)
    {
      var c := shape.chains[head];
      ChainStep(buckets, firstFree, shape, recs, head, 0);
      if |c| >= 2 {
        ChainStep(buckets, firstFree, shape, recs, head, 1);
        FlatOfTwo(recs, c[0], c[1]);
        if |c| == 2 {
          assert c == [c[0], c[1]];
          EncodeAllAppend(recs[c[0]], recs[c[1]]);
        }
      }
    }

    /** Whether chain `head` is long enough to be worth splitting. */
    predicate BucketToSplit(head: nat)
      requires Sound() && head in shape.chains
      reads this
    {
      assert shape.chains[head][0] == head;
      ChainStep(buckets, firstFree, shape, recs, head, 0);
      if buckets[head].next == INVALID then false
      else
        ChainStep(buckets, firstFree, shape, recs, head, 1);
        var second := buckets[buckets[head].next];
        second.next != INVALID || buckets[head].bytesUsed + second.bytesUsed > 3 * BUCKET_SIZE / 2
    }

    // ------------------------------------------------------------ splitting

    ghost function Now(): State
      reads this
    {
      State(buckets, firstFree, shape, recs)
    }

    /** The split is on track, its writers stand at `bit0`/`put0` and `bit1`/`put1`, and the new
        chain accounts for every bucket taken off the free list or added to the file. */
    ghost predicate OnTrack(job: Job, c: Cursor, bit0: nat, put0: nat, bit1: nat, put1: nat)
      reads this
    {
      && InSplit(job, Now(), c) && Mapped(mappedLength, |buckets|)
      && bit0 == job.Chain()[c.writer] && bit1 == Newest(job, Now())
      && put0 == (if c.entered == 0 then 0 else buckets[bit0].bytesUsed) && put1 == buckets[bit1].bytesUsed
      && Allocated(job, Now())
    }

    /** Copy the bytes of one record behind those of bucket `to`. */
    method CopyRecord(from: nat, getPtr: nat, recordLength: nat, to: nat, put: nat, ghost r: Record) returns (end: nat)
      requires |recs| == |buckets| && from < |buckets| && to < |buckets|
      requires StoredAt(buckets[from].data, getPtr, r) && recordLength == |Encode(r)|
      requires put == buckets[to].bytesUsed && put + recordLength <= |buckets[to].data|
      requires from == to ==> put <= getPtr
      modifies this`buckets, this`recs
      ensures Now() == Plus(old(Now()), to, r) && end == put + recordLength == buckets[to].bytesUsed
    {
      var copied := CopyForward(buckets, from, getPtr, to, put, recordLength);
      end := put + recordLength;
      var bucket := copied[to].(bytesUsed := copied[to].bytesUsed + recordLength);
      assert bucket == Appended(buckets[to], r) && copied[to := bucket] == buckets[to := bucket];
      buckets, recs := copied[to := bucket], recs[to := recs[to] + [r]];
    }

    /** Room for a record on the new chain: behind its last bucket, or in a further one. */
    method RoomInNew(ghost job: Job, ghost c: Cursor, ghost getPtr: nat, ghost last: nat, bit0: nat, put0: nat,
                     bit1: nat, put1: nat, recordLength: nat, prefixBits: nat)
      returns (put0': nat, bit1': nat, put1': nat)
      requires OnTrack(job, c, bit0, put0, bit1, put1) && Reading(job, Now(), c, getPtr, last)
      requires c.rest != [] && recordLength == |Encode(c.rest[0])| <= BUCKET_SIZE && prefixBits == job.p
      requires Packed(job, Now(), c) && HasBit(c.rest[0].hash, job.Bit())
      modifies this
      ensures OnTrack(job, c, bit0, put0', bit1', put1') && Reading(job, Now(), c, getPtr, last)
      ensures PackedFor(job, Now(), c) && put1' + recordLength <= BUCKET_SIZE
    {
      put0', bit1', put1' := put0, bit1, put1;
      if buckets[bit1].bytesUsed + recordLength > BUCKET_SIZE {
        put0', bit1', put1' := NewBucket(job, c, getPtr, last, bit0, put0, bit1, put1, prefixBits);
      } else {
        PackedRoom(job, Now(), c);
      }
    }

    /** A further bucket for the new chain, since the next record does not fit behind its last. */
    method NewBucket(ghost job: Job, ghost c: Cursor, ghost getPtr: nat, ghost last: nat, bit0: nat, ghost put0: nat,
                     bit1: nat, ghost put1: nat, prefixBits: nat)
      returns (put0': nat, bit1': nat, put1': nat)
      requires OnTrack(job, c, bit0, put0, bit1, put1) && Reading(job, Now(), c, getPtr, last)
      requires c.rest != [] && HasBit(c.rest[0].hash, job.Bit()) && prefixBits == job.p && Packed(job, Now(), c)
      requires buckets[bit1].bytesUsed + |Encode(c.rest[0])| > BUCKET_SIZE
      modifies this
      ensures OnTrack(job, c, bit0, put0', bit1', put1') && Reading(job, Now(), c, getPtr, last)
      ensures PackedFor(job, Now(), c) && put1' == 0
    {
      ghost var before := Now();
      bit1' := ExtendChain(job.n, bit1, prefixBits);
      Grow(job, before, c, getPtr, last, Now(), bit1');
      PackedGrow(job, before, c, Now(), bit1');
      TakeOneMore(job.start.s.free, |job.start.bs|, |before.s.chains[job.n]|, before.s.free, |before.bs|,
                  shape.free, |buckets|, bit1');
      put0', put1' := buckets[bit0].bytesUsed, 0;
    }

    /** Room for a record on the kept chain: behind the writer, or in the next bucket, which always exists. */
    method RoomInKept(ghost job: Job, ghost c: Cursor, ghost getPtr: nat, ghost last: nat, bit0: nat, put0: nat,
                      ghost bit1: nat, ghost put1: nat, recordLength: nat, prefixBits: nat)
      returns (bit0': nat, put0': nat, ghost c': Cursor)
      requires OnTrack(job, c, bit0, put0, bit1, put1) && Reading(job, Now(), c, getPtr, last)
      requires c.rest != [] && recordLength == |Encode(c.rest[0])| <= BUCKET_SIZE && prefixBits == job.p
      requires Packed(job, Now(), c) && !HasBit(c.rest[0].hash, job.Bit())
      modifies this`buckets
      ensures c'.entered == c.entered && c'.rest == c.rest && c'.done == c.done
      ensures OnTrack(job, c', bit0', put0', bit1, put1) && Reading(job, Now(), c', getPtr, last)
      ensures PackedFor(job, Now(), c') && put0' + recordLength <= BUCKET_SIZE
    {
      bit0', put0', c' := bit0, put0, c;
      if buckets[bit0].bytesUsed + recordLength > BUCKET_SIZE {
        Advance(job, Now(), c, getPtr, last);
        PlaceApart(job, Now(), c, c.writer + 1, c.writer);
        if buckets[bit0].next != INVALID {
          bit0' := buckets[bit0].next;
        } else {
          assert false;  // the branch that would allocate a bucket is never taken
        }
        ghost var before := Now();
        buckets := buckets[bit0' := buckets[bit0'].(prefixBits := prefixBits)];
        put0', c' := 0, c.(writer := c.writer + 1);
        PackedAdvance(job, before, c, Now(), c');
      } else {
        PackedRoom(job, Now(), c);
      }
    }

    /** Move the record at the reader to the new chain. */
    method MoveToNew(ghost job: Job, ghost c: Cursor, getId: nat, getPtr: nat, ghost last: nat, bit0: nat, put0: nat,
                     bit1: nat, put1: nat, recordLength: nat, prefixBits: nat)
      returns (put0': nat, bit1': nat, put1': nat)
      requires OnTrack(job, c, bit0, put0, bit1, put1) && Reading(job, Now(), c, getPtr, last)
      requires c.rest != [] && getId == job.Chain()[c.entered - 1] && HasBit(c.rest[0].hash, job.Bit())
      requires recordLength == |Encode(c.rest[0])| <= BUCKET_SIZE && prefixBits == job.p && Packed(job, Now(), c)
      modifies this
      ensures OnTrack(job, Moved(c), bit0, put0', bit1', put1')
      ensures Reading(job, Now(), Moved(c), getPtr + recordLength, last) && Packed(job, Now(), Moved(c))
    {
      put0', bit1', put1' := RoomInNew(job, c, getPtr, last, bit0, put0, bit1, put1, recordLength, prefixBits);
      put1' := AppendNew(job, c, getId, getPtr, last, bit0, put0', bit1', put1', recordLength);
    }

    /** Copy the record at the reader behind the records of the new chain. */
    method AppendNew(ghost job: Job, ghost c: Cursor, getId: nat, getPtr: nat, ghost last: nat, ghost bit0: nat,
                     ghost put0: nat, bit1: nat, put1: nat, recordLength: nat)
      returns (put1': nat)
      requires OnTrack(job, c, bit0, put0, bit1, put1) && Reading(job, Now(), c, getPtr, last)
      requires c.rest != [] && getId == job.Chain()[c.entered - 1] && HasBit(c.rest[0].hash, job.Bit())
      requires recordLength == |Encode(c.rest[0])| && put1 + recordLength <= BUCKET_SIZE && PackedFor(job, Now(), c)
      modifies this`buckets, this`recs
      ensures OnTrack(job, Moved(c), bit0, put0, bit1, put1')
      ensures Reading(job, Now(), Moved(c), getPtr + recordLength, last) && Packed(job, Now(), Moved(c))
    {
      ghost var after := ReadyToMove(job, Now(), c, getPtr, last, getId, bit1);
      put1' := CopyRecord(getId, getPtr, recordLength, bit1, put1, c.rest[0]);
      assert Now() == after;
      assert buckets[bit0] == after.bs[bit0];
    }

    /** Move the record at the reader down the chain being split. */
    method MoveToKept(ghost job: Job, ghost c: Cursor, getId: nat, getPtr: nat, ghost last: nat, bit0: nat, put0: nat,
                      ghost bit1: nat, ghost put1: nat, recordLength: nat, prefixBits: nat)
      returns (bit0': nat, put0': nat, ghost c': Cursor)
      requires OnTrack(job, c, bit0, put0, bit1, put1) && Reading(job, Now(), c, getPtr, last)
      requires c.rest != [] && getId == job.Chain()[c.entered - 1] && !HasBit(c.rest[0].hash, job.Bit())
      requires recordLength == |Encode(c.rest[0])| <= BUCKET_SIZE && prefixBits == job.p && Packed(job, Now(), c)
      modifies this`buckets, this`recs
      ensures c'.entered == c.entered && c'.rest == c.rest[1..]
      ensures OnTrack(job, c', bit0', put0', bit1, put1) && Reading(job, Now(), c', getPtr + recordLength, last)
      ensures Packed(job, Now(), c')
    {
      bit0', put0', c' := RoomInKept(job, c, getPtr, last, bit0, put0, bit1, put1, recordLength, prefixBits);
      put0' := AppendKept(job, c', getId, getPtr, last, bit0', put0', bit1, put1, recordLength);
      c' := Moved(c');
    }

    /** Copy it behind the kept records. */
    method AppendKept(ghost job: Job, ghost c: Cursor, getId: nat, getPtr: nat, ghost last: nat, bit0: nat, put0: nat,
                      ghost bit1: nat, ghost put1: nat, recordLength: nat)
      returns (put0': nat)
      requires OnTrack(job, c, bit0, put0, bit1, put1) && Reading(job, Now(), c, getPtr, last)
      requires c.rest != [] && getId == job.Chain()[c.entered - 1] && !HasBit(c.rest[0].hash, job.Bit())
      requires recordLength == |Encode(c.rest[0])| && put0 + recordLength <= BUCKET_SIZE && PackedFor(job, Now(), c)
      modifies this`buckets, this`recs
      ensures OnTrack(job, Moved(c), bit0, put0', bit1, put1)
      ensures Reading(job, Now(), Moved(c), getPtr + recordLength, last) && Packed(job, Now(), Moved(c))
    {
      ghost var after := ReadyToMove(job, Now(), c, getPtr, last, getId, bit0);
      put0' := CopyRecord(getId, getPtr, recordLength, bit0, put0, c.rest[0]);
      assert Now() == after;
      assert buckets[bit1] == after.bs[bit1];
    }

    /** Move the record at the reader to the chain its new hash bit asks for. */
    method MoveRecord(ghost job: Job, ghost c: Cursor, getId: nat, getPtr: nat, ghost last: nat, bit0: nat, put0: nat,
                      bit1: nat, put1: nat, newBit: nat, prefixBits: nat)
      returns (bit0': nat, put0': nat, bit1': nat, put1': nat, getPtr': nat, ghost c': Cursor)
      requires OnTrack(job, c, bit0, put0, bit1, put1) && Reading(job, Now(), c, getPtr, last)
      requires c.rest != [] && getId == job.Chain()[c.entered - 1] && Packed(job, Now(), c)
      requires newBit == Pow2(job.Bit()) && prefixBits == job.p
      modifies this
      ensures c'.entered == c.entered && c'.rest == c.rest[1..]
      ensures OnTrack(job, c', bit0', put0', bit1', put1') && Reading(job, Now(), c', getPtr', last)
      ensures Packed(job, Now(), c')
    {
      bit0', put0', bit1', put1' := bit0, put0, bit1, put1;
      NextUnread(buckets[getId].data, getPtr, last, c.rest);
      var hash, recordLength := Measure(buckets[getId].data, getPtr, c.rest[0]);
      AndBit(hash, job.Bit());
      if And(hash, newBit) != 0 {
        c' := Moved(c);
        put0', bit1', put1' := MoveToNew(job, c, getId, getPtr, last, bit0, put0, bit1, put1, recordLength, prefixBits);
      } else {
        bit0', put0', c' := MoveToKept(job, c, getId, getPtr, last, bit0, put0, bit1, put1, recordLength, prefixBits);
      }
      getPtr' := getPtr + recordLength;
    }

    /** Enter the next bucket: remember how far it goes and mark it empty, since the writer may follow. */
    method EnterBucket(ghost job: Job, ghost c: Cursor, getId: nat, ghost bit0: nat, ghost put0: nat,
                       ghost bit1: nat, ghost put1: nat)
      returns (getLast: nat, ghost c': Cursor)
      requires OnTrack(job, c, bit0, put0, bit1, put1) && c.rest == [] && Packed(job, Now(), c)
      requires c.entered < |job.Chain()| && getId == job.Chain()[c.entered]
      modifies this`buckets, this`recs
      ensures c'.entered == c.entered + 1
      ensures OnTrack(job, c', bit0, put0, bit1, put1) && Reading(job, Now(), c', 0, getLast)
      ensures Packed(job, Now(), c')
    {
      ghost var before := Now();
      PlaceApart(job, Now(), c, c.entered, c.writer);
      Enter(job, Now(), c);
      getLast := buckets[getId].bytesUsed;
      c' := c.(entered := c.entered + 1, rest := recs[getId]);
      buckets := buckets[getId := buckets[getId].(bytesUsed := 0)];
      recs := recs[getId := []];
      PackedEnter(job, before, c, Now(), c');
    }

    /** Read the bucket entered last to its end, moving every record. */
    method MoveBucket(ghost job: Job, ghost c: Cursor, getId: nat, getLast: nat, bit0: nat, put0: nat,
                      bit1: nat, put1: nat, newBit: nat, prefixBits: nat)
      returns (bit0': nat, put0': nat, bit1': nat, put1': nat, ghost c': Cursor)
      requires OnTrack(job, c, bit0, put0, bit1, put1) && Reading(job, Now(), c, 0, getLast)
      requires getId == job.Chain()[c.entered - 1] && newBit == Pow2(job.Bit()) && prefixBits == job.p
      requires Packed(job, Now(), c)
      modifies this
      ensures c'.entered == c.entered && c'.rest == []
      ensures OnTrack(job, c', bit0', put0', bit1', put1') && Packed(job, Now(), c')
    {
      bit0', put0', bit1', put1', c' := bit0, put0, bit1, put1, c;
      var getPtr := 0;
      AtEnd(job, Now(), c', getPtr, getLast);
      while getPtr != getLast
        invariant c'.entered == c.entered && (getPtr == getLast <==> c'.rest == [])
        invariant OnTrack(job, c', bit0', put0', bit1', put1') && Reading(job, Now(), c', getPtr, getLast)
        invariant Packed(job, Now(), c')
        decreases |c'.rest|
      {
        bit0', put0', bit1', put1', getPtr, c' :=
          MoveRecord(job, c', getId, getPtr, getLast, bit0', put0', bit1', put1', newBit, prefixBits);
        AtEnd(job, Now(), c', getPtr, getLast);
      }
    }

    /** Cut the chain off behind bucket `last` and push the buckets behind it onto the free list. */
    method FreeTail(ghost chain: seq<nat>, ghost m: nat, last: nat)
      requires 0 < m <= |chain| && last == chain[m - 1] && Distinct(chain)
      requires (forall t :: 0 <= t < |chain| ==> chain[t] < |buckets|) && LinksChain(buckets, chain)
      modifies this`buckets, this`firstFree
      ensures Pushed(old(buckets)[last := old(buckets)[last].(next := INVALID)], buckets, old(firstFree),
                     chain, m, |chain|)
      ensures firstFree == if m < |chain| then chain[|chain| - 1] else old(firstFree)
    {
      var freeId := buckets[last].next;
      buckets := buckets[last := buckets[last].(next := INVALID)];
      ghost var cut, t := buckets, m;
      while freeId != INVALID
        invariant m <= t <= |chain| && freeId == (if t < |chain| then chain[t] else INVALID)
        invariant Pushed(cut, buckets, old(firstFree), chain, m, t)
        invariant firstFree == if t == m then old(firstFree) else chain[t - 1]
        decreases |chain| - t
      {
        PushNext(cut, buckets, old(firstFree), chain, m, t);
        assert cut[chain[t]] == old(buckets)[chain[t]];
        var nextId := buckets[freeId].next;
        buckets := buckets[freeId := buckets[freeId].(next := firstFree)];
        firstFree := freeId;
        freeId := nextId;
        t := t + 1;
      }
    }

    /** Raise the prefix length of chain `head` and create the head of the new chain. */
    method BeginSplit(head: nat, prefixBits: nat) returns (newHead: nat, ghost job: Job)
      requires Valid() && head in shape.chains && prefixBits == buckets[head].prefixBits + 1 <= HASH_BITS
      modifies this
      ensures job == Job(old(Now()), head, newHead, prefixBits)
      ensures OnTrack(job, Cursor(0, 0, [], []), head, 0, newHead, 0) && Packed(job, Now(), Cursor(0, 0, [], []))
    {
      ghost var start := Now();
      ChainStep(buckets, firstFree, shape, recs, head, 0);
      RewriteSound(buckets, firstFree, shape, recs, head, buckets[head].(prefixBits := prefixBits), recs[head]);
      assert recs[head := recs[head]] == recs;
      buckets := buckets[head := buckets[head].(prefixBits := prefixBits)];
      ghost var raised := buckets;
      newHead := CreateBucket(prefixBits);
      job := Job(start, head, newHead, prefixBits);
      Begin(job, Now(), raised);
      PackedBegin(job, Now(), Cursor(0, 0, [], []));
      TakeOneMore(start.s.free, |start.bs|, 0, start.s.free, |start.bs|, shape.free, |buckets|, newHead);
    }

    /** Shorten chain `head` to its first m buckets and free the others. */
    method CutChain(ghost head: int, ghost m: nat, last: nat)
      requires Sound() && head in shape.chains && 0 < m <= |shape.chains[head]| && last == shape.chains[head][m - 1]
      requires Distinct(shape.chains[head])
      modifies this
      ensures IsEnding(Ending(old(Now()), Now(), head, m)) && shape == Cut(old(shape), head, m)
      ensures mappedLength == old(mappedLength) && |buckets| == |old(buckets)|
    {
      ghost var chain := shape.chains[head];
      ChainLinks(buckets, firstFree, shape, recs, head);
      FreeTail(chain, m, last);
      assert UnfoldIds(0);
      CutIsCut(|buckets|, shape, head, m);
      shape := Cut(shape, head, m);
    }

    /** Free the buckets that the kept records no longer need. */
    method EndSplit(ghost job: Job, ghost c: Cursor, bit0: nat)
      requires InSplit(job, Now(), c) && Mapped(mappedLength, |buckets|) && Uniform(job.start.bs, job.start.s)
      requires c.entered == |job.Chain()| && c.rest == [] && bit0 == job.Chain()[c.writer]
      requires Packed(job, Now(), c) && Allocated(job, Now())
      modifies this
      ensures IsSplit(job, Now(), c.writer + 1) && Mapped(mappedLength, |buckets|) && |buckets| == |old(buckets)|
      ensures shape.chains[job.n] == old(shape.chains)[job.n]
    {
      ghost var before := Now();
      ChainDistinct(job, before, c);
      CutChain(job.h, c.writer + 1, bit0);
      EndingIsSplit(job, Ending(before, Now(), job.h, c.writer + 1), c);
    }

    /** Enter the next bucket and move all its records. */
    method ReadBucket(ghost job: Job, ghost c: Cursor, getId: nat, bit0: nat, put0: nat,
                      bit1: nat, put1: nat, newBit: nat, prefixBits: nat)
      returns (bit0': nat, put0': nat, bit1': nat, put1': nat, ghost c': Cursor)
      requires OnTrack(job, c, bit0, put0, bit1, put1) && c.rest == [] && Packed(job, Now(), c)
      requires c.entered < |job.Chain()| && getId == job.Chain()[c.entered]
      requires newBit == Pow2(job.Bit()) && prefixBits == job.p
      modifies this
      ensures c'.entered == c.entered + 1 && c'.rest == []
      ensures OnTrack(job, c', bit0', put0', bit1', put1') && Packed(job, Now(), c')
    {
      var getLast;
      getLast, c' := EnterBucket(job, c, getId, bit0, put0, bit1, put1);
      bit0', put0', bit1', put1', c' := MoveBucket(job, c', getId, getLast, bit0, put0, bit1, put1, newBit, prefixBits);
    }

    /** The bucket after the one entered last. */
    method NextBucket(ghost job: Job, ghost c: Cursor, getId: nat) returns (nextId: int)
      requires InSplit(job, Now(), c) && c.entered > 0 && getId == job.Chain()[c.entered - 1]
      ensures nextId == if c.entered < |job.Chain()| then job.Chain()[c.entered] else INVALID
    {
      ChainStep(buckets, firstFree, shape, recs, job.h, c.entered - 1);
      nextId := buckets[getId].next;
    }

    /** Move all records of the next bucket and go on to the one after it. */
    method ReadOn(ghost job: Job, ghost c: Cursor, getId: nat, bit0: nat, put0: nat,
                  bit1: nat, put1: nat, newBit: nat, prefixBits: nat)
      returns (nextId: int, bit0': nat, put0': nat, bit1': nat, put1': nat, ghost c': Cursor)
      requires OnTrack(job, c, bit0, put0, bit1, put1) && c.rest == [] && Packed(job, Now(), c)
      requires c.entered < |job.Chain()| && getId == job.Chain()[c.entered]
      requires newBit == Pow2(job.Bit()) && prefixBits == job.p
      modifies this
      ensures c'.entered == c.entered + 1 && c'.rest == []
      ensures OnTrack(job, c', bit0', put0', bit1', put1') && Packed(job, Now(), c')
      ensures nextId == if c'.entered < |job.Chain()| then job.Chain()[c'.entered] else INVALID
    {
      bit0', put0', bit1', put1', c' := ReadBucket(job, c, getId, bit0, put0, bit1, put1, newBit, prefixBits);
      nextId := NextBucket(job, c', getId);
    }

    /** Walk the chain, moving every record of every bucket. */
    method MoveChain(ghost job: Job, head: nat, newHead: nat, prefixBits: nat) returns (bit0: nat, ghost c: Cursor)
      requires OnTrack(job, Cursor(0, 0, [], []), head, 0, newHead, 0) && Packed(job, Now(), Cursor(0, 0, [], []))
      requires head == job.h && prefixBits == job.p
      modifies this
      ensures InSplit(job, Now(), c) && Mapped(mappedLength, |buckets|)
      ensures c.entered == |job.Chain()| && c.rest == [] && bit0 == job.Chain()[c.writer]
      ensures Packed(job, Now(), c) && Allocated(job, Now())
    {
      var put0, bit1, put1 := 0, newHead, 0;
      bit0, c := head, Cursor(0, 0, [], []);
      var newBit := Pow2(HASH_BITS - prefixBits);
      var getId: int := head;
      while getId != INVALID
        invariant OnTrack(job, c, bit0, put0, bit1, put1) && c.rest == [] && Packed(job, Now(), c)
        invariant getId == if c.entered < |job.Chain()| then job.Chain()[c.entered] else INVALID
        decreases |job.Chain()| - c.entered
      {
        getId, bit0, put0, bit1, put1, c := ReadOn(job, c, getId, bit0, put0, bit1, put1, newBit, prefixBits);
      }
    }

    /** Split chain `head` by one more hash bit, in place, and return the head of the chain that the
        records with that bit moved to. */
    method Split(head: nat) returns (newHead: nat, ghost kept: nat)
      requires Valid() && head in shape.chains && buckets[head].prefixBits < HASH_BITS
      modifies this
      ensures Valid() && newHead !in old(shape.chains)
      ensures IsSplit(Job(old(Now()), head, newHead, old(buckets[head].prefixBits) + 1), Now(), kept)
      ensures |old(buckets)| <= |buckets| <= |old(buckets)| + |shape.chains[newHead]|
    {
      var prefixBits := buckets[head].prefixBits + 1;
      ghost var job, c;
      newHead, job := BeginSplit(head, prefixBits);
      var bit0;
      bit0, c := MoveChain(job, head, newHead, prefixBits);
      kept := c.writer + 1;
      EndSplit(job, c, bit0);
    }
  }
}
