/** The in-place split of a chain, step by step: what holds between the steps, and why no step
    overwrites a record that has not been read yet. */
module Splitting {
  import opened Bits
  import opened Bytes
  import opened Records
  import opened Contents
  import opened Buckets
  import opened Packing
  import opened Store
  import opened Tightness

  /** The store at one moment. */
  datatype State = State(bs: seq<Bucket>, firstFree: int, s: Shape, recs: seq<seq<Record>>)

  ghost predicate SoundState(st: State) {
    SoundStore(st.bs, st.firstFree, st.s, st.recs)
  }

  /** A split under way: the store before it, the chain being split, the head of the new chain,
      and the new prefix length. */
  datatype Job = Job(start: State, h: int, n: nat, p: nat) {
    ghost predicate WellFormed() {
      SoundState(start) && h in start.s.chains && n !in start.s.chains && 0 < p <= HASH_BITS
    }

    /** The ids of the chain being split. */
    ghost function Chain(): seq<nat>
      requires WellFormed()
    {
      start.s.chains[h]
    }

    function Bit(): nat
      requires p <= HASH_BITS
    {
      HASH_BITS - p
    }
  }

  /** How far a split has come: buckets entered by the reader, the place of the writer of kept
      records, the records moved so far, and those of the current bucket still to be read. */
  datatype Cursor = Cursor(entered: nat, writer: nat, done: seq<Record>, rest: seq<Record>)

  /** Mentioning Open makes the definition of InSplit available. */
  predicate Open(k: int) { true }

  ghost predicate Bounds(job: Job, st: State, c: Cursor) {
    && job.WellFormed() && SoundState(st)
    && job.n in st.s.chains && st.s.chains == job.start.s.chains[job.n := st.s.chains[job.n]]
    && job.h in st.s.chains && st.s.chains[job.h] == job.Chain()
    && c.entered <= |job.Chain()| && c.writer < |job.Chain()|
    && (c.writer < c.entered || c.writer == c.entered == 0)
    && |st.s.chains[job.n]| <= (if c.entered == 0 then 1 else c.entered)
  }

  /** Buckets of the other chains have not been touched. */
  ghost predicate Untouched(job: Job, st: State)
    requires job.WellFormed()
  {
    forall g, i :: g in job.start.s.chains && g != job.h && 0 <= i < |job.start.s.chains[g]| ==>
      var b := job.start.s.chains[g][i];
      b < |st.bs| && st.bs[b] == job.start.bs[b] && At(st.recs, b) == At(job.start.recs, b)
  }

  /** The writer's buckets up to the current one, and all new ones, carry the new prefix length. */
  ghost predicate PrefixesSet(bs: seq<Bucket>, chain: seq<nat>, moved: seq<nat>, p: nat, writer: nat) {
    && (forall t :: 0 <= t <= writer && t < |chain| && chain[t] < |bs| ==> bs[chain[t]].prefixBits == p)
    && (forall t :: 0 <= t < |moved| && moved[t] < |bs| ==> bs[moved[t]].prefixBits == p)
  }

  /** Buckets of `chain` not entered are as before, those between writer and reader are empty, the
      records on `chain` and on `moved` are the two halves of those done, and done, rest and unread
      records make up the original contents. */
  ghost predicate Divided(before: seq<seq<Record>>, recs: seq<seq<Record>>, chain: seq<nat>, moved: seq<nat>,
                          bit: nat, c: Cursor)
    requires c.entered <= |chain|
  {
    && (forall t :: c.entered <= t < |chain| ==> At(recs, chain[t]) == At(before, chain[t]))
    && (forall t :: c.writer < t < c.entered ==> At(recs, chain[t]) == [])
    && Flat(recs, chain[..c.entered]) == Select(c.done, bit, false)
    && Flat(recs, moved) == Select(c.done, bit, true)
    && c.done + c.rest + Flat(before, chain[c.entered..]) == Flat(before, chain)
    && (c.entered == 0 ==> c.done == [])
  }

  ghost predicate InSplit(job: Job, st: State, c: Cursor) {
    && Bounds(job, st, c)
    && forall k :: Open(k) ==>
         && Untouched(job, st)
         && PrefixesSet(st.bs, job.Chain(), st.s.chains[job.n], job.p, c.writer)
         && Divided(job.start.recs, st.recs, job.Chain(), st.s.chains[job.n], job.Bit(), c)
  }

  /** The last bucket of the new chain. */
  ghost function Newest(job: Job, st: State): nat
    requires job.n in st.s.chains && |st.s.chains[job.n]| > 0
  {
    st.s.chains[job.n][|st.s.chains[job.n]| - 1]
  }

  /** The bytes of a bucket from `g` up to `last` are the records `rest`. */
  ghost predicate Unread(data: seq<byte>, g: nat, last: nat, rest: seq<Record>) {
    && g <= last <= BUCKET_SIZE == |data|
    && forall k :: Open(k) ==> data[g..last] == EncodeAll(rest)
  }

  /** The reader stands at byte `g` of the bucket entered last, whose unread bytes up to `last` are
      the records `rest`; neither writer is past it. */
  ghost predicate Reading(job: Job, st: State, c: Cursor, g: nat, last: nat)
    requires Bounds(job, st, c)
  {
    && c.entered > 0
    && (var b := job.Chain()[c.entered - 1];
        Unread(st.bs[b].data, g, last, c.rest))
    && (c.writer == c.entered - 1 ==> st.bs[job.Chain()[c.writer]].bytesUsed <= g)
    && (|st.s.chains[job.n]| == c.entered ==> st.bs[Newest(job, st)].bytesUsed <= g)
  }

  predicate Distinct(c: seq<nat>) {
    forall t, u :: 0 <= t < |c| && 0 <= u < |c| && t != u ==> c[t] != c[u]
  }

  /** Ids of the split chain, of the new chain and of other chains are different. */
  lemma Apart(job: Job, st: State, c: Cursor)
    requires Bounds(job, st, c)
    ensures forall t, u :: 0 <= t < |job.Chain()| && 0 <= u < |st.s.chains[job.n]| ==>
      job.Chain()[t] != st.s.chains[job.n][u]
    ensures Distinct(job.Chain()) && Distinct(st.s.chains[job.n])
    ensures forall t :: 0 <= t < |job.Chain()| ==> st.s.owner[job.Chain()[t]] == job.h
    ensures forall t :: 0 <= t < |st.s.chains[job.n]| ==> st.s.owner[st.s.chains[job.n][t]] == job.n
    ensures forall g, i :: g in job.start.s.chains && 0 <= i < |job.start.s.chains[g]| ==>
      job.start.s.chains[g][i] < |st.bs| && st.s.owner[job.start.s.chains[g][i]] == g
  {
    assert UnfoldIds(0);
    var s := st.s;
    assert forall g :: g in job.start.s.chains ==> g in s.chains && s.chains[g] == job.start.s.chains[g];
    assert s.chains[job.h] == job.Chain();
  }

  lemma ChainDistinct(job: Job, st: State, c: Cursor)
    requires Bounds(job, st, c)
    ensures Distinct(job.Chain())
  {
    Apart(job, st, c);
  }

  /** The bucket at place t of the split chain is not the last of the new one, nor at another place u. */
  lemma PlaceApart(job: Job, st: State, c: Cursor, t: nat, u: nat)
    requires Bounds(job, st, c) && t < |job.Chain()| && u < |job.Chain()|
    ensures job.Chain()[t] != Newest(job, st)
    ensures job.Chain()[t] == job.Chain()[u] <==> t == u
  {
    Apart(job, st, c);
  }

  /** A split begins: the head's prefix length is raised and an empty new chain exists. */
  lemma Begin(job: Job, st: State, bs: seq<Bucket>)
    requires job.WellFormed() && SoundState(st)
    requires var h := job.Chain()[0];
      bs == job.start.bs[h := job.start.bs[h].(prefixBits := job.p)]
    requires st.s.chains == job.start.s.chains[job.n := [job.n]] && Others(bs, st.bs, job.n)
    requires st.bs[job.n].prefixBits == job.p && SameRecords(job.start.recs, st.recs) && At(st.recs, job.n) == []
    ensures InSplit(job, st, Cursor(0, 0, [], []))
  {
    var c := Cursor(0, 0, [], []);
    assert st.s.chains[job.n] == [job.n];
    Apart(job, st, c);
    FlatOne(st.recs, job.n);
    assert job.Chain()[..0] == [] && job.Chain()[0..] == job.Chain();
    assert st.s.owner[st.s.chains[job.n][0]] == job.n;
    assert st.s.owner[job.Chain()[0]] == job.h;
  }

  /** A bucket without records uses no bytes. */
  lemma NoBytes(st: State, b: nat)
    requires SoundState(st) && b < |st.bs| && At(st.recs, b) == []
    ensures st.bs[b].bytesUsed == 0
  {
    BucketHolds(st.bs, st.firstFree, st.s, st.recs, b);
  }

  /** The reader enters the next bucket: it counts as empty from now on, its records are the rest. */
  lemma Enter(job: Job, st: State, c: Cursor)
    requires InSplit(job, st, c) && c.entered < |job.Chain()| && c.rest == []
    ensures var b := job.Chain()[c.entered];
      var after := st.(bs := st.bs[b := st.bs[b].(bytesUsed := 0)], recs := st.recs[b := []]);
      var d := c.(entered := c.entered + 1, rest := st.recs[b]);
      && InSplit(job, after, d) && Reading(job, after, d, 0, st.bs[b].bytesUsed)
  {
    var b := job.Chain()[c.entered];
    BucketHolds(st.bs, st.firstFree, st.s, st.recs, b);
    EnterInSplit(job, st, c, b);
    UnreadBucket(st.bs[b], st.recs[b]);
    EnterNew(job, st, c);
    PlaceApart(job, st, c, c.entered, c.writer);
  }

  lemma EnterInSplit(job: Job, st: State, c: Cursor, b: nat)
    requires InSplit(job, st, c) && c.entered < |job.Chain()| && c.rest == [] && b == job.Chain()[c.entered]
    ensures var after := st.(bs := st.bs[b := st.bs[b].(bytesUsed := 0)], recs := st.recs[b := []]);
      InSplit(job, after, c.(entered := c.entered + 1, rest := st.recs[b]))
  {
    assert Open(0);
    Apart(job, st, c);
    BucketHolds(st.bs, st.firstFree, st.s, st.recs, b);
    EmptyHolds(st.bs[b]);
    RewriteSound(st.bs, st.firstFree, st.s, st.recs, b, st.bs[b].(bytesUsed := 0), []);
    EnterDivided(job.start.recs, st.recs, job.Chain(), st.s.chains[job.n], job.Bit(), c);
    StillUntouched(job, st, c, b, st.bs[b].(bytesUsed := 0), []);
  }

  lemma UnreadBucket(b: Bucket, rs: seq<Record>)
    requires Holds(b, rs)
    ensures Unread(b.data, 0, b.bytesUsed, rs)
  {
    assert b.data[0..b.bytesUsed] == b.data[..b.bytesUsed];
  }

  /** Before any record has been read the new chain is one empty bucket. */
  lemma EnterNew(job: Job, st: State, c: Cursor)
    requires InSplit(job, st, c)
    ensures c.entered == 0 ==> st.s.chains[job.n] == [job.n] && st.bs[job.n].bytesUsed == 0
  {
    if c.entered == 0 {
      assert Open(0);
      assert st.s.chains[job.n] == [job.n];
      FlatOne(st.recs, job.n);
      NoBytes(st, job.n);
    }
  }

  lemma EnterDivided(before: seq<seq<Record>>, recs: seq<seq<Record>>, chain: seq<nat>, moved: seq<nat>,
                     bit: nat, c: Cursor)
    requires c.entered < |chain| && chain[c.entered] < |recs| && c.rest == []
    requires (c.writer < c.entered || c.writer == c.entered == 0)
    requires Divided(before, recs, chain, moved, bit, c) && Distinct(chain) && Distinct(moved)
    requires forall u :: 0 <= u < |moved| ==> moved[u] != chain[c.entered]
    ensures var b := chain[c.entered];
      Divided(before, recs[b := []], chain, moved, bit, c.(entered := c.entered + 1, rest := recs[b]))
  {
    var e, b := c.entered, chain[c.entered];
    var after := recs[b := []];
    EmptiedPlaces(before, recs, after, chain, e, c.writer);
    EmptiedContents(recs, after, chain, moved, e);
    EnterTotal(before, chain, c, recs[b]);
    EnterWith(before, recs, after, chain, moved, bit, c, c.(entered := e + 1, rest := recs[b]));
  }

  lemma EnterWith(before: seq<seq<Record>>, recs: seq<seq<Record>>, after: seq<seq<Record>>, chain: seq<nat>,
                  moved: seq<nat>, bit: nat, c: Cursor, d: Cursor)
    requires c.entered < |chain| && Divided(before, recs, chain, moved, bit, c)
    requires d.entered == c.entered + 1 && d.done == c.done && d.writer == c.writer
    requires forall t :: d.entered <= t < |chain| ==> At(after, chain[t]) == At(before, chain[t])
    requires forall t :: d.writer < t < d.entered ==> At(after, chain[t]) == []
    requires Flat(after, chain[..d.entered]) == Flat(recs, chain[..c.entered])
    requires Flat(after, moved) == Flat(recs, moved)
    requires d.done + d.rest + Flat(before, chain[d.entered..]) == c.done + c.rest + Flat(before, chain[c.entered..])
    ensures Divided(before, after, chain, moved, bit, d)
  {}

  lemma EmptiedContents(recs: seq<seq<Record>>, after: seq<seq<Record>>, chain: seq<nat>, moved: seq<nat>, e: nat)
    requires e < |chain| && chain[e] < |recs| && Distinct(chain) && after == recs[chain[e] := []]
    requires forall u :: 0 <= u < |moved| ==> moved[u] != chain[e]
    ensures Flat(after, chain[..e + 1]) == Flat(recs, chain[..e]) && Flat(after, moved) == Flat(recs, moved)
  {
    EmptiedPrefix(recs, chain, e);
    FlatSkip(recs, chain[e], [], moved);
  }

  lemma EmptiedPlaces(before: seq<seq<Record>>, recs: seq<seq<Record>>, after: seq<seq<Record>>, chain: seq<nat>,
                      e: nat, writer: nat)
    requires e < |chain| && chain[e] < |recs| && Distinct(chain) && after == recs[chain[e] := []]
    requires forall t :: e <= t < |chain| ==> At(recs, chain[t]) == At(before, chain[t])
    requires forall t :: writer < t < e ==> At(recs, chain[t]) == []
    ensures forall t :: e + 1 <= t < |chain| ==> At(after, chain[t]) == At(before, chain[t])
    ensures forall t :: writer < t < e + 1 ==> At(after, chain[t]) == []
  {}

  lemma EnterTotal(before: seq<seq<Record>>, chain: seq<nat>, c: Cursor, rs: seq<Record>)
    requires c.entered < |chain| && c.rest == [] && rs == At(before, chain[c.entered])
    ensures c.done + rs + Flat(before, chain[c.entered + 1..]) == c.done + c.rest + Flat(before, chain[c.entered..])
  {
    FlatHead(before, chain, c.entered);
    NothingBetween(c.done, c.rest, rs, Flat(before, chain[c.entered + 1..]));
  }

  lemma NothingBetween<T>(a: seq<T>, none: seq<T>, b: seq<T>, c: seq<T>)
    requires none == []
    ensures a + none + (b + c) == a + b + c
  {}

  lemma EmptiedPrefix(recs: seq<seq<Record>>, chain: seq<nat>, e: nat)
    requires e < |chain| && chain[e] < |recs|
    requires Distinct(chain)
    ensures Flat(recs[chain[e] := []], chain[..e + 1]) == Flat(recs, chain[..e])
  {
    var b, after := chain[e], recs[chain[e] := []];
    FlatSkip(recs, b, [], chain[..e]);
    assert chain[..e + 1] == chain[..e] + [b];
    FlatAppend(after, chain[..e], [b]);
    FlatOne(after, b);
  }

  lemma FlatHead(recs: seq<seq<Record>>, chain: seq<nat>, e: nat)
    requires e < |chain|
    ensures Flat(recs, chain[e..]) == At(recs, chain[e]) + Flat(recs, chain[e + 1..])
  {
    assert chain[e..][0] == chain[e] && chain[e..][1..] == chain[e + 1..];
  }

  /** The next unread record. */
  lemma NextUnread(data: seq<byte>, g: nat, last: nat, rest: seq<Record>)
    requires Unread(data, g, last, rest)
    ensures g == last <==> rest == []
    ensures rest != [] ==>
      && g + |Encode(rest[0])| <= last && StoredAt(data, g, rest[0])
      && Unread(data, g + |Encode(rest[0])|, last, rest[1..])
  {
    assert Open(0);
    EncodeAllEmpty(rest);
    if rest != [] {
      var e := Encode(rest[0]);
      assert data[g..last] == e + EncodeAll(rest[1..]);
      assert data[g..g + |e|] == data[g..last][..|e|];
      assert data[g + |e|..last] == data[g..last][|e|..];
    }
  }

  /** The reader has reached the end exactly when no record is left. */
  lemma AtEnd(job: Job, st: State, c: Cursor, g: nat, last: nat)
    requires Bounds(job, st, c) && Reading(job, st, c, g, last)
    ensures g == last <==> c.rest == []
  {
    NextUnread(st.bs[job.Chain()[c.entered - 1]].data, g, last, c.rest);
  }

  function Plus(st: State, b: nat, r: Record): State
    requires b < |st.bs| == |st.recs| && st.bs[b].bytesUsed + |Encode(r)| <= |st.bs[b].data|
  {
    st.(bs := st.bs[b := Appended(st.bs[b], r)], recs := st.recs[b := st.recs[b] + [r]])
  }

  /** The cursor after one more record has been moved. */
  function Moved(c: Cursor): Cursor
    requires c.rest != []
  {
    c.(done := c.done + [c.rest[0]], rest := c.rest[1..])
  }

  lemma SameTotal<T>(done: seq<T>, rest: seq<T>)
    requires rest != []
    ensures done + [rest[0]] + rest[1..] == done + rest
  {}

  lemma MovedDivided(before: seq<seq<Record>>, recs: seq<seq<Record>>, chain: seq<nat>, moved: seq<nat>,
                     bit: nat, c: Cursor, b: nat)
    requires c.entered <= |chain| && c.rest != [] && b < |recs| && c.writer < c.entered && |moved| > 0
    requires Divided(before, recs, chain, moved, bit, c) && Distinct(chain) && Distinct(moved)
    requires forall t, u :: 0 <= t < |chain| && 0 <= u < |moved| ==> chain[t] != moved[u]
    requires b == if HasBit(c.rest[0].hash, bit) then moved[|moved| - 1] else chain[c.writer]
    ensures Divided(before, recs[b := recs[b] + [c.rest[0]]], chain, moved, bit, Moved(c))
  {
    var r := c.rest[0];
    SelectSnoc(c.done, r, bit, false);
    SelectSnoc(c.done, r, bit, true);
    SameTotal(c.done, c.rest);
    if HasBit(r.hash, bit) {
      FlatExtend(recs, moved, |moved| - 1, r);
      FlatSkip(recs, b, recs[b] + [r], chain[..c.entered]);
    } else {
      FlatExtend(recs, chain[..c.entered], c.writer, r);
      FlatSkip(recs, b, recs[b] + [r], moved);
    }
  }

  /** Where the next record goes. */
  ghost function Destination(job: Job, st: State, c: Cursor): nat
    requires Bounds(job, st, c) && c.rest != []
  {
    if HasBit(c.rest[0].hash, job.Bit()) then Newest(job, st) else job.Chain()[c.writer]
  }

  /** A writer in the bucket being read is not past the reader. */
  lemma NotPast(job: Job, st: State, c: Cursor, g: nat, last: nat)
    requires Bounds(job, st, c) && Reading(job, st, c, g, last) && c.rest != []
    ensures Destination(job, st, c) == job.Chain()[c.entered - 1] ==> st.bs[Destination(job, st, c)].bytesUsed <= g
  {
    PlaceApart(job, st, c, c.entered - 1, c.writer);
  }

  /** Moving the next record to where there is room for it keeps the split on track. Copying over
      the bucket being read is safe: the writer is not past the reader. */
  lemma Move(job: Job, st: State, c: Cursor, g: nat, last: nat)
    requires InSplit(job, st, c) && Reading(job, st, c, g, last) && c.rest != []
    requires st.bs[Destination(job, st, c)].bytesUsed + |Encode(c.rest[0])| <= BUCKET_SIZE
    ensures var b, r := Destination(job, st, c), c.rest[0];
      && |st.bs[b].data| == BUCKET_SIZE
      && InSplit(job, Plus(st, b, r), Moved(c))
      && Reading(job, Plus(st, b, r), Moved(c), g + |Encode(r)|, last)
  {
    var b, r := Destination(job, st, c), c.rest[0];
    Apart(job, st, c);
    BucketHolds(st.bs, st.firstFree, st.s, st.recs, b);
    AppendSound(st.bs, st.firstFree, st.s, st.recs, b, r);
    MoveInSplit(job, st, c, b);
    MoveReading(job, st, c, g, last, b);
  }

  /** What the copying of the next record may rely on, and the state it leads to. */
  lemma ReadyToMove(job: Job, st: State, c: Cursor, g: nat, last: nat, from: nat, to: nat) returns (after: State)
    requires InSplit(job, st, c) && Reading(job, st, c, g, last) && c.rest != []
    requires from == job.Chain()[c.entered - 1] && to == Destination(job, st, c)
    requires st.bs[to].bytesUsed + |Encode(c.rest[0])| <= BUCKET_SIZE && PackedFor(job, st, c)
    ensures StoredAt(st.bs[from].data, g, c.rest[0]) && (from == to ==> st.bs[to].bytesUsed <= g)
    ensures |st.bs[to].data| == BUCKET_SIZE && after == Plus(st, to, c.rest[0])
    ensures InSplit(job, after, Moved(c)) && Reading(job, after, Moved(c), g + |Encode(c.rest[0])|, last)
    ensures Packed(job, after, Moved(c)) && job.Chain()[c.writer] != Newest(job, st)
  {
    PlaceApart(job, st, c, c.writer, c.writer);
    NextUnread(st.bs[from].data, g, last, c.rest);
    NotPast(job, st, c, g, last);
    Move(job, st, c, g, last);
    PackedMove(job, st, c, to);
    after := Plus(st, to, c.rest[0]);
  }

  lemma MoveInSplit(job: Job, st: State, c: Cursor, b: nat)
    requires InSplit(job, st, c) && c.rest != [] && b == Destination(job, st, c) && c.writer < c.entered
    requires st.bs[b].bytesUsed + |Encode(c.rest[0])| <= |st.bs[b].data| && SoundState(Plus(st, b, c.rest[0]))
    ensures InSplit(job, Plus(st, b, c.rest[0]), Moved(c))
  {
    assert Open(0);
    Apart(job, st, c);
    MovedDivided(job.start.recs, st.recs, job.Chain(), st.s.chains[job.n], job.Bit(), c, b);
    StillUntouched(job, st, c, b, Appended(st.bs[b], c.rest[0]), st.recs[b] + [c.rest[0]]);
  }

  /** Rewriting a bucket of the split chain or of the new one leaves the other chains untouched. */
  lemma StillUntouched(job: Job, st: State, c: Cursor, b: nat, nb: Bucket, rs: seq<Record>)
    requires Bounds(job, st, c) && Untouched(job, st) && b < |st.bs|
    requires st.s.owner[b] == job.h || st.s.owner[b] == job.n
    ensures Untouched(job, st.(bs := st.bs[b := nb], recs := st.recs[b := rs]))
  {
    Apart(job, st, c);
  }

  lemma MoveReading(job: Job, st: State, c: Cursor, g: nat, last: nat, b: nat)
    requires Bounds(job, st, c) && Reading(job, st, c, g, last) && c.rest != [] && b == Destination(job, st, c)
    requires st.bs[b].bytesUsed + |Encode(c.rest[0])| <= BUCKET_SIZE == |st.bs[b].data|
    requires Bounds(job, Plus(st, b, c.rest[0]), Moved(c))
    ensures Reading(job, Plus(st, b, c.rest[0]), Moved(c), g + |Encode(c.rest[0])|, last)
  {
    var r, a := c.rest[0], job.Chain()[c.entered - 1];
    Apart(job, st, c);
    NextUnread(st.bs[a].data, g, last, c.rest);
    if b == a {
      assert Open(0);
      SpliceBeyond(st.bs[a].data, st.bs[a].bytesUsed, Encode(r), g + |Encode(r)|, last);
    }
  }

  /** A record that does not fit behind the newest bucket: the new chain is still shorter than the
      stretch that has been read, so one more bucket keeps it no longer than the original. */
  lemma Grow(job: Job, st: State, c: Cursor, g: nat, last: nat, after: State, id: nat)
    requires InSplit(job, st, c) && Reading(job, st, c, g, last) && c.rest != []
    requires st.bs[Newest(job, st)].bytesUsed + |Encode(c.rest[0])| > BUCKET_SIZE
    requires SoundState(after) && after.s.chains == st.s.chains[job.n := st.s.chains[job.n] + [id]]
    requires Extends(st.bs, after.bs, Newest(job, st), id)
    requires after.bs[id].prefixBits == job.p && after.bs[id].bytesUsed == 0
    requires SameRecords(st.recs, after.recs) && At(after.recs, id) == []
    ensures InSplit(job, after, c) && Reading(job, after, c, g, last)
  {
    NextUnread(st.bs[job.Chain()[c.entered - 1]].data, g, last, c.rest);
    assert |st.s.chains[job.n]| < c.entered;
    assert after.s.chains[job.n] == st.s.chains[job.n] + [id];
    assert Bounds(job, after, c);
    GrowKeeps(job, st, c, after, id);
  }

  /** The buckets of the split chain and of the other chains survive the growth of the new chain. */
  lemma GrowKeeps(job: Job, st: State, c: Cursor, after: State, id: nat)
    requires InSplit(job, st, c) && Bounds(job, after, c)
    requires after.s.chains[job.n] == st.s.chains[job.n] + [id]
    requires Extends(st.bs, after.bs, Newest(job, st), id)
    requires after.bs[id].prefixBits == job.p
    requires SameRecords(st.recs, after.recs) && At(after.recs, id) == []
    ensures InSplit(job, after, c)
    ensures forall t :: 0 <= t < |job.Chain()| ==> after.bs[job.Chain()[t]] == st.bs[job.Chain()[t]]
  {
    assert Open(0);
    var moved := after.s.chains[job.n];
    Apart(job, after, c);
    assert moved[|moved| - 1] == id && moved[|moved| - 2] == Newest(job, st) && after.s.owner[id] == job.n;
    GrowDivided(job.start.recs, st.recs, after.recs, job.Chain(), st.s.chains[job.n], id, job.Bit(), c);
    GrowPrefixes(st.bs, after.bs, job.Chain(), st.s.chains[job.n], id, job.p, c.writer);
  }

  lemma GrowPrefixes(bs: seq<Bucket>, after: seq<Bucket>, chain: seq<nat>, moved: seq<nat>, id: nat, p: nat,
                     writer: nat)
    requires PrefixesSet(bs, chain, moved, p, writer) && |bs| <= |after| && id < |after| && after[id].prefixBits == p
    requires forall b :: 0 <= b < |bs| && b != id ==> after[b].prefixBits == bs[b].prefixBits
    requires forall t :: 0 <= t < |chain| ==> chain[t] < |bs|
    requires forall t :: 0 <= t < |moved| ==> moved[t] < |bs|
    ensures PrefixesSet(after, chain, moved + [id], p, writer)
  {}

  lemma GrowDivided(before: seq<seq<Record>>, recs: seq<seq<Record>>, after: seq<seq<Record>>, chain: seq<nat>,
                    moved: seq<nat>, id: nat, bit: nat, c: Cursor)
    requires c.entered <= |chain| && Divided(before, recs, chain, moved, bit, c)
    requires SameRecords(recs, after) && At(after, id) == []
    ensures Divided(before, after, chain, moved + [id], bit, c)
  {
    SameContents(recs, after, chain[..c.entered]);
    SameContents(recs, after, moved);
    FlatAppend(after, moved, [id]);
    FlatOne(after, id);
  }

  /** A kept record that does not fit behind the writer: the writer's bucket lies before the one
      being read, so the next bucket of the chain exists, has been entered and is empty. */
  lemma Advance(job: Job, st: State, c: Cursor, g: nat, last: nat)
    requires InSplit(job, st, c) && Reading(job, st, c, g, last) && c.rest != []
    requires st.bs[job.Chain()[c.writer]].bytesUsed + |Encode(c.rest[0])| > BUCKET_SIZE
    ensures c.writer + 1 < c.entered && st.bs[job.Chain()[c.writer]].next == job.Chain()[c.writer + 1]
    ensures var b := job.Chain()[c.writer + 1];
      var after := st.(bs := st.bs[b := st.bs[b].(prefixBits := job.p)]);
      && st.bs[b].bytesUsed == 0
      && InSplit(job, after, c.(writer := c.writer + 1))
      && Reading(job, after, c.(writer := c.writer + 1), g, last)
  {
    NextUnread(st.bs[job.Chain()[c.entered - 1]].data, g, last, c.rest);
    ChainStep(st.bs, st.firstFree, st.s, st.recs, job.h, c.writer);
    AdvanceKeeps(job, st, c);
  }

  lemma AdvanceKeeps(job: Job, st: State, c: Cursor)
    requires InSplit(job, st, c) && c.writer + 1 < c.entered
    ensures var b := job.Chain()[c.writer + 1];
      && st.bs[b].bytesUsed == 0
      && InSplit(job, st.(bs := st.bs[b := st.bs[b].(prefixBits := job.p)]), c.(writer := c.writer + 1))
  {
    var b := job.Chain()[c.writer + 1];
    assert Open(0);
    NoBytes(st, b);
    Apart(job, st, c);
    BucketHolds(st.bs, st.firstFree, st.s, st.recs, b);
    RewriteSound(st.bs, st.firstFree, st.s, st.recs, b, st.bs[b].(prefixBits := job.p), st.recs[b]);
    assert st.recs[b := st.recs[b]] == st.recs;
    StillUntouched(job, st, c, b, st.bs[b].(prefixBits := job.p), st.recs[b]);
  }

  // ------------------------------------------------------------------- no slack

  /** Mentioning this makes the definitions of Packed and PackedFor available. */
  predicate UnfoldPacked(k: int) { true }

  /** The new chain has taken its buckets off the free list as long as there were any. */
  ghost predicate Allocated(job: Job, st: State) {
    job.n in st.s.chains &&
    AfterTaking(job.start.s.free, |job.start.bs|, |st.s.chains[job.n]|, st.s.free, |st.bs|)
  }

  /** Neither the kept chain up to its writer nor the new chain has slack. */
  ghost predicate Packed(job: Job, st: State, c: Cursor)
    requires Bounds(job, st, c)
  {
    var moved := st.s.chains[job.n];
    forall k :: UnfoldPacked(k) ==>
      TightTo(st.bs, st.recs, job.Chain(), c.writer) && TightTo(st.bs, st.recs, moved, |moved| - 1)
  }

  /** Nor will they have any once the next record has been moved. */
  ghost predicate PackedFor(job: Job, st: State, c: Cursor)
    requires Bounds(job, st, c) && c.rest != []
  {
    var moved, r := st.s.chains[job.n], c.rest[0];
    forall k :: UnfoldPacked(k) ==>
      if HasBit(r.hash, job.Bit()) then
        TightTo(st.bs, st.recs, job.Chain(), c.writer) && TightWith(st.bs, st.recs, moved, |moved| - 1, r)
      else
        TightWith(st.bs, st.recs, job.Chain(), c.writer, r) && TightTo(st.bs, st.recs, moved, |moved| - 1)
  }

  lemma PackedBegin(job: Job, st: State, c: Cursor)
    requires Bounds(job, st, c) && c.writer == 0 && |st.s.chains[job.n]| == 1
    ensures Packed(job, st, c)
  {}

  /** Rewriting a bucket of neither stretch changes nothing. */
  lemma PackedElsewhere(job: Job, st: State, c: Cursor, st': State, c': Cursor, b: nat)
    requires Bounds(job, st, c) && Packed(job, st, c) && Bounds(job, st', c') && c'.writer == c.writer
    requires st'.s == st.s && b < |st.bs| == |st'.bs| && |st.recs| == |st'.recs| == |st.bs|
    requires forall x :: 0 <= x < |st.bs| && x != b ==> st'.bs[x] == st.bs[x] && st'.recs[x] == st.recs[x]
    requires c.writer == 0 || forall t :: 0 <= t <= c.writer ==> job.Chain()[t] != b
    requires forall t :: 0 <= t < |st.s.chains[job.n]| ==> st.s.chains[job.n][t] != b
    ensures Packed(job, st', c')
  {
    assert UnfoldPacked(0);
    var chain, moved := job.Chain(), st.s.chains[job.n];
    if c.writer > 0 { TightSame(st.bs, st.recs, st'.bs, st'.recs, chain, chain, c.writer); }
    TightSame(st.bs, st.recs, st'.bs, st'.recs, moved, moved, |moved| - 1);
  }

  /** Entering a bucket. */
  lemma PackedEnter(job: Job, st: State, c: Cursor, st': State, c': Cursor)
    requires InSplit(job, st, c) && Packed(job, st, c) && c.entered < |job.Chain()| && Bounds(job, st', c')
    requires var b := job.Chain()[c.entered];
      st' == st.(bs := st.bs[b := st.bs[b].(bytesUsed := 0)], recs := st.recs[b := []])
    requires c'.writer == c.writer
    ensures Packed(job, st', c')
  {
    Apart(job, st, c);
    PackedElsewhere(job, st, c, st', c', job.Chain()[c.entered]);
  }

  /** There is room where the writers stand. */
  lemma PackedRoom(job: Job, st: State, c: Cursor)
    requires Bounds(job, st, c) && Packed(job, st, c) && c.rest != []
    ensures PackedFor(job, st, c)
  {}

  /** The writer of kept records has gone on to the next bucket. */
  lemma PackedAdvance(job: Job, st: State, c: Cursor, st': State, c': Cursor)
    requires InSplit(job, st, c) && Packed(job, st, c) && c.rest != [] && !HasBit(c.rest[0].hash, job.Bit())
    requires c.writer + 1 < c.entered && c' == c.(writer := c.writer + 1) && Bounds(job, st', c')
    requires st.bs[job.Chain()[c.writer]].bytesUsed + |Encode(c.rest[0])| > BUCKET_SIZE
    requires var b := job.Chain()[c.writer + 1]; st' == st.(bs := st.bs[b := st.bs[b].(prefixBits := job.p)])
    ensures PackedFor(job, st', c')
  {
    assert UnfoldPacked(0);
    var chain, moved := job.Chain(), st.s.chains[job.n];
    AdvanceEmpty(job, st, c);
    TightSame(st.bs, st.recs, st'.bs, st'.recs, chain, chain, c.writer);
    TightSame(st.bs, st.recs, st'.bs, st'.recs, moved, moved, |moved| - 1);
    TightAdvance(st'.bs, st'.recs, chain, c.writer, c.rest[0]);
  }

  lemma AdvanceEmpty(job: Job, st: State, c: Cursor)
    requires InSplit(job, st, c) && c.writer + 1 < c.entered
    ensures At(st.recs, job.Chain()[c.writer + 1]) == []
  {
    assert Open(0);
  }

  /** The new chain has grown by a bucket. */
  lemma PackedGrow(job: Job, st: State, c: Cursor, st': State, id: nat)
    requires InSplit(job, st, c) && Packed(job, st, c) && c.rest != [] && HasBit(c.rest[0].hash, job.Bit())
    requires Bounds(job, st', c) && st'.s.chains[job.n] == st.s.chains[job.n] + [id]
    requires st.bs[Newest(job, st)].bytesUsed + |Encode(c.rest[0])| > BUCKET_SIZE
    requires Extends(st.bs, st'.bs, Newest(job, st), id)
    requires SameRecords(st.recs, st'.recs) && At(st'.recs, id) == []
    ensures PackedFor(job, st', c)
  {
    assert UnfoldPacked(0);
    var chain, moved, moved' := job.Chain(), st.s.chains[job.n], st'.s.chains[job.n];
    Apart(job, st', c);
    assert moved' == moved + [id] && moved'[|moved|] == id && forall t :: 0 <= t < |moved| ==> moved'[t] == moved[t];
    assert forall t :: 0 <= t < |moved| ==> moved[t] != id;
    assert forall t :: 0 <= t < |chain| ==> chain[t] != id && chain[t] != moved[|moved| - 1];
    GrownBytes(st.bs, st'.bs, moved[|moved| - 1], id, chain);
    GrownBytes(st.bs, st'.bs, moved[|moved| - 1], id, moved);
    TightSame(st.bs, st.recs, st'.bs, st'.recs, chain, chain, c.writer);
    TightSame(st.bs, st.recs, st'.bs, st'.recs, moved, moved', |moved| - 1);
    TightAdvance(st'.bs, st'.recs, moved', |moved| - 1, c.rest[0]);
  }

  lemma GrownBytes(bs: seq<Bucket>, cs: seq<Bucket>, last: nat, id: nat, chain: seq<nat>)
    requires Extends(bs, cs, last, id) && forall t :: 0 <= t < |chain| ==> chain[t] != id
    ensures forall t :: 0 <= t < |chain| && chain[t] < |bs| ==> cs[chain[t]].bytesUsed == bs[chain[t]].bytesUsed
  {}

  /** The next record has been moved. */
  lemma PackedMove(job: Job, st: State, c: Cursor, b: nat)
    requires InSplit(job, st, c) && c.rest != [] && PackedFor(job, st, c) && b == Destination(job, st, c)
    requires st.bs[b].bytesUsed + |Encode(c.rest[0])| <= |st.bs[b].data|
    requires Bounds(job, Plus(st, b, c.rest[0]), Moved(c))
    ensures Packed(job, Plus(st, b, c.rest[0]), Moved(c))
  {
    assert UnfoldPacked(0);
    Apart(job, st, c);
    var chain, moved, r, nb := job.Chain(), st.s.chains[job.n], c.rest[0], Appended(st.bs[b], c.rest[0]);
    if HasBit(r.hash, job.Bit()) {
      TightBoth(st.bs, st.recs, moved, |moved| - 1, r, nb, chain, c.writer);
    } else {
      TightBoth(st.bs, st.recs, chain, c.writer, r, nb, moved, |moved| - 1);
    }
  }

  /** Cutting the kept chain loose from the buckets behind the writer and freeing those. */
  datatype Ending = Ending(st: State, after: State, h: int, m: nat)

  ghost predicate IsEnding(x: Ending) {
    && SoundState(x.st) && x.h in x.st.s.chains && 0 < x.m <= |x.st.s.chains[x.h]|
    && x.after.recs == x.st.recs && Partition(|x.st.bs|, x.st.s) && IsCut(|x.st.bs|, x.st.s, x.after.s, x.h, x.m)
    && (var chain := x.st.s.chains[x.h];
        var last := chain[x.m - 1];
        && Pushed(x.st.bs[last := x.st.bs[last].(next := INVALID)], x.after.bs, x.st.firstFree, chain, x.m, |chain|)
        && x.after.firstFree == if x.m < |chain| then chain[|chain| - 1] else x.st.firstFree)
  }

  /** Only links change. */
  lemma EndingKeeps(x: Ending)
    requires IsEnding(x)
    ensures |x.after.bs| == |x.st.bs|
    ensures forall b :: 0 <= b < |x.st.bs| ==> SameButLink(x.st.bs[b], x.after.bs[b])
  {
    var last := x.st.s.chains[x.h][x.m - 1];
    var cut := x.st.bs[last := x.st.bs[last].(next := INVALID)];
    assert forall b :: 0 <= b < |cut| ==> SameButLink(cut[b], x.after.bs[b]);
    assert forall b :: 0 <= b < |cut| ==> SameButLink(x.st.bs[b], cut[b]);
  }

  /** Freed buckets are empty, so the store stays sound. */
  lemma EndingSound(x: Ending)
    requires IsEnding(x)
    requires forall t :: x.m <= t < |x.st.s.chains[x.h]| ==> At(x.st.recs, x.st.s.chains[x.h][t]) == []
    ensures SoundState(x.after)
  {
    EndingShaped(x);
    EndingKeeps(x);
    EndingFilled(x);
  }

  lemma EndingShaped(x: Ending)
    requires IsEnding(x)
    ensures Shaped(x.after.bs, x.after.firstFree, x.after.s)
  {
    assert Unfold(0);
    CutShaped(x.st.bs, x.after.bs, x.st.firstFree, x.st.s, x.after.s, x.h, x.m);
  }

  lemma EndingFilled(x: Ending)
    requires IsEnding(x)
    requires forall t :: x.m <= t < |x.st.s.chains[x.h]| ==> At(x.st.recs, x.st.s.chains[x.h][t]) == []
    ensures Filled(x.after.bs, x.after.recs) && FreeEmpty(x.after.recs, x.after.s.free)
  {
    EndingKeeps(x);
    assert Unfold(0);
    FilledSameButLinks(x.st.bs, x.after.bs, x.st.recs);
    CutFreeEmpty(x.st.recs, x.st.s.free, x.st.s.chains[x.h], x.m);
  }

  lemma CutFreeEmpty(recs: seq<seq<Record>>, free: seq<nat>, chain: seq<nat>, m: nat)
    requires FreeEmpty(recs, free) && m <= |chain|
    requires forall t :: m <= t < |chain| ==> At(recs, chain[t]) == []
    ensures FreeEmpty(recs, free + chain[m..])
  {
    var all := free + chain[m..];
    forall i | 0 <= i < |all|
      ensures At(recs, all[i]) == []
    {
      if i >= |free| { assert all[i] == chain[m + i - |free|]; }
    }
  }

  /** The stable partition: what remains on the chain and what went to the new one are the records
      without and with the new bit, in their order. */
  lemma EndingContents(job: Job, x: Ending, c: Cursor)
    requires InSplit(job, x.st, c) && c.entered == |job.Chain()| && c.rest == []
    requires x.h == job.h && x.m == c.writer + 1 && IsEnding(x)
    ensures var all := Flat(job.start.recs, job.Chain());
      && job.h in x.after.s.chains && job.n in x.after.s.chains && job.h != job.n
      && x.after.s.chains.Keys == job.start.s.chains.Keys + {job.n}
      && x.after.s.chains[job.h] == job.Chain()[..x.m]
      && |x.after.s.chains[job.n]| <= |job.Chain()|
      && Flat(x.after.recs, x.after.s.chains[job.h]) == Select(all, job.Bit(), false)
      && Flat(x.after.recs, x.after.s.chains[job.n]) == Select(all, job.Bit(), true)
    ensures forall t :: x.m <= t < |job.Chain()| ==> At(x.st.recs, job.Chain()[t]) == []
  {
    assert Open(0);
    DividedEnd(job.start.recs, x.st.recs, job.Chain(), x.st.s.chains[job.n], job.Bit(), c);
  }

  lemma DividedEnd(before: seq<seq<Record>>, recs: seq<seq<Record>>, chain: seq<nat>, moved: seq<nat>, bit: nat,
                   c: Cursor)
    requires c.entered == |chain| && c.rest == [] && c.writer < |chain| && Divided(before, recs, chain, moved, bit, c)
    ensures Flat(recs, chain[..c.writer + 1]) == Select(Flat(before, chain), bit, false)
    ensures Flat(recs, moved) == Select(Flat(before, chain), bit, true)
  {
    var m := c.writer + 1;
    assert chain[..|chain|] == chain && chain[|chain|..] == [];
    assert c.done == Flat(before, chain);
    assert chain == chain[..m] + chain[m..];
    FlatAppend(recs, chain[..m], chain[m..]);
    assert forall i :: 0 <= i < |chain[m..]| ==> chain[m..][i] == chain[m + i];
    FlatEmpty(recs, chain[m..]);
  }

  lemma EndingOthers(job: Job, x: Ending, c: Cursor, g: int)
    requires InSplit(job, x.st, c) && x.h == job.h && IsEnding(x) && g in job.start.s.chains && g != job.h
    ensures g in x.after.s.chains && x.after.s.chains[g] == job.start.s.chains[g]
    ensures Flat(x.after.recs, x.after.s.chains[g]) == Flat(job.start.recs, job.start.s.chains[g])
    ensures forall i :: 0 <= i < |x.after.s.chains[g]| ==>
      var b := x.after.s.chains[g][i];
      b < |x.after.bs| && b < |job.start.bs| && x.after.bs[b].prefixBits == job.start.bs[b].prefixBits
  {
    assert Open(0);
    EndingKeeps(x);
    FlatAgree(x.after.recs, job.start.recs, job.start.s.chains[g]);
  }

  lemma EndingUniform(job: Job, x: Ending, c: Cursor)
    requires InSplit(job, x.st, c) && c.entered == |job.Chain()| && c.rest == []
    requires x.h == job.h && x.m == c.writer + 1 && IsEnding(x) && Uniform(job.start.bs, job.start.s)
    requires SoundState(x.after)
    ensures Uniform(x.after.bs, x.after.s)
    ensures x.after.bs[x.after.s.chains[job.h][0]].prefixBits == job.p
    ensures x.after.bs[x.after.s.chains[job.n][0]].prefixBits == job.p
  {
    assert UnfoldPrefixes(0);
    assert Open(0);
    EndingKeeps(x);
    var chains := x.after.s.chains;
    forall g, i | g in chains && 0 <= i < |chains[g]|
      ensures x.after.bs[chains[g][i]].prefixBits == x.after.bs[chains[g][0]].prefixBits
    {
      if g != job.h && g != job.n { EndingOthers(job, x, c, g); }
    }
  }

  /** What a finished split has done: the chain keeps the records without the new bit, in order, in a
      prefix of its buckets; the new chain, which is no longer than the old one, has those with it; both
      carry the new prefix length; and the other chains are as they were. */
  ghost predicate IsSplit(job: Job, st: State, kept: nat)
    requires job.WellFormed()
  {
    var all := Flat(job.start.recs, job.Chain());
    && SoundState(st) && Uniform(st.bs, st.s)
    && st.s.chains.Keys == job.start.s.chains.Keys + {job.n}
    && 0 < kept <= |job.Chain()| && st.s.chains[job.h] == job.Chain()[..kept]
    && |st.s.chains[job.n]| <= |job.Chain()|
    && Flat(st.recs, st.s.chains[job.h]) == Select(all, job.Bit(), false)
    && Flat(st.recs, st.s.chains[job.n]) == Select(all, job.Bit(), true)
    && st.bs[st.s.chains[job.h][0]].prefixBits == st.bs[st.s.chains[job.n][0]].prefixBits == job.p
    && NoSlack(st, job.h) && NoSlack(st, job.n) && Recycled(job, st, kept)
    && forall g :: g in job.start.s.chains && g != job.h ==> SameChain(job.start, st, g)
  }

  /** Every bucket of a chain but the first was needed. */
  ghost predicate NoSlack(st: State, h: int) {
    && h in st.s.chains && |st.s.chains[h]| > 0
    && TightTo(st.bs, st.recs, st.s.chains[h], |st.s.chains[h]| - 1)
  }

  /** The new chain has used up the top of the free list before the file grew, and the buckets that the kept
      records do not need are on it now, the last one on top. */
  ghost predicate Recycled(job: Job, st: State, kept: nat)
    requires job.WellFormed() && kept <= |job.Chain()|
  {
    job.n in st.s.chains &&
    exists free: seq<nat> ::
      && AfterTaking(job.start.s.free, |job.start.bs|, |st.s.chains[job.n]|, free, |st.bs|)
      && st.s.free == free + job.Chain()[kept..]
  }

  ghost predicate SplitInto(start: State, h: int, n: nat, kept: nat, end: State) {
    && SoundState(start) && h in start.s.chains && n !in start.s.chains && start.bs[h].prefixBits < HASH_BITS
    && IsSplit(Job(start, h, n, start.bs[h].prefixBits + 1), end, kept)
  }

  /** Mentioning this makes the definition of WasSplit available. */
  predicate UnfoldSplit(k: int) { true }

  /** Between the two states chain `h` has been split by one more bit. */
  ghost predicate WasSplit(start: State, h: int, end: State) {
    forall k :: UnfoldSplit(k) ==> exists n: nat, kept: nat :: SplitInto(start, h, n, kept, end)
  }

  /** Chain `g` has the same contents and prefix length in both states. */
  ghost predicate SameChain(a: State, b: State, g: int)
    requires SoundState(a) && SoundState(b)
  {
    && g in a.s.chains && g in b.s.chains && b.s.chains[g] == a.s.chains[g]
    && Flat(b.recs, b.s.chains[g]) == Flat(a.recs, a.s.chains[g])
    && b.bs[b.s.chains[g][0]].prefixBits == a.bs[a.s.chains[g][0]].prefixBits
  }

  lemma EndingNoSlack(job: Job, x: Ending, c: Cursor)
    requires Bounds(job, x.st, c) && Packed(job, x.st, c) && IsEnding(x) && x.h == job.h && x.m == c.writer + 1
    ensures NoSlack(x.after, job.h) && NoSlack(x.after, job.n)
  {
    assert UnfoldPacked(0);
    var chain, moved := job.Chain(), x.st.s.chains[job.n];
    assert x.after.s.chains[job.h] == chain[..x.m] && x.after.s.chains[job.n] == moved;
    EndingTight(x, chain, x.m);
    EndingTight(x, moved, |moved|);
    assert moved[..|moved|] == moved;
  }

  lemma EndingTight(x: Ending, chain: seq<nat>, n: nat)
    requires IsEnding(x) && 0 < n <= |chain| && TightTo(x.st.bs, x.st.recs, chain, n - 1)
    ensures TightTo(x.after.bs, x.after.recs, chain[..n], n - 1)
  {
    EndingKeeps(x);
    forall t | 0 <= t < |chain| && chain[t] < |x.st.bs|
      ensures x.after.bs[chain[t]].bytesUsed == x.st.bs[chain[t]].bytesUsed
    {
      assert SameButLink(x.st.bs[chain[t]], x.after.bs[chain[t]]);
    }
    assert chain[..n][..n - 1 + 1] == chain[..n - 1 + 1];
    TightSame(x.st.bs, x.st.recs, x.after.bs, x.after.recs, chain, chain[..n], n - 1);
  }

  lemma EndingRecycled(job: Job, x: Ending)
    requires job.WellFormed() && Allocated(job, x.st) && IsEnding(x) && x.h == job.h && job.h != job.n
    requires x.st.s.chains[job.h] == job.Chain()
    ensures Recycled(job, x.after, x.m)
  {
    EndingKeeps(x);
    var free := x.st.s.free;
    assert AfterTaking(job.start.s.free, |job.start.bs|, |x.after.s.chains[job.n]|, free, |x.after.bs|);
    assert x.after.s.free == free + job.Chain()[x.m..];
  }

  lemma EndingIsSplit(job: Job, x: Ending, c: Cursor)
    requires InSplit(job, x.st, c) && c.entered == |job.Chain()| && c.rest == []
    requires x.h == job.h && x.m == c.writer + 1 && IsEnding(x) && Uniform(job.start.bs, job.start.s)
    requires Packed(job, x.st, c) && Allocated(job, x.st)
    ensures IsSplit(job, x.after, x.m)
  {
    EndingContents(job, x, c);
    EndingNoSlack(job, x, c);
    EndingRecycled(job, x);
    EndingSound(x);
    EndingUniform(job, x, c);
    forall g | g in job.start.s.chains && g != job.h
      ensures SameChain(job.start, x.after, g)
    {
      EndingOthers(job, x, c, g);
    }
  }

  /** The same read off the heads of the chains. */
  lemma SplitHeads(job: Job, st: State, kept: nat)
    requires job.WellFormed() && IsSplit(job, st, kept)
    ensures 0 <= job.h < |st.bs| && job.n < |st.bs| && st.bs[job.h].prefixBits == st.bs[job.n].prefixBits == job.p
    ensures forall g :: g in job.start.s.chains && g != job.h ==>
      && g in st.s.chains && 0 <= g < |st.bs| && g < |job.start.bs|
      && Flat(st.recs, st.s.chains[g]) == Flat(job.start.recs, job.start.s.chains[g])
      && st.bs[g].prefixBits == job.start.bs[g].prefixBits
  {
    forall g | g in job.start.s.chains && g != job.h
      ensures g in st.s.chains && 0 <= g < |st.bs| && g < |job.start.bs|
      ensures Flat(st.recs, st.s.chains[g]) == Flat(job.start.recs, job.start.s.chains[g])
      ensures st.bs[g].prefixBits == job.start.bs[g].prefixBits
    {
      assert SameChain(job.start, st, g);
    }
  }
}
