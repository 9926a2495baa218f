/** The sharded map as a system of threads: every operation takes the lock of its key's shard, acts in
    one or two steps while it holds it, and releases it. */
module ShardedMap {
  import opened Bits
  import opened Contents
  import Records

  type Key = seq<byte>
  type Model = map<Key, seq<byte>>

  /** The number of shards and the hash function of the keys. */
  datatype Config = Config(shards: nat, hash: Key -> Hash) {
    function Index(k: Key): (i: nat)
      requires shards >= 1
      ensures i < shards
    {
      hash(k) % shards
    }

    /** Whether a set that found its key missing can store the record: one larger than a bucket makes the
        walk for room go on for ever. */
    predicate Storable(op: Op) {
      op.Set? ==> Records.Fits(Records.Record(hash(op.key), op.key, op.value))
    }
  }

  datatype Op = Get(key: Key) | Set(key: Key, value: seq<byte>) | Remove(key: Key) {
    /** get takes the lock shared, set and remove take it alone. */
    predicate Shared() { Get? }
  }

  datatype Answer = Found(value: Option<seq<byte>>) | Done(success: bool)

  // --------------------------------------------------------------- one sequential map

  function Reply(m: Model, op: Op): Answer {
    match op
    case Get(k) => Found(if k in m then Some(m[k]) else None)
    case Set(k, _) => Done(k !in m)
    case Remove(k) => Done(k in m)
  }

  function After(m: Model, op: Op): Model {
    match op
    case Get(_) => m
    case Set(k, v) => if k in m then m else m[k := v]
    case Remove(k) => m - {k}
  }

  /** What happened: a call, the point at which an operation takes effect, its return. An operation is
      named by the place of its call. */
  datatype Mark = Call(thread: nat, op: Op)
                | Act(id: nat, actOp: Op, answer: Answer)
                | Return(caller: nat, id: nat, at: nat, answer: Answer)

  /** The sequential map after the operations that took effect, in that order. */
  function Replay(h: seq<Mark>): Model {
    if h == [] then map[]
    else
      var last := h[|h| - 1];
      if last.Act? then After(Replay(h[..|h| - 1]), last.actOp) else Replay(h[..|h| - 1])
  }

  /** Every answer is the one that the sequential map would have given. */
  ghost predicate Legal(h: seq<Mark>) {
    forall p :: 0 <= p < |h| && h[p].Act? ==> h[p].answer == Reply(Replay(h[..p]), h[p].actOp)
  }

  /** The call that a return answers was made by the same thread. */
  ghost predicate CalledBy(h: seq<Mark>, id: nat, thread: nat) {
    id < |h| && h[id].Call? && h[id].thread == thread
  }

  /** An operation takes effect once, after its call. */
  ghost predicate ActsWell(h: seq<Mark>) {
    && (forall p :: 0 <= p < |h| && h[p].Act? ==>
          h[p].id < p && h[h[p].id].Call? && h[h[p].id].op == h[p].actOp)
    && (forall p, q :: 0 <= p < q < |h| && h[p].Act? && h[q].Act? ==> h[p].id != h[q].id)
  }

  /** A return at place r gives the answer of an effect before it to the thread that called. */
  ghost predicate ReturnsAt(h: seq<Mark>, r: nat)
    requires r < |h| && h[r].Return?
  {
    && h[r].at < r && h[h[r].at] == Act(h[r].id, ActedOp(h, h[r].at), h[r].answer)
    && CalledBy(h, h[r].id, h[r].caller)
  }

  /** An operation returns at most once, after it has taken effect, with that answer. */
  ghost predicate ReturnsWell(h: seq<Mark>) {
    && (forall r :: 0 <= r < |h| && h[r].Return? ==> ReturnsAt(h, r))
    && (forall p, q :: 0 <= p < q < |h| && h[p].Return? && h[q].Return? ==> h[p].id != h[q].id)
  }

  ghost predicate WellTimed(h: seq<Mark>) {
    ActsWell(h) && ReturnsWell(h)
  }

  function ActedOp(h: seq<Mark>, p: nat): Op {
    if p < |h| && h[p].Act? then h[p].actOp else Get([])
  }

  // ------------------------------------------------------------------------ the system

  datatype Lock = Lock(readers: set<nat>, writer: Option<nat>)

  /** Where a thread is. `Viewed`: get has found the key and is about to copy its value. `Checked`: set has
      found the key missing. `Between` and `Listing`: keys() before and while it holds a shard's lock. */
  datatype Phase = Idle
                 | Called(id: nat, op: Op)
                 | Held(id: nat, op: Op)
                 | Viewed(id: nat, op: Op)
                 | Checked(id: nat, op: Op)
                 | Answered(id: nat, op: Op, answer: Answer, at: nat)
                 | Between(next: nat, out: seq<Key>)
                 | Listing(shard: nat, out: seq<Key>, listed: set<Key>)

  datatype State = State(shards: seq<Model>, locks: seq<Lock>, threads: map<nat, Phase>, history: seq<Mark>) {
    function At(t: nat): Phase {
      if t in threads then threads[t] else Idle
    }
  }

  datatype Step = DoCall(op: Op) | DoLock | DoWork | DoUnlock | DoKeys | DoList(key: Key)

  /** A thread holds the lock of shard i, shared or alone. */
  predicate HoldsShared(c: Config, ph: Phase, i: nat)
    requires c.shards >= 1
  {
    if ph.Listing? then ph.shard == i
    else (ph.Held? || ph.Viewed? || ph.Checked? || ph.Answered?) && ph.op.Shared() && c.Index(ph.op.key) == i
  }

  predicate HoldsAlone(c: Config, ph: Phase, i: nat)
    requires c.shards >= 1
  {
    (ph.Held? || ph.Viewed? || ph.Checked? || ph.Answered?) && !ph.op.Shared() && c.Index(ph.op.key) == i
  }

  predicate Sized(c: Config, s: State) {
    c.shards >= 1 && |s.shards| == c.shards && |s.locks| == c.shards
  }

  function Move(s: State, t: nat, ph: Phase): State {
    s.(threads := s.threads[t := ph])
  }

  /** An operation takes effect: the shard becomes `shard` and the answer is recorded. */
  function Effect(c: Config, s: State, t: nat, shard: Model, answer: Answer): State
    requires Sized(c, s) && (s.At(t).Held? || s.At(t).Viewed? || s.At(t).Checked?)
  {
    var ph := s.At(t);
    Move(s.(shards := s.shards[c.Index(ph.op.key) := shard], history := s.history + [Act(ph.id, ph.op, answer)]),
         t, Answered(ph.id, ph.op, answer, |s.history|))
  }

  predicate Free(lock: Lock, shared: bool) {
    lock.writer.None? && (shared || lock.readers == {})
  }

  /** When thread t can take a step. */
  predicate Enabled(c: Config, s: State, t: nat, a: Step)
    requires Sized(c, s)
  {
    var ph := s.At(t);
    match a
    case DoCall(_) => ph.Idle?
    case DoKeys => ph.Idle? || (ph.Between? && ph.next == c.shards)
    case DoLock =>
      if ph.Called? then Free(s.locks[c.Index(ph.op.key)], ph.op.Shared())
      else ph.Between? && ph.next < c.shards && Free(s.locks[ph.next], true)
    case DoWork => ph.Held? || ph.Viewed? || (ph.Checked? && c.Storable(ph.op))
    case DoUnlock => ph.Answered? || (ph.Listing? && ph.shard < c.shards && ph.listed == s.shards[ph.shard].Keys)
    case DoList(k) => ph.Listing? && ph.shard < c.shards && k in s.shards[ph.shard] && k !in ph.listed
  }

  function Acquire(lock: Lock, t: nat, shared: bool): Lock {
    if shared then lock.(readers := lock.readers + {t}) else lock.(writer := Some(t))
  }

  function Drop(lock: Lock, t: nat, shared: bool): Lock {
    if shared then lock.(readers := lock.readers - {t}) else lock.(writer := None)
  }

  /** What one thread does to a shard in one step while it holds the lock. */
  function Work(c: Config, s: State, t: nat): State
    requires Sized(c, s) && Enabled(c, s, t, DoWork)
  {
    var ph := s.At(t);
    var k := ph.op.key;
    var shard := s.shards[c.Index(k)];
    match ph.op
    case Get(_) =>
      if ph.Viewed? then Effect(c, s, t, shard, Found(Some(if k in shard then shard[k] else [])))
      else if k in shard then Move(s, t, Viewed(ph.id, ph.op))
      else Effect(c, s, t, shard, Found(None))
    case Set(_, v) =>
      if ph.Checked? then Effect(c, s, t, if k in shard then shard else shard[k := v], Done(true))
      else if k in shard then Effect(c, s, t, shard, Done(false))
      else Move(s, t, Checked(ph.id, ph.op))
    case Remove(_) => Effect(c, s, t, shard - {k}, Done(k in shard))
  }

  function Apply(c: Config, s: State, t: nat, a: Step): State
    requires Sized(c, s) && Enabled(c, s, t, a)
  {
    var ph := s.At(t);
    match a
    case DoCall(op) => Move(s.(history := s.history + [Call(t, op)]), t, Called(|s.history|, op))
    case DoKeys => Move(s, t, if ph.Idle? then Between(0, []) else Idle)
    case DoLock =>
      if ph.Called? then
        var i := c.Index(ph.op.key);
        Move(s.(locks := s.locks[i := Acquire(s.locks[i], t, ph.op.Shared())]), t, Held(ph.id, ph.op))
      else
        Move(s.(locks := s.locks[ph.next := Acquire(s.locks[ph.next], t, true)]), t, Listing(ph.next, ph.out, {}))
    case DoWork => Work(c, s, t)
    case DoUnlock =>
      if ph.Answered? then
        var i := c.Index(ph.op.key);
        Move(s.(locks := s.locks[i := Drop(s.locks[i], t, ph.op.Shared())],
                history := s.history + [Return(t, ph.id, ph.at, ph.answer)]), t, Idle)
      else
        Move(s.(locks := s.locks[ph.shard := Drop(s.locks[ph.shard], t, true)]), t, Between(ph.shard + 1, ph.out))
    case DoList(k) => Move(s, t, ph.(out := ph.out + [k], listed := ph.listed + {k}))
  }

  ghost predicate Next(c: Config, s: State, s': State) {
    exists t, a :: Sized(c, s) && Enabled(c, s, t, a) && s' == Apply(c, s, t, a)
  }

  ghost predicate Init(c: Config, s: State) {
    && Sized(c, s) && s.threads == map[] && s.history == []
    && forall i :: 0 <= i < c.shards ==> s.shards[i] == map[] && s.locks[i] == Lock({}, None)
  }

  /** A run: every state follows from the one before it by a step of some thread. */
  ghost predicate Run(c: Config, tr: seq<State>) {
    |tr| > 0 && Init(c, tr[0]) && forall m :: 0 <= m < |tr| - 1 ==> Next(c, tr[m], tr[m + 1])
  }

  // ---------------------------------------------------------------------- the invariant

  /** Locks say exactly which threads hold them, and a writer excludes everybody else. */
  ghost predicate LocksAgree(c: Config, s: State)
    requires Sized(c, s)
  {
    && (forall i, t: nat :: 0 <= i < c.shards ==>
          && (t in s.locks[i].readers <==> HoldsShared(c, s.At(t), i))
          && (s.locks[i].writer == Some(t) <==> HoldsAlone(c, s.At(t), i)))
    && (forall i :: 0 <= i < c.shards ==> s.locks[i].writer.None? || s.locks[i].readers == {})
  }

  /** What a thread that holds a lock relies on. */
  ghost predicate Relies(c: Config, s: State, t: nat)
    requires Sized(c, s)
  {
    var ph := s.At(t);
    match ph
    case Viewed(_, op) => op.Get? && op.key in s.shards[c.Index(op.key)]
    case Checked(_, op) => op.Set? && op.key !in s.shards[c.Index(op.key)]
    case Listing(i, out, listed) => i < c.shards && listed <= s.shards[i].Keys
    case Between(i, _) => i <= c.shards
    case _ => true
  }

  ghost predicate NotActed(h: seq<Mark>, id: nat) {
    forall p :: 0 <= p < |h| && h[p].Act? ==> h[p].id != id
  }

  ghost predicate NotReturned(h: seq<Mark>, id: nat) {
    forall p :: 0 <= p < |h| && h[p].Return? ==> h[p].id != id
  }

  /** Operations under way have called and not taken effect, answered ones have taken effect; neither has returned. */
  ghost predicate Tracked(s: State, t: nat) {
    var ph := s.At(t);
    match ph
    case Idle => true
    case Between(_, _) => true
    case Listing(_, _, _) => true
    case Answered(id, op, answer, at) =>
      && at < |s.history| && s.history[at] == Act(id, op, answer)
      && CalledBy(s.history, id, t) && NotReturned(s.history, id)
    case _ =>
      && ph.id < |s.history| && s.history[ph.id] == Call(t, ph.op)
      && NotActed(s.history, ph.id) && NotReturned(s.history, ph.id)
  }

  /** The shards together are the sequential map, each key in its own shard. */
  ghost predicate Together(c: Config, s: State)
    requires Sized(c, s)
  {
    && (forall i, k :: 0 <= i < c.shards && k in s.shards[i] ==> c.Index(k) == i)
    && (forall k :: k in Replay(s.history) <==> k in s.shards[c.Index(k)])
    && (forall k :: k in Replay(s.history) ==> Replay(s.history)[k] == s.shards[c.Index(k)][k])
  }

  ghost predicate Inv(c: Config, s: State) {
    && Sized(c, s) && LocksAgree(c, s) && Together(c, s) && Legal(s.history) && WellTimed(s.history)
    && forall t: nat :: Relies(c, s, t) && Tracked(s, t)
  }

  // ------------------------------------------------------------------- histories grow

  lemma ReplaySnoc(h: seq<Mark>, m: Mark)
    ensures Replay(h + [m]) == if m.Act? then After(Replay(h), m.actOp) else Replay(h)
  {
    assert (h + [m])[..|h|] == h;
  }

  lemma LegalSnoc(h: seq<Mark>, m: Mark)
    requires Legal(h) && (m.Act? ==> m.answer == Reply(Replay(h), m.actOp))
    ensures Legal(h + [m])
  {
    forall p | 0 <= p < |h + [m]| && (h + [m])[p].Act?
      ensures (h + [m])[p].answer == Reply(Replay((h + [m])[..p]), (h + [m])[p].actOp)
    {
      assert (h + [m])[..p] == h[..p];
      if p == |h| { assert h[..p] == h; }
    }
  }

  lemma WellTimedSnoc(h: seq<Mark>, m: Mark)
    requires WellTimed(h)
    requires m.Act? ==> m.id < |h| && h[m.id].Call? && h[m.id].op == m.actOp && NotActed(h, m.id)
    requires m.Return? ==> m.at < |h| && h[m.at] == Act(m.id, ActedOp(h, m.at), m.answer)
    requires m.Return? ==> CalledBy(h, m.id, m.caller) && NotReturned(h, m.id)
    ensures WellTimed(h + [m])
  {
    ActsSnoc(h, m);
    ReturnsSnoc(h, m);
  }

  lemma ActsSnoc(h: seq<Mark>, m: Mark)
    requires ActsWell(h)
    requires m.Act? ==> m.id < |h| && h[m.id].Call? && h[m.id].op == m.actOp && NotActed(h, m.id)
    ensures ActsWell(h + [m])
  {
    assert forall p :: 0 <= p < |h| ==> (h + [m])[p] == h[p];
  }

  lemma ReturnsSnoc(h: seq<Mark>, m: Mark)
    requires ReturnsWell(h)
    requires m.Return? ==> m.at < |h| && h[m.at] == Act(m.id, ActedOp(h, m.at), m.answer)
    requires m.Return? ==> CalledBy(h, m.id, m.caller) && NotReturned(h, m.id)
    ensures ReturnsWell(h + [m])
  {
    var g := h + [m];
    forall r | 0 <= r < |g| && g[r].Return?
      ensures ReturnsAt(g, r)
    {
      if r < |h| { assert ReturnsAt(h, r); }
    }
  }

  /** Growing the history by a mark that is not an effect or a return of thread u's operation keeps u tracked. */
  lemma TrackedSnoc(s: State, m: Mark, u: nat, s': State)
    requires Tracked(s, u) && s'.history == s.history + [m] && s'.At(u) == s.At(u)
    requires !m.Call? ==> m.id < |s.history| && s.history[m.id].Call? && s.history[m.id].thread != u
    ensures Tracked(s', u)
  {
    assert forall p :: 0 <= p < |s.history| ==> s'.history[p] == s.history[p];
  }

  // ------------------------------------------------------------------------ locks

  ghost predicate OnlyMoves(s: State, s': State, t: nat) {
    forall u: nat :: u != t ==> s'.At(u) == s.At(u)
  }

  lemma SameLocks(c: Config, s: State, s': State, t: nat)
    requires Sized(c, s) && Sized(c, s') && LocksAgree(c, s) && s'.locks == s.locks && OnlyMoves(s, s', t)
    requires forall i :: 0 <= i < c.shards ==>
      && HoldsShared(c, s'.At(t), i) == HoldsShared(c, s.At(t), i)
      && HoldsAlone(c, s'.At(t), i) == HoldsAlone(c, s.At(t), i)
    ensures LocksAgree(c, s')
  {
    forall i, u: nat | 0 <= i < c.shards
      ensures u in s'.locks[i].readers <==> HoldsShared(c, s'.At(u), i)
      ensures s'.locks[i].writer == Some(u) <==> HoldsAlone(c, s'.At(u), i)
    {
      if u != t { assert s'.At(u) == s.At(u); }
    }
  }

  /** Taking or releasing one lock, with the thread's phase saying so. */
  lemma ChangeLock(c: Config, s: State, s': State, t: nat, j: nat)
    requires Sized(c, s) && Sized(c, s') && LocksAgree(c, s) && OnlyMoves(s, s', t) && j < c.shards
    requires s'.locks == s.locks[j := s'.locks[j]]
    requires forall i :: 0 <= i < c.shards && i != j ==>
      && HoldsShared(c, s'.At(t), i) == HoldsShared(c, s.At(t), i)
      && HoldsAlone(c, s'.At(t), i) == HoldsAlone(c, s.At(t), i)
    requires s'.locks[j].readers - {t} == s.locks[j].readers - {t}
    requires t in s'.locks[j].readers <==> HoldsShared(c, s'.At(t), j)
    requires s'.locks[j].writer == Some(t) <==> HoldsAlone(c, s'.At(t), j)
    requires forall u: nat :: u != t ==> (s'.locks[j].writer == Some(u) <==> s.locks[j].writer == Some(u))
    requires s'.locks[j].writer.None? || s'.locks[j].readers == {}
    ensures LocksAgree(c, s')
  {
    forall i, u: nat | 0 <= i < c.shards
      ensures u in s'.locks[i].readers <==> HoldsShared(c, s'.At(u), i)
      ensures s'.locks[i].writer == Some(u) <==> HoldsAlone(c, s'.At(u), i)
    {
      if u != t {
        assert s'.At(u) == s.At(u);
        assert u in s'.locks[j].readers <==> u in s'.locks[j].readers - {t};
        assert u in s.locks[j].readers <==> u in s.locks[j].readers - {t};
      }
    }
  }

  /** While a thread holds a lock alone no other thread holds it. */
  lemma Excludes(c: Config, s: State, t: nat, u: nat, i: nat)
    requires Sized(c, s) && LocksAgree(c, s) && i < c.shards && t != u && HoldsAlone(c, s.At(t), i)
    ensures !HoldsShared(c, s.At(u), i) && !HoldsAlone(c, s.At(u), i)
  {
    assert s.locks[i].writer == Some(t);
    assert u in s.locks[i].readers <==> HoldsShared(c, s.At(u), i);
    assert s.locks[i].writer == Some(u) <==> HoldsAlone(c, s.At(u), i);
  }

  /** Only the holder of a lock changes its shard, so what the others rely on stays true. */
  lemma OthersRely(c: Config, s: State, s': State, t: nat, u: nat, i: nat)
    requires Sized(c, s) && Sized(c, s') && LocksAgree(c, s) && OnlyMoves(s, s', t) && u != t && Relies(c, s, u)
    requires i < c.shards && s'.shards == s.shards[i := s'.shards[i]]
    requires s'.shards[i] == s.shards[i] || HoldsAlone(c, s.At(t), i)
    ensures Relies(c, s', u)
  {
    assert s'.At(u) == s.At(u);
    if HoldsAlone(c, s.At(t), i) { Excludes(c, s, t, u, i); }
  }

  // ---------------------------------------------------------------- every step keeps the invariant

  /** Steps that leave shards and history alone: it is enough to look at the thread that moved. */
  lemma QuietInv(c: Config, s: State, s': State, t: nat)
    requires Inv(c, s) && Sized(c, s') && OnlyMoves(s, s', t) && s'.shards == s.shards && s'.history == s.history
    requires LocksAgree(c, s') && Relies(c, s', t) && Tracked(s', t)
    ensures Inv(c, s')
  {
    forall u: nat
      ensures Relies(c, s', u) && Tracked(s', u)
    {
      if u != t { assert s'.At(u) == s.At(u) && Relies(c, s, u) && Tracked(s, u); }
    }
  }

  lemma CallInv(c: Config, s: State, t: nat, op: Op)
    requires Inv(c, s) && Enabled(c, s, t, DoCall(op))
    ensures Inv(c, Apply(c, s, t, DoCall(op)))
  {
    var s', m := Apply(c, s, t, DoCall(op)), Call(t, op);
    SameLocks(c, s, s', t);
    ReplaySnoc(s.history, m);
    LegalSnoc(s.history, m);
    WellTimedSnoc(s.history, m);
    forall u: nat
      ensures Relies(c, s', u) && Tracked(s', u)
    {
      if u != t {
        assert Relies(c, s, u) && Tracked(s, u);
        TrackedSnoc(s, m, u, s');
      }
    }
  }

  lemma KeysInv(c: Config, s: State, t: nat, a: Step)
    requires Inv(c, s) && (a.DoKeys? || a.DoList?) && Enabled(c, s, t, a)
    ensures Inv(c, Apply(c, s, t, a))
  {
    var s' := Apply(c, s, t, a);
    assert Relies(c, s, t);
    SameLocks(c, s, s', t);
    QuietInv(c, s, s', t);
  }

  lemma LockInv(c: Config, s: State, t: nat)
    requires Inv(c, s) && Enabled(c, s, t, DoLock)
    ensures Inv(c, Apply(c, s, t, DoLock))
  {
    var s', ph := Apply(c, s, t, DoLock), s.At(t);
    assert Relies(c, s, t) && Tracked(s, t);
    var j := if ph.Called? then c.Index(ph.op.key) else ph.next;
    assert !HoldsShared(c, ph, j) && !HoldsAlone(c, ph, j);
    ChangeLock(c, s, s', t, j);
    QuietInv(c, s, s', t);
  }

  lemma UnlockListingInv(c: Config, s: State, t: nat)
    requires Inv(c, s) && s.At(t).Listing? && Enabled(c, s, t, DoUnlock)
    ensures Inv(c, Apply(c, s, t, DoUnlock))
  {
    var s', ph := Apply(c, s, t, DoUnlock), s.At(t);
    assert Relies(c, s, t);
    assert HoldsShared(c, ph, ph.shard);
    ChangeLock(c, s, s', t, ph.shard);
    QuietInv(c, s, s', t);
  }

  lemma ReturnInv(c: Config, s: State, t: nat)
    requires Inv(c, s) && s.At(t).Answered?
    ensures Inv(c, Apply(c, s, t, DoUnlock))
  {
    var s', ph := Apply(c, s, t, DoUnlock), s.At(t);
    var m, j := Return(t, ph.id, ph.at, ph.answer), c.Index(ph.op.key);
    assert Tracked(s, t);
    assert HoldsShared(c, ph, j) || HoldsAlone(c, ph, j);
    ChangeLock(c, s, s', t, j);
    ReplaySnoc(s.history, m);
    LegalSnoc(s.history, m);
    WellTimedSnoc(s.history, m);
    forall u: nat
      ensures Relies(c, s', u) && Tracked(s', u)
    {
      if u != t {
        assert Relies(c, s, u) && Tracked(s, u);
        TrackedSnoc(s, m, u, s');
      }
    }
  }

  /** An operation takes effect with the sequential map's answer and effect. */
  lemma EffectInv(c: Config, s: State, t: nat, shard: Model, answer: Answer)
    requires Inv(c, s) && (s.At(t).Held? || s.At(t).Viewed? || s.At(t).Checked?)
    requires var op := s.At(t).op; var i := c.Index(op.key);
      && answer == Reply(s.shards[i], op) && shard == After(s.shards[i], op)
    ensures Inv(c, Effect(c, s, t, shard, answer))
  {
    var s', ph := Effect(c, s, t, shard, answer), s.At(t);
    var m, i := Act(ph.id, ph.op, answer), c.Index(ph.op.key);
    assert Tracked(s, t) && Relies(c, s, t);
    SameLocks(c, s, s', t);
    EffectTogether(c, s, t, shard, answer);
    LegalSnoc(s.history, m);
    WellTimedSnoc(s.history, m);
    forall u: nat
      ensures Relies(c, s', u) && Tracked(s', u)
    {
      if u != t {
        assert Relies(c, s, u) && Tracked(s, u);
        TrackedSnoc(s, m, u, s');
        assert HoldsAlone(c, ph, i) || ph.op.Get?;
        OthersRely(c, s, s', t, u, i);
      } else {
        TrackedEffect(s, ph, answer, t, s');
      }
    }
  }

  lemma TrackedEffect(s: State, ph: Phase, answer: Answer, t: nat, s': State)
    requires Tracked(s, t) && ph == s.At(t) && (ph.Held? || ph.Viewed? || ph.Checked?)
    requires s'.history == s.history + [Act(ph.id, ph.op, answer)]
    requires s'.At(t) == Answered(ph.id, ph.op, answer, |s.history|)
    ensures Tracked(s', t)
  {
    assert forall p :: 0 <= p < |s.history| ==> s'.history[p] == s.history[p];
  }

  lemma EffectTogether(c: Config, s: State, t: nat, shard: Model, answer: Answer)
    requires Inv(c, s) && (s.At(t).Held? || s.At(t).Viewed? || s.At(t).Checked?)
    requires var op := s.At(t).op; var i := c.Index(op.key);
      && answer == Reply(s.shards[i], op) && shard == After(s.shards[i], op)
    ensures Together(c, Effect(c, s, t, shard, answer))
    ensures answer == Reply(Replay(s.history), s.At(t).op)
  {
    var s', ph := Effect(c, s, t, shard, answer), s.At(t);
    ReplaySnoc(s.history, Act(ph.id, ph.op, answer));
    assert s'.history == s.history + [Act(ph.id, ph.op, answer)];
    var k, r, r' := ph.op.key, Replay(s.history), Replay(s'.history);
    assert k in r <==> k in s.shards[c.Index(k)];
    forall x: Key
      ensures x in r' <==> x in s'.shards[c.Index(x)]
      ensures x in r' ==> r'[x] == s'.shards[c.Index(x)][x]
    {
      assert x in r <==> x in s.shards[c.Index(x)];
      assert x != k ==> (x in r' <==> x in r) && (x in shard <==> x in s.shards[c.Index(k)]);
    }
  }

  lemma WorkInv(c: Config, s: State, t: nat)
    requires Inv(c, s) && Enabled(c, s, t, DoWork)
    ensures Inv(c, Apply(c, s, t, DoWork))
  {
    var s', ph := Apply(c, s, t, DoWork), s.At(t);
    var k := ph.op.key;
    var shard := s.shards[c.Index(k)];
    assert Relies(c, s, t) && Tracked(s, t);
    if s'.At(t).Viewed? || s'.At(t).Checked? {
      SameLocks(c, s, s', t);
      QuietInv(c, s, s', t);
    } else {
      EffectInv(c, s, t, After(shard, ph.op), Reply(shard, ph.op));
    }
  }

  lemma StepInv(c: Config, s: State, t: nat, a: Step)
    requires Inv(c, s) && Enabled(c, s, t, a)
    ensures Inv(c, Apply(c, s, t, a))
  {
    match a
    case DoCall(op) => CallInv(c, s, t, op);
    case DoKeys => KeysInv(c, s, t, a);
    case DoLock => LockInv(c, s, t);
    case DoWork => WorkInv(c, s, t);
    case DoUnlock => if s.At(t).Answered? { ReturnInv(c, s, t); } else { UnlockListingInv(c, s, t); }
    case DoList(_) => KeysInv(c, s, t, a);
  }

  lemma InitInv(c: Config, s: State)
    requires Init(c, s)
    ensures Inv(c, s)
  {}

  /** Every state of every run satisfies the invariant. */
  lemma {:induction false} RunInv(c: Config, tr: seq<State>, m: nat)
    requires Run(c, tr) && m < |tr|
    ensures Inv(c, tr[m])
  {
    if m == 0 {
      InitInv(c, tr[0]);
    } else {
      RunInv(c, tr, m - 1);
      assert Next(c, tr[m - 1], tr[m - 1 + 1]);
      var t, a :| Sized(c, tr[m - 1]) && Enabled(c, tr[m - 1], t, a) && tr[m] == Apply(c, tr[m - 1], t, a);
      StepInv(c, tr[m - 1], t, a);
    }
  }

  // ------------------------------------------------------------------------ progress

  /** A thread in the middle of an operation can take a step. */
  ghost predicate CanMove(c: Config, s: State, t: nat)
    requires Sized(c, s)
  {
    !s.At(t).Idle? && exists a: Step :: Enabled(c, s, t, a)
  }

  /** set has found its key missing and looks for room for a record larger than a bucket. */
  predicate Stuck(c: Config, s: State, t: nat) {
    s.At(t).Checked? && !c.Storable(s.At(t).op)
  }

  /** The shard whose lock a thread is about to take, if it is. */
  function Wanted(c: Config, ph: Phase): Option<nat>
    requires c.shards >= 1
  {
    if ph.Called? then Some(c.Index(ph.op.key))
    else if ph.Between? && ph.next < c.shards then Some(ph.next)
    else None
  }

  ghost predicate Holds(c: Config, s: State, t: nat, i: nat)
    requires c.shards >= 1
  {
    HoldsShared(c, s.At(t), i) || HoldsAlone(c, s.At(t), i)
  }

  /** A thread that holds a lock can move, unless it is stuck. */
  lemma HolderMoves(c: Config, s: State, u: nat, i: nat)
    requires Inv(c, s) && i < c.shards && Holds(c, s, u, i)
    ensures CanMove(c, s, u) <==> !Stuck(c, s, u)
  {
    assert Relies(c, s, u);
    var ph := s.At(u);
    if ph.Listing? {
      if ph.listed == s.shards[ph.shard].Keys {
        assert Enabled(c, s, u, DoUnlock);
      } else {
        var k :| k in s.shards[ph.shard].Keys && k !in ph.listed;
        assert Enabled(c, s, u, DoList(k));
      }
    } else if ph.Answered? {
      assert Enabled(c, s, u, DoUnlock);
    } else if !Stuck(c, s, u) {
      assert Enabled(c, s, u, DoWork);
    }
  }

  /** A thread that wants a lock and cannot take it waits for one that holds it. */
  lemma WaitsForHolder(c: Config, s: State, t: nat, i: nat) returns (u: nat)
    requires Inv(c, s) && Wanted(c, s.At(t)) == Some(i) && !Enabled(c, s, t, DoLock)
    ensures Holds(c, s, u, i)
  {
    var lock := s.locks[i];
    if lock.writer.Some? {
      u := lock.writer.value;
      assert HoldsAlone(c, s.At(u), i);
    } else {
      u :| u in lock.readers;
      assert HoldsShared(c, s.At(u), i);
    }
  }

  /** Readers share, writers exclude: a get can take its lock unless a thread holds it alone, a set or a
      remove unless any thread holds it. */
  lemma LockRule(c: Config, tr: seq<State>, m: nat, t: nat)
    requires Run(c, tr) && m < |tr| && tr[m].At(t).Called?
    ensures Sized(c, tr[m])
    ensures var op, i := tr[m].At(t).op, c.Index(tr[m].At(t).op.key);
      Enabled(c, tr[m], t, DoLock) <==>
        forall u: nat :: !HoldsAlone(c, tr[m].At(u), i) && (op.Get? || !HoldsShared(c, tr[m].At(u), i))
  {
    RunInv(c, tr, m);
    var s, op, i := tr[m], tr[m].At(t).op, c.Index(tr[m].At(t).op.key);
    if !Enabled(c, s, t, DoLock) {
      if s.locks[i].writer.Some? {
        assert HoldsAlone(c, s.At(s.locks[i].writer.value), i);
      } else {
        var u :| u in s.locks[i].readers;
        assert HoldsShared(c, s.At(u), i);
      }
    }
  }

  /** Two keys share a shard exactly when the number of shards divides the difference of their hashes. */
  lemma SameShard(c: Config, k: Key, l: Key)
    requires c.shards >= 1
    ensures c.Index(k) == c.Index(l) <==> (c.hash(k) - c.hash(l)) % c.shards == 0
  {
    var a, b, n := c.hash(k), c.hash(l), c.shards;
    var q, r := a / n, b / n;
    DifferenceMod(a, b, n, q, r, a % n, b % n);
  }

  lemma DifferenceMod(a: int, b: int, n: int, q: int, r: int, x: int, y: int)
    requires n > 0 && a == q * n + x && b == r * n + y && 0 <= x < n && 0 <= y < n
    ensures (a - b) % n == 0 <==> x == y
  {
    assert q * n - r * n == (q - r) * n;
    if x >= y {
      QuotientUnique(a - b, n, q - r, x - y);
    } else {
      assert (q - r - 1) * n == (q - r) * n - n;
      QuotientUnique(a - b, n, q - r - 1, n + x - y);
    }
  }

  /** No deadlock: in every state of every run, a thread in the middle of an operation can move, or it is
      stuck, or it waits for a thread that can move or is stuck. */
  lemma Progress(c: Config, tr: seq<State>, m: nat, t: nat)
    requires Run(c, tr) && m < |tr| && !tr[m].At(t).Idle?
    ensures Sized(c, tr[m])
    ensures CanMove(c, tr[m], t) || Stuck(c, tr[m], t)
      || exists u: nat, i: nat {:trigger Holds(c, tr[m], u, i)} ::
           i < c.shards && Wanted(c, tr[m].At(t)) == Some(i) && Holds(c, tr[m], u, i)
           && (CanMove(c, tr[m], u) || Stuck(c, tr[m], u))
  {
    RunInv(c, tr, m);
    var s, ph := tr[m], tr[m].At(t);
    assert Relies(c, s, t);
    if ph.Called? || (ph.Between? && ph.next < c.shards) {
      var i := Wanted(c, ph).value;
      if Enabled(c, s, t, DoLock) {
        assert CanMove(c, s, t);
      } else {
        var u := WaitsForHolder(c, s, t, i);
        HolderMoves(c, s, u, i);
      }
    } else if ph.Between? {
      assert Enabled(c, s, t, DoKeys);
    } else {
      var i := if ph.Listing? then ph.shard else c.Index(ph.op.key);
      assert Holds(c, s, t, i);
      HolderMoves(c, s, t, i);
    }
  }

  /** As long as no thread is stuck, some thread in the middle of an operation can move. */
  lemma NoDeadlock(c: Config, tr: seq<State>, m: nat, t: nat) returns (u: nat)
    requires Run(c, tr) && m < |tr| && !tr[m].At(t).Idle? && forall v: nat :: !Stuck(c, tr[m], v)
    ensures Sized(c, tr[m]) && CanMove(c, tr[m], u)
  {
    Progress(c, tr, m, t);
    if CanMove(c, tr[m], t) {
      u := t;
    } else {
      var v: nat, i: nat :|
        i < c.shards && Holds(c, tr[m], v, i) && (CanMove(c, tr[m], v) || Stuck(c, tr[m], v));
      u := v;
    }
  }

  /** The states that one thread passes through when it runs an operation on its own. */
  ghost predicate Steps(c: Config, tr: seq<State>) {
    |tr| > 0 && forall m :: 0 <= m < |tr| - 1 ==> Next(c, tr[m], tr[m + 1])
  }

  lemma OneStep(c: Config, tr: seq<State>, t: nat, a: Step) returns (tr': seq<State>)
    requires Steps(c, tr) && Sized(c, tr[|tr| - 1]) && Enabled(c, tr[|tr| - 1], t, a)
    ensures Steps(c, tr') && tr'[0] == tr[0] && tr'[|tr'| - 1] == Apply(c, tr[|tr| - 1], t, a)
  {
    var last := tr[|tr| - 1];
    tr' := tr + [Apply(c, last, t, a)];
    assert Next(c, last, Apply(c, last, t, a));
    forall m | 0 <= m < |tr'| - 1
      ensures Next(c, tr'[m], tr'[m + 1])
    {
      if m < |tr| - 1 { assert Next(c, tr[m], tr[m + 1]); }
    }
  }

  /** In every state that a run can reach, an idle thread that finds its lock free can run any operation whose
      record fits to its end, and gets the sequential map's answer. */
  lemma Solo(c: Config, s: State, t: nat, op: Op) returns (tr: seq<State>)
    requires Inv(c, s) && s.At(t).Idle? && Free(s.locks[c.Index(op.key)], op.Shared()) && c.Storable(op)
    ensures Steps(c, tr) && tr[0] == s
    ensures var h := tr[|tr| - 1].history;
      && tr[|tr| - 1].At(t).Idle? && |h| > |s.history| && h[|s.history|] == Call(t, op)
      && h[|h| - 1].Return? && h[|h| - 1].caller == t && h[|h| - 1].id == |s.history|
      && h[|h| - 1].answer == Reply(Replay(s.history), op)
  {
    tr := OneStep(c, [s], t, DoCall(op));
    StepInv(c, s, t, DoCall(op));
    var s1 := tr[|tr| - 1];
    ReplaySnoc(s.history, Call(t, op));
    tr := OneStep(c, tr, t, DoLock);
    StepInv(c, s1, t, DoLock);
    var s2 := tr[|tr| - 1];
    tr := SoloWork(c, tr, t, op);
    var s3 := tr[|tr| - 1];
    tr := OneStep(c, tr, t, DoUnlock);
  }

  /** The steps under the lock. */
  lemma SoloWork(c: Config, tr: seq<State>, t: nat, op: Op) returns (tr': seq<State>)
    requires Steps(c, tr) && Inv(c, tr[|tr| - 1]) && tr[|tr| - 1].At(t).Held? && tr[|tr| - 1].At(t).op == op
    requires c.Storable(op)
    ensures Steps(c, tr') && tr'[0] == tr[0] && Sized(c, tr'[|tr'| - 1])
    ensures var s, s' := tr[|tr| - 1], tr'[|tr'| - 1];
      && s'.At(t).Answered? && s'.At(t).id == s.At(t).id && s'.At(t).answer == Reply(Replay(s.history), op)
      && |s'.history| == |s.history| + 1 && s'.history[..|s.history|] == s.history
  {
    var s := tr[|tr| - 1];
    tr' := OneStep(c, tr, t, DoWork);
    StepInv(c, s, t, DoWork);
    WorkAnswers(c, s, t);
    var s1 := tr'[|tr'| - 1];
    if !s1.At(t).Answered? {
      tr' := OneStep(c, tr', t, DoWork);
      WorkAnswers(c, s1, t);
      WorkSized(c, s1, t);
    }
  }

  lemma WorkSized(c: Config, s: State, t: nat)
    requires Sized(c, s) && Enabled(c, s, t, DoWork)
    ensures Sized(c, Apply(c, s, t, DoWork))
  {}

  /** A step under the lock answers like the sequential map, or prepares for one that does. */
  lemma WorkAnswers(c: Config, s: State, t: nat)
    requires Inv(c, s) && Enabled(c, s, t, DoWork)
    ensures var ph, s' := s.At(t), Apply(c, s, t, DoWork);
      if s'.At(t).Answered? then
        && s'.At(t).id == ph.id && s'.At(t).answer == Reply(Replay(s.history), ph.op)
        && |s'.history| == |s.history| + 1 && s'.history[..|s.history|] == s.history
      else
        && ph.Held? && (s'.At(t).Viewed? || s'.At(t).Checked?) && s'.At(t).id == ph.id && s'.At(t).op == ph.op
        && s'.history == s.history
  {
    var ph, s' := s.At(t), Apply(c, s, t, DoWork);
    assert Relies(c, s, t) && Tracked(s, t);
    var shard := s.shards[c.Index(ph.op.key)];
    if s'.At(t).Answered? {
      EffectTogether(c, s, t, After(shard, ph.op), Reply(shard, ph.op));
      assert s'.At(t).answer == Reply(shard, ph.op);
      assert s'.history == s.history + [s'.history[|s.history|]];
    }
  }

  /** A thread that is stuck does not take part in any step, and stays as it is. */
  lemma StuckStays(c: Config, s: State, s': State, t: nat)
    requires Next(c, s, s') && Stuck(c, s, t)
    ensures s'.At(t) == s.At(t)
  {
    var u, a :| Sized(c, s) && Enabled(c, s, u, a) && s' == Apply(c, s, u, a);
    assert u != t;
  }

  lemma {:induction false} StuckSame(c: Config, tr: seq<State>, m: nat, n: nat, t: nat)
    requires Run(c, tr) && m <= n < |tr| && Stuck(c, tr[m], t)
    ensures tr[n].At(t) == tr[m].At(t)
    decreases n
  {
    if n > m {
      StuckSame(c, tr, m, n - 1, t);
      assert Next(c, tr[n - 1], tr[n - 1 + 1]);
      StuckStays(c, tr[n - 1], tr[n], t);
    }
  }

  /** It stays so for the rest of the run, and no other thread ever gets the lock of its shard. */
  lemma StuckForever(c: Config, tr: seq<State>, m: nat, n: nat, t: nat)
    requires Run(c, tr) && m <= n < |tr| && Stuck(c, tr[m], t)
    ensures Sized(c, tr[n]) && Stuck(c, tr[n], t) && tr[n].At(t) == tr[m].At(t)
    ensures forall u: nat :: Wanted(c, tr[n].At(u)) == Some(c.Index(tr[m].At(t).op.key)) ==>
      !Enabled(c, tr[n], u, DoLock)
  {
    StuckSame(c, tr, m, n, t);
    RunInv(c, tr, n);
    LockedOut(c, tr[n], t);
  }

  lemma LockedOut(c: Config, s: State, t: nat)
    requires Inv(c, s) && Stuck(c, s, t)
    ensures forall u: nat :: Wanted(c, s.At(u)) == Some(c.Index(s.At(t).op.key)) ==> !Enabled(c, s, u, DoLock)
  {
    assert Relies(c, s, t);
    var i := c.Index(s.At(t).op.key);
    assert HoldsAlone(c, s.At(t), i);
    assert s.locks[i].writer == Some(t);
  }

  // --------------------------------------------------------------------- linearizability

  /** Operations that returned before another was called also took effect before it. */
  ghost predicate RealTime(h: seq<Mark>) {
    forall r, q :: 0 <= r < |h| && 0 <= q < |h| && h[r].Return? && h[q].Act? && r < h[q].id ==> h[r].at < q
  }

  /** In every run the operations, in the order in which they take effect under their locks, are a legal
      history of one sequential map, which the shards together always are; every operation takes effect
      once, between its call and its return, and returns that answer. */
  lemma Linearizable(c: Config, tr: seq<State>, m: nat)
    requires Run(c, tr) && m < |tr|
    ensures Legal(tr[m].history) && WellTimed(tr[m].history) && RealTime(tr[m].history)
    ensures Sized(c, tr[m]) && Together(c, tr[m])
  {
    RunInv(c, tr, m);
  }

  function Count(h: seq<Mark>, k: Key): int {
    if h == [] then 0
    else
      var last := h[|h| - 1];
      Count(h[..|h| - 1], k) +
      if last.Act? && last.actOp.key == k && last.answer == Done(true) then
        (if last.actOp.Set? then 1 else if last.actOp.Remove? then -1 else 0)
      else 0
  }

  /** Successful sets of a key minus successful removes: one while the key is present, else zero. */
  lemma {:induction false} Balance(h: seq<Mark>, k: Key)
    requires Legal(h)
    ensures Count(h, k) == if k in Replay(h) then 1 else 0
  {
    if h != [] {
      var g, last := h[..|h| - 1], h[|h| - 1];
      assert forall p :: 0 <= p < |g| ==> g[p] == h[p] && g[..p] == h[..p];
      Balance(g, k);
      assert last.Act? ==> last.answer == Reply(Replay(h[..|h| - 1]), last.actOp);
    }
  }

  lemma BalanceInRuns(c: Config, tr: seq<State>, m: nat, k: Key)
    requires Run(c, tr) && m < |tr|
    ensures Sized(c, tr[m]) && Count(tr[m].history, k) == if k in tr[m].shards[c.Index(k)] then 1 else 0
  {
    RunInv(c, tr, m);
    Balance(tr[m].history, k);
  }

  // ------------------------------------------------------ what the answers mean

  /** A set that succeeded, and a remove that did. */
  predicate Stored(m: Mark, k: Key) {
    m.Act? && m.actOp.Set? && m.actOp.key == k && m.answer == Done(true)
  }

  predicate Erased(m: Mark, k: Key) {
    m.Act? && m.actOp.Remove? && m.actOp.key == k && m.answer == Done(true)
  }

  /** Mark q is the last successful set of a key before mark p, and no successful remove came after it. */
  ghost predicate Live(h: seq<Mark>, p: nat, k: Key, q: nat) {
    && q < p <= |h| && Stored(h[q], k)
    && forall r :: q < r < p ==> !Stored(h[r], k) && !Erased(h[r], k)
  }

  /** The sequential map before mark p, told by the marks alone. */
  lemma {:induction false} LastSet(h: seq<Mark>, p: nat, k: Key)
    requires Legal(h) && p <= |h|
    ensures k in Replay(h[..p]) <==> exists q: nat :: Live(h, p, k, q)
    ensures forall q: nat :: Live(h, p, k, q) ==> k in Replay(h[..p]) && Replay(h[..p])[k] == h[q].actOp.value
  {
    if p == 0 {
      assert h[..0] == [];
    } else {
      var j := p - 1;
      LastSet(h, j, k);
      assert h[..p] == h[..j] + [h[j]];
      ReplaySnoc(h[..j], h[j]);
      LiveStep(h, p, j, k);
      assert Stored(h[j], k) ==> Live(h, p, k, j);
    }
  }

  lemma LiveStep(h: seq<Mark>, p: nat, j: nat, k: Key)
    requires j < |h| && p == j + 1
    ensures Stored(h[j], k) ==> forall q: nat :: Live(h, p, k, q) <==> q == j
    ensures Erased(h[j], k) ==> forall q: nat :: !Live(h, p, k, q)
    ensures !Stored(h[j], k) && !Erased(h[j], k) ==> forall q: nat :: Live(h, p, k, q) <==> Live(h, j, k, q)
  {}

  /** Every answer, told by the marks alone: get gives the value of the live set, set succeeds exactly if
      there is none, remove exactly if there is one. */
  lemma AnswerLaw(h: seq<Mark>, p: nat)
    requires Legal(h) && p < |h| && h[p].Act?
    ensures var k, answer := h[p].actOp.key, h[p].answer;
      match h[p].actOp
      case Get(_) =>
        && (forall q: nat :: Live(h, p, k, q) ==> answer == Found(Some(h[q].actOp.value)))
        && (answer == Found(None) <==> forall q: nat :: !Live(h, p, k, q))
      case Set(_, _) => answer == Done(forall q: nat :: !Live(h, p, k, q))
      case Remove(_) => answer == Done(exists q: nat :: Live(h, p, k, q))
  {
    LastSet(h, p, h[p].actOp.key);
  }

  /** So in every run every operation returns that answer. */
  lemma ReturnLaw(c: Config, tr: seq<State>, m: nat, r: nat)
    requires Run(c, tr) && m < |tr| && r < |tr[m].history| && tr[m].history[r].Return?
    ensures var h := tr[m].history; var ret := h[r];
      && ret.at < r && ret.id < ret.at && h[ret.id].Call? && h[ret.id].thread == ret.caller
      && h[ret.at].Act? && h[ret.at].actOp == h[ret.id].op && h[ret.at].answer == ret.answer
      && match h[ret.id].op
         case Get(k) =>
           && (forall q: nat :: Live(h, ret.at, k, q) ==> ret.answer == Found(Some(h[q].actOp.value)))
           && (ret.answer == Found(None) <==> forall q: nat :: !Live(h, ret.at, k, q))
         case Set(k, _) => ret.answer == Done(forall q: nat :: !Live(h, ret.at, k, q))
         case Remove(k) => ret.answer == Done(exists q: nat :: Live(h, ret.at, k, q))
  {
    Linearizable(c, tr, m);
    var h := tr[m].history;
    assert ReturnsAt(h, r);
    AnswerLaw(h, h[r].at);
  }

  // -------------------------------------------------------------------------------- keys()

  ghost predicate Present(c: Config, s: State, k: Key) {
    Sized(c, s) && k in s.shards[c.Index(k)]
  }

  /** Thread t is in the same call of keys() from just after state a up to state m. */
  ghost predicate Calling(c: Config, tr: seq<State>, t: nat, a: nat, m: nat) {
    && a < m < |tr| && tr[a].At(t).Idle?
    && forall j :: a < j <= m ==> tr[j].At(t).Between? || tr[j].At(t).Listing?
  }

  function Visited(ph: Phase): nat
    requires ph.Between? || ph.Listing?
  {
    if ph.Between? then ph.next else ph.shard
  }

  function ListedHere(ph: Phase): set<Key>
    requires ph.Between? || ph.Listing?
  {
    if ph.Between? then {} else ph.listed
  }

  ghost predicate AlwaysPresent(c: Config, tr: seq<State>, a: nat, m: nat, k: Key)
    requires m < |tr|
  {
    forall j :: a < j <= m ==> Present(c, tr[j], k)
  }

  ghost predicate OncePresent(c: Config, tr: seq<State>, a: nat, m: nat, k: Key)
    requires m < |tr|
  {
    exists j :: a < j <= m && Present(c, tr[j], k)
  }

  predicate NoRepeats(out: seq<Key>) {
    forall i, j :: 0 <= i < j < |out| ==> out[i] != out[j]
  }

  /** What the keys collected so far are. */
  ghost predicate Collected(c: Config, tr: seq<State>, t: nat, a: nat, m: nat)
    requires c.shards >= 1 && m < |tr| && (tr[m].At(t).Between? || tr[m].At(t).Listing?)
  {
    var ph := tr[m].At(t);
    && NoRepeats(ph.out)
    && (forall x :: x in ph.out ==> c.Index(x) < Visited(ph) || (c.Index(x) == Visited(ph) && x in ListedHere(ph)))
    && (forall x :: x in ListedHere(ph) ==> x in ph.out)
    && (forall x :: AlwaysPresent(c, tr, a, m, x) && c.Index(x) < Visited(ph) ==> x in ph.out)
    && (forall x :: x in ph.out ==> OncePresent(c, tr, a, m, x))
  }

  /** Thread t itself lists one more key of the shard it holds. */
  lemma CollectList(c: Config, tr: seq<State>, t: nat, a: nat, m: nat, k: Key)
    requires Calling(c, tr, t, a, m + 1) && a < m && Inv(c, tr[m]) && Collected(c, tr, t, a, m)
    requires Enabled(c, tr[m], t, DoList(k)) && tr[m + 1] == Apply(c, tr[m], t, DoList(k))
    ensures Collected(c, tr, t, a, m + 1)
  {
    var ph, ph' := tr[m].At(t), tr[m + 1].At(t);
    assert c.Index(k) == ph.shard && k !in ph.out && Present(c, tr[m], k);
    assert ph'.out == ph.out + [k] && ph'.listed == ph.listed + {k} && Visited(ph') == Visited(ph);
    CollectAlways(c, tr, a, m);
    ListedOnce(c, tr, a, m, k);
    NoRepeatsAppend(ph.out, k);
    forall x | x in ph'.out
      ensures OncePresent(c, tr, a, m + 1, x)
    {
      if x != k { assert OncePresent(c, tr, a, m, x); }
    }
  }

  lemma NoRepeatsAppend(out: seq<Key>, k: Key)
    requires NoRepeats(out) && k !in out
    ensures NoRepeats(out + [k])
    ensures forall x :: x in out + [k] <==> x in out || x == k
  {}

  lemma ListedOnce(c: Config, tr: seq<State>, a: nat, m: nat, k: Key)
    requires c.shards >= 1 && a < m && m + 1 < |tr| && Present(c, tr[m], k)
    ensures OncePresent(c, tr, a, m + 1, k)
  {
    assert a < m <= m + 1 && Present(c, tr[m], k);
  }

  /** Or it has listed all keys of the shard and goes on to the next. */
  lemma CollectUnlock(c: Config, tr: seq<State>, t: nat, a: nat, m: nat)
    requires Calling(c, tr, t, a, m + 1) && a < m && Inv(c, tr[m]) && Collected(c, tr, t, a, m)
    requires Enabled(c, tr[m], t, DoUnlock) && tr[m + 1] == Apply(c, tr[m], t, DoUnlock)
    ensures Collected(c, tr, t, a, m + 1)
  {
    var s, ph, ph' := tr[m], tr[m].At(t), tr[m + 1].At(t);
    CollectAlways(c, tr, a, m);
    forall x | AlwaysPresent(c, tr, a, m + 1, x) && c.Index(x) < Visited(ph')
      ensures x in ph'.out
    {
      assert AlwaysPresent(c, tr, a, m, x) && Present(c, tr[m], x);
      if c.Index(x) == ph.shard { assert x in s.shards[ph.shard].Keys; }
    }
  }

  lemma CollectOwn(c: Config, tr: seq<State>, t: nat, a: nat, m: nat, st: Step)
    requires Calling(c, tr, t, a, m + 1) && a < m && Inv(c, tr[m]) && Collected(c, tr, t, a, m)
    requires Enabled(c, tr[m], t, st) && tr[m + 1] == Apply(c, tr[m], t, st)
    ensures Collected(c, tr, t, a, m + 1)
  {
    match st
    case DoList(k) => CollectList(c, tr, t, a, m, k);
    case DoUnlock => CollectUnlock(c, tr, t, a, m);
    case _ => CollectAlways(c, tr, a, m);
  }

  /** More states: fewer keys are present in all of them, more in one of them. */
  lemma CollectAlways(c: Config, tr: seq<State>, a: nat, m: nat)
    requires a < m && m + 1 < |tr|
    ensures forall x :: AlwaysPresent(c, tr, a, m + 1, x) ==> AlwaysPresent(c, tr, a, m, x)
    ensures forall x :: OncePresent(c, tr, a, m, x) ==> OncePresent(c, tr, a, m + 1, x)
  {
    forall x | OncePresent(c, tr, a, m, x)
      ensures OncePresent(c, tr, a, m + 1, x)
    {
      var j :| a < j <= m && Present(c, tr[j], x);
    }
  }

  /** Steps of other threads. */
  lemma CollectOther(c: Config, tr: seq<State>, t: nat, a: nat, m: nat)
    requires Calling(c, tr, t, a, m + 1) && a < m && c.shards >= 1 && Collected(c, tr, t, a, m)
    requires tr[m + 1].At(t) == tr[m].At(t)
    ensures Collected(c, tr, t, a, m + 1)
  {
    CollectAlways(c, tr, a, m);
  }

  lemma CollectStep(c: Config, tr: seq<State>, t: nat, a: nat, m: nat)
    requires Calling(c, tr, t, a, m + 1) && a < m && Inv(c, tr[m]) && Collected(c, tr, t, a, m)
    requires Next(c, tr[m], tr[m + 1])
    ensures Collected(c, tr, t, a, m + 1)
  {
    var u, st :| Enabled(c, tr[m], u, st) && tr[m + 1] == Apply(c, tr[m], u, st);
    if u == t {
      CollectOwn(c, tr, t, a, m, st);
    } else {
      CollectOther(c, tr, t, a, m);
    }
  }

  /** A call begins with nothing listed and no shard visited. */
  lemma CollectFirst(c: Config, s: State, s': State, t: nat)
    requires Next(c, s, s') && s.At(t).Idle? && (s'.At(t).Between? || s'.At(t).Listing?)
    ensures s'.At(t) == Between(0, [])
  {
    var u, st :| Sized(c, s) && Enabled(c, s, u, st) && s' == Apply(c, s, u, st);
    OthersStand(c, s, u, st, t);
  }

  lemma OthersStand(c: Config, s: State, u: nat, st: Step, t: nat)
    requires Sized(c, s) && Enabled(c, s, u, st)
    ensures u != t ==> Apply(c, s, u, st).At(t) == s.At(t)
  {}

  lemma CollectBase(c: Config, tr: seq<State>, t: nat, a: nat)
    requires Run(c, tr) && Calling(c, tr, t, a, a + 1)
    ensures c.shards >= 1 && Collected(c, tr, t, a, a + 1)
  {
    assert Next(c, tr[a], tr[a + 1]);
    CollectFirst(c, tr[a], tr[a + 1], t);
  }

  /** It ends when all shards have been visited. */
  lemma CollectLast(c: Config, s: State, s': State, t: nat)
    requires Next(c, s, s') && (s.At(t).Between? || s.At(t).Listing?) && s'.At(t).Idle?
    ensures s.At(t).Between? && s.At(t).next == c.shards
  {
    var u, st :| Sized(c, s) && Enabled(c, s, u, st) && s' == Apply(c, s, u, st);
    OthersStand(c, s, u, st, t);
  }

  lemma {:induction false} CollectInv(c: Config, tr: seq<State>, t: nat, a: nat, m: nat)
    requires Run(c, tr) && Calling(c, tr, t, a, m)
    ensures c.shards >= 1 && Collected(c, tr, t, a, m)
    decreases m
  {
    if m > a + 1 {
      var j := m - 1;
      CollectInv(c, tr, t, a, j);
      RunInv(c, tr, j);
      assert Next(c, tr[j], tr[j + 1]);
      CollectStep(c, tr, t, a, j);
    } else {
      CollectBase(c, tr, t, a);
    }
  }

  /** keys() locks one shard after the other, yet what it returns has no key twice, every key that was
      present throughout the call, and no key that was absent throughout it. */
  lemma KeysResult(c: Config, tr: seq<State>, t: nat, a: nat, m: nat)
    requires Run(c, tr) && Calling(c, tr, t, a, m) && m + 1 < |tr| && tr[m + 1].At(t).Idle?
    ensures tr[m].At(t).Between?
    ensures var out := tr[m].At(t).out;
      && NoRepeats(out)
      && (forall x :: AlwaysPresent(c, tr, a, m, x) ==> x in out)
      && (forall x :: x in out ==> OncePresent(c, tr, a, m, x))
  {
    CollectInv(c, tr, t, a, m);
    assert Next(c, tr[m], tr[m + 1]);
    CollectLast(c, tr[m], tr[m + 1], t);
    RunInv(c, tr, m);
  }
}
