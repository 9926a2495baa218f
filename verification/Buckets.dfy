/** The bucket file as a value: packed buckets, the chains that link them and the free list. */
module Buckets {
  import opened Bits
  import opened Records

  /** The end-of-list mark, size_t(-1) in the file: no bucket has this id. */
  const INVALID: int := -1

  datatype Bucket = Bucket(prefixBits: nat, bytesUsed: nat, next: int, data: seq<byte>)

  /** The used bytes of `b` are exactly the records `rs`. */
  predicate Holds(b: Bucket, rs: seq<Record>) {
    |b.data| == BUCKET_SIZE && b.bytesUsed <= BUCKET_SIZE && b.data[..b.bytesUsed] == EncodeAll(rs)
  }

  predicate Filled(bs: seq<Bucket>, recs: seq<seq<Record>>) {
    |recs| == |bs| && forall b :: 0 <= b < |bs| ==> Holds(bs[b], recs[b])
  }

  // ---------------------------------------------------------------- linkage

  /** How the bucket ids are arranged: one chain per head, in link order; the free list with its
      top last; and for each id the list it is on (its head, or INVALID when free) and its place. */
  datatype Shape = Shape(chains: map<int, seq<nat>>, free: seq<nat>, owner: seq<int>, pos: seq<nat>)

  /** Chains begin with their head and hold only ids below `n`. */
  ghost predicate InRange(n: nat, s: Shape) {
    && |s.owner| == n && |s.pos| == n
    && (forall h :: h in s.chains ==> |s.chains[h]| > 0 && s.chains[h][0] == h)
    && (forall h, i :: h in s.chains && 0 <= i < |s.chains[h]| ==> s.chains[h][i] < n)
  }

  /** Every id below `n` is on exactly one list, at exactly one place. */
  ghost predicate Partition(n: nat, s: Shape) {
    && InRange(n, s)
    && (forall h, i :: h in s.chains && 0 <= i < |s.chains[h]| ==>
          s.chains[h][i] < n && s.owner[s.chains[h][i]] == h && s.pos[s.chains[h][i]] == i)
    && (forall i :: 0 <= i < |s.free| ==>
          s.free[i] < n && s.owner[s.free[i]] == INVALID && s.pos[s.free[i]] == i)
    && (forall b :: 0 <= b < n ==>
          if s.owner[b] == INVALID then s.pos[b] < |s.free| && s.free[s.pos[b]] == b
          else s.owner[b] in s.chains && s.pos[b] < |s.chains[s.owner[b]]| && s.chains[s.owner[b]][s.pos[b]] == b)
  }

  /** The id that follows `b` on its list. */
  ghost function NextOf(n: nat, s: Shape, b: nat): int
    requires Partition(n, s) && b < n
  {
    if s.owner[b] == INVALID then if s.pos[b] == 0 then INVALID else s.free[s.pos[b] - 1]
    else if s.pos[b] + 1 < |s.chains[s.owner[b]]| then s.chains[s.owner[b]][s.pos[b] + 1] else INVALID
  }

  /** The stored links spell out those lists, each ending at INVALID. */
  ghost predicate Linked(bs: seq<Bucket>, firstFree: int, s: Shape)
    requires Partition(|bs|, s)
  {
    && (forall b :: 0 <= b < |bs| ==> bs[b].next == NextOf(|bs|, s, b))
    && firstFree == if s.free == [] then INVALID else s.free[|s.free| - 1]
  }

  ghost predicate Shaped(bs: seq<Bucket>, firstFree: int, s: Shape) {
    Partition(|bs|, s) && Linked(bs, firstFree, s)
  }

  predicate SameLinks(bs: seq<Bucket>, cs: seq<Bucket>) {
    |bs| == |cs| && forall b :: 0 <= b < |bs| ==> bs[b].next == cs[b].next
  }

  lemma ShapedSameLinks(bs: seq<Bucket>, cs: seq<Bucket>, firstFree: int, s: Shape)
    requires Shaped(bs, firstFree, s) && SameLinks(bs, cs)
    ensures Shaped(cs, firstFree, s)
  {}

  /** A bucket past the end of the file as its own one-bucket chain. */
  function Extended(s: Shape): Shape {
    var b := |s.owner|;
    Shape(s.chains[b := [b]], s.free, s.owner + [b], s.pos + [0])
  }

  lemma ExtendPartition(n: nat, s: Shape)
    requires Partition(n, s)
    ensures Partition(n + 1, Extended(s))
  {}

  lemma ExtendNext(n: nat, s: Shape, b: nat)
    requires Partition(n, s) && Partition(n + 1, Extended(s)) && b < n
    ensures NextOf(n + 1, Extended(s), b) == NextOf(n, s, b)
  {
    assert s.owner[b] != n;
  }

  lemma ExtendShaped(bs: seq<Bucket>, firstFree: int, s: Shape, nb: Bucket)
    requires Shaped(bs, firstFree, s) && nb.next == INVALID
    ensures Shaped(bs + [nb], firstFree, Extended(s))
  {
    var n, t := |bs|, Extended(s);
    ExtendPartition(n, s);
    forall b | 0 <= b < n + 1
      ensures (bs + [nb])[b].next == NextOf(n + 1, t, b)
    {
      if b < n { ExtendNext(n, s, b); }
    }
  }

  /** The top of the free list as its own one-bucket chain. */
  function Popped(s: Shape): Shape
    requires s.free != [] && s.free[|s.free| - 1] < |s.owner| == |s.pos|
  {
    var b := s.free[|s.free| - 1];
    Shape(s.chains[b := [b]], s.free[..|s.free| - 1], s.owner[b := b], s.pos[b := 0])
  }

  lemma PopPartition(n: nat, s: Shape)
    requires Partition(n, s) && s.free != []
    ensures Partition(n, Popped(s))
  {
    var b := s.free[|s.free| - 1];
    assert s.owner[b] == INVALID && s.pos[b] == |s.free| - 1;
  }

  lemma PopShaped(bs: seq<Bucket>, firstFree: int, s: Shape, nb: Bucket)
    requires Shaped(bs, firstFree, s) && s.free != [] && nb.next == INVALID
    ensures firstFree == s.free[|s.free| - 1] < |bs|
    ensures Shaped(bs[firstFree := nb], bs[firstFree].next, Popped(s))
  {
    var n, t := |bs|, Popped(s);
    PopPartition(n, s);
    forall b | 0 <= b < n
      ensures bs[firstFree := nb][b].next == NextOf(n, t, b)
    {
      if b != firstFree { assert NextOf(n, t, b) == NextOf(n, s, b); }
    }
  }

  /** The one-bucket chain `b` hung onto the end of chain `h`. */
  function Joined(s: Shape, h: int, b: nat): Shape
    requires h in s.chains && b < |s.owner| == |s.pos|
  {
    Shape((s.chains - {b})[h := s.chains[h] + [b]], s.free, s.owner[b := h], s.pos[b := |s.chains[h]|])
  }

  lemma JoinedPartition(n: nat, s: Shape, h: int, b: nat)
    requires Partition(n, s) && h in s.chains && b in s.chains && h != b && s.chains[b] == [b]
    ensures b < n && Partition(n, Joined(s, h, b))
  {
    assert s.chains[b][0] == b;
  }

  lemma JoinShaped(bs: seq<Bucket>, firstFree: int, s: Shape, h: int, b: nat)
    requires Shaped(bs, firstFree, s) && h in s.chains && b in s.chains && h != b && s.chains[b] == [b]
    ensures var last := s.chains[h][|s.chains[h]| - 1];
      last < |bs| && b < |bs| && Shaped(bs[last := bs[last].(next := b)], firstFree, Joined(s, h, b))
  {
    var n, last, t := |bs|, s.chains[h][|s.chains[h]| - 1], Joined(s, h, b);
    JoinedPartition(n, s, h, b);
    assert s.chains[b][0] == b;
    forall x | 0 <= x < n
      ensures bs[last := bs[last].(next := b)][x].next == NextOf(n, t, x)
    {
      JoinedNext(n, s, h, b, x);
    }
  }

  lemma JoinedNext(n: nat, s: Shape, h: int, b: nat, x: nat)
    requires Partition(n, s) && h in s.chains && b in s.chains && h != b && s.chains[b] == [b]
    requires b < n && Partition(n, Joined(s, h, b)) && x < n
    ensures NextOf(n, Joined(s, h, b), x) == if x == s.chains[h][|s.chains[h]| - 1] then b else NextOf(n, s, x)
  {
    assert s.chains[b][0] == b;
    var c := s.chains[h];
    assert s.owner[c[|c| - 1]] == h && s.pos[c[|c| - 1]] == |c| - 1;
    assert s.owner[b] == b && s.pos[b] == 0;
    assert s.owner[x] == h ==> Joined(s, h, b).chains[s.owner[x]] == c + [b];
    assert s.owner[x] != h && s.owner[x] in s.chains && s.owner[x] != b ==>
        Joined(s, h, b).chains[s.owner[x]] == s.chains[s.owner[x]];
  }

  /** Chain `h` cut after its first `m` buckets, the rest pushed onto the free list in order. */
  function Cut(s: Shape, h: int, m: nat): Shape
    requires h in s.chains && m <= |s.chains[h]| && |s.owner| == |s.pos|
  {
    var c := s.chains[h];
    Shape(s.chains[h := c[..m]], s.free + c[m..],
          seq(|s.owner|, b requires 0 <= b < |s.owner| =>
            if s.owner[b] == h && s.pos[b] >= m then INVALID else s.owner[b]),
          seq(|s.pos|, b requires 0 <= b < |s.pos| =>
            if s.owner[b] == h && s.pos[b] >= m then |s.free| + s.pos[b] - m else s.pos[b]))
  }

  predicate Freed(s: Shape, h: int, m: nat, b: nat)
    requires b < |s.owner| == |s.pos|
  {
    s.owner[b] == h && s.pos[b] >= m
  }

  ghost predicate IsCut(n: nat, s: Shape, t: Shape, h: int, m: nat)
    requires Partition(n, s) && h in s.chains && m <= |s.chains[h]|
  {
    && t.chains == s.chains[h := s.chains[h][..m]] && t.free == s.free + s.chains[h][m..]
    && |t.owner| == n && |t.pos| == n
    && (forall b :: 0 <= b < n ==> t.owner[b] == if Freed(s, h, m, b) then INVALID else s.owner[b])
    && (forall b :: 0 <= b < n ==> t.pos[b] == if Freed(s, h, m, b) then |s.free| + s.pos[b] - m else s.pos[b])
  }

  lemma CutIsCut(n: nat, s: Shape, h: int, m: nat)
    requires Partition(n, s) && h in s.chains && m <= |s.chains[h]|
    ensures IsCut(n, s, Cut(s, h, m), h, m)
  {}

  lemma CutFree(n: nat, s: Shape, t: Shape, h: int, m: nat, i: nat)
    requires Partition(n, s) && h in s.chains && 0 < m <= |s.chains[h]| && IsCut(n, s, t, h, m) && i < |t.free|
    ensures t.free[i] < n && t.owner[t.free[i]] == INVALID && t.pos[t.free[i]] == i
  {
    if i >= |s.free| { assert t.free[i] == s.chains[h][m + i - |s.free|]; }
  }

  lemma CutPartition(n: nat, s: Shape, t: Shape, h: int, m: nat)
    requires Partition(n, s) && h in s.chains && 0 < m <= |s.chains[h]| && IsCut(n, s, t, h, m)
    ensures Partition(n, t)
  {
    var c := s.chains[h];
    forall i | 0 <= i < |t.free|
      ensures t.free[i] < n && t.owner[t.free[i]] == INVALID && t.pos[t.free[i]] == i
    {
      CutFree(n, s, t, h, m, i);
    }
    forall b | 0 <= b < n
      ensures if t.owner[b] == INVALID then t.pos[b] < |t.free| && t.free[t.pos[b]] == b
        else t.owner[b] in t.chains && t.pos[b] < |t.chains[t.owner[b]]| && t.chains[t.owner[b]][t.pos[b]] == b
    {
      if Freed(s, h, m, b) { assert t.free[t.pos[b]] == c[s.pos[b]]; }
    }
  }

  /** What follows a freed id after the cut. */
  lemma CutNextFreed(n: nat, s: Shape, t: Shape, h: int, m: nat, b: nat)
    requires Partition(n, s) && h in s.chains && 0 < m <= |s.chains[h]| && b < n && Freed(s, h, m, b)
    requires IsCut(n, s, t, h, m) && Partition(n, t)
    ensures NextOf(n, t, b) ==
        if s.pos[b] > m then s.chains[h][s.pos[b] - 1]
        else if s.free == [] then INVALID else s.free[|s.free| - 1]
  {
    var c, p := s.chains[h], s.pos[b];
    assert t.owner[b] == INVALID && t.pos[b] == |s.free| + p - m;
    if p > m { assert t.free[|s.free| + p - 1 - m] == c[p - 1]; }
  }

  /** What follows any other id after the cut. */
  lemma CutNextKept(n: nat, s: Shape, t: Shape, h: int, m: nat, b: nat)
    requires Partition(n, s) && h in s.chains && 0 < m <= |s.chains[h]| && b < n && !Freed(s, h, m, b)
    requires IsCut(n, s, t, h, m) && Partition(n, t)
    ensures NextOf(n, t, b) == if s.owner[b] == h && s.pos[b] == m - 1 then INVALID else NextOf(n, s, b)
  {
    var p := s.pos[b];
    if s.owner[b] == INVALID {
      assert p > 0 ==> t.free[p - 1] == s.free[p - 1];
    } else if s.owner[b] == h {
      assert t.chains[h] == s.chains[h][..m];
    } else {
      assert t.chains[s.owner[b]] == s.chains[s.owner[b]];
    }
  }

  lemma CutNext(n: nat, s: Shape, t: Shape, h: int, m: nat, b: nat)
    requires Partition(n, s) && h in s.chains && 0 < m <= |s.chains[h]| && b < n
    requires IsCut(n, s, t, h, m) && Partition(n, t)
    ensures NextOf(n, t, b) ==
        if s.owner[b] != h || s.pos[b] < m - 1 then NextOf(n, s, b)
        else if s.pos[b] == m - 1 then INVALID
        else if s.pos[b] > m then s.chains[h][s.pos[b] - 1]
        else if s.free == [] then INVALID else s.free[|s.free| - 1]
  {
    if Freed(s, h, m, b) { CutNextFreed(n, s, t, h, m, b); } else { CutNextKept(n, s, t, h, m, b); }
  }

  predicate SameButLink(a: Bucket, b: Bucket) {
    b == a.(next := b.next)
  }

  function LinkBack(firstFree: int, c: seq<nat>, m: nat, u: nat): int
    requires m <= u < |c|
  {
    if u == m then firstFree else c[u - 1]
  }

  /** The links after the tail of `c` from place `m` up to place `t` has been pushed on the free list. */
  ghost predicate Pushed(bs: seq<Bucket>, cs: seq<Bucket>, firstFree: int, c: seq<nat>, m: nat, t: nat)
    requires m <= t <= |c|
  {
    && |cs| == |bs|
    && (forall b :: 0 <= b < |bs| ==> SameButLink(bs[b], cs[b]))
    && (forall b :: 0 <= b < |bs| && b !in c ==> cs[b].next == bs[b].next)
    && (forall u {:trigger cs[c[u]]} :: 0 <= u < |c| && c[u] < |cs| ==>
          cs[c[u]].next == if m <= u < t then LinkBack(firstFree, c, m, u) else bs[c[u]].next)
  }

  /** Pushing the cut-off tail bucket by bucket leaves links that spell out the cut shape. */
  lemma CutShaped(bs: seq<Bucket>, cs: seq<Bucket>, firstFree: int, s: Shape, t: Shape, h: int, m: nat)
    requires Shaped(bs, firstFree, s) && h in s.chains && 0 < m <= |s.chains[h]| && IsCut(|bs|, s, t, h, m)
    requires Pushed(bs[s.chains[h][m - 1] := bs[s.chains[h][m - 1]].(next := INVALID)], cs, firstFree,
                    s.chains[h], m, |s.chains[h]|)
    ensures Shaped(cs, if m < |s.chains[h]| then s.chains[h][|s.chains[h]| - 1] else firstFree, t)
  {
    var n := |bs|;
    CutPartition(n, s, t, h, m);
    forall b | 0 <= b < n
      ensures cs[b].next == NextOf(n, t, b)
    {
      CutNext(n, s, t, h, m, b);
      PushedNext(bs, cs, firstFree, s, h, m, b);
    }
  }

  lemma PushedNext(bs: seq<Bucket>, cs: seq<Bucket>, firstFree: int, s: Shape, h: int, m: nat, b: nat)
    requires Shaped(bs, firstFree, s) && h in s.chains && 0 < m <= |s.chains[h]| && b < |bs|
    requires Pushed(bs[s.chains[h][m - 1] := bs[s.chains[h][m - 1]].(next := INVALID)], cs, firstFree,
                    s.chains[h], m, |s.chains[h]|)
    ensures cs[b].next ==
        if s.owner[b] != h || s.pos[b] < m - 1 then bs[b].next
        else if s.pos[b] == m - 1 then INVALID
        else if s.pos[b] > m then s.chains[h][s.pos[b] - 1] else firstFree
  {
    var c := s.chains[h];
    if s.owner[b] == h {
      assert c[s.pos[b]] == b && cs[c[s.pos[b]]] == cs[b];
    } else {
      assert b !in c;
    }
  }

  lemma FilledSameButLinks(bs: seq<Bucket>, cs: seq<Bucket>, recs: seq<seq<Record>>)
    requires Filled(bs, recs) && |cs| == |bs| && forall b :: 0 <= b < |bs| ==> SameButLink(bs[b], cs[b])
    ensures Filled(cs, recs)
  {
    forall b | 0 <= b < |bs|
      ensures Holds(cs[b], recs[b])
    {
      assert SameButLink(bs[b], cs[b]);
    }
  }

  /** Pushing one more bucket. */
  lemma PushNext(bs: seq<Bucket>, cs: seq<Bucket>, firstFree: int, c: seq<nat>, m: nat, t: nat)
    requires m <= t < |c| && Pushed(bs, cs, firstFree, c, m, t) && c[t] < |bs|
    requires forall u, w :: 0 <= u < |c| && 0 <= w < |c| && u != w ==> c[u] != c[w]
    ensures cs[c[t]].next == bs[c[t]].next
    ensures Pushed(bs, cs[c[t] := cs[c[t]].(next := LinkBack(firstFree, c, m, t))], firstFree, c, m, t + 1)
  {
    var ds := cs[c[t] := cs[c[t]].(next := LinkBack(firstFree, c, m, t))];
    assert cs[c[t]].next == bs[c[t]].next;
    forall b | 0 <= b < |bs|
      ensures SameButLink(bs[b], ds[b])
    {
      assert SameButLink(bs[b], cs[b]);
    }
    forall u | 0 <= u < |c| && c[u] < |bs|
      ensures ds[c[u]].next == if m <= u < t + 1 then LinkBack(firstFree, c, m, u) else bs[c[u]].next
    {
      if u != t { assert ds[c[u]] == cs[c[u]]; }
    }
  }
}
