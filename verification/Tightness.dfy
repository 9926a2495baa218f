/** Chains without slack: every bucket behind the first was needed, since its first record did not fit behind
    the records of the bucket before it. And which buckets a growing chain takes from the free list. */
module Tightness {
  import opened Records
  import opened Contents
  import opened Buckets
  import opened Store

  /** The first record of bucket `b`, which has one, did not fit behind those of bucket `a`. */
  ghost predicate Tight(bs: seq<Bucket>, recs: seq<seq<Record>>, a: nat, b: nat) {
    a < |bs| && At(recs, b) != [] && bs[a].bytesUsed + |Encode(At(recs, b)[0])| > BUCKET_SIZE
  }

  ghost predicate TightAt(bs: seq<Bucket>, recs: seq<seq<Record>>, chain: seq<nat>, t: nat)
    requires 0 < t < |chain|
  {
    Tight(bs, recs, chain[t - 1], chain[t])
  }

  /** A chain has no slack up to place w. */
  ghost predicate TightTo(bs: seq<Bucket>, recs: seq<seq<Record>>, chain: seq<nat>, w: nat) {
    w < |chain| && forall t :: 0 < t <= w ==> TightAt(bs, recs, chain, t)
  }

  /** Nor will it have any once record `r` is appended at place w, which may be empty yet. */
  ghost predicate TightWith(bs: seq<Bucket>, recs: seq<seq<Record>>, chain: seq<nat>, w: nat, r: Record) {
    || TightTo(bs, recs, chain, w)
    || (&& 0 < w < |chain| && TightTo(bs, recs, chain, w - 1) && At(recs, chain[w]) == []
        && chain[w - 1] < |bs| && bs[chain[w - 1]].bytesUsed + |Encode(r)| > BUCKET_SIZE)
  }

  /** Only the bytes used and the records matter. */
  lemma TightSame(bs: seq<Bucket>, recs: seq<seq<Record>>, bs': seq<Bucket>, recs': seq<seq<Record>>, chain: seq<nat>,
                  chain': seq<nat>, w: nat)
    requires TightTo(bs, recs, chain, w) && |bs| <= |bs'| && w < |chain'| && chain'[..w + 1] == chain[..w + 1]
    requires forall t :: 0 <= t <= w && chain[t] < |bs| ==> bs'[chain[t]].bytesUsed == bs[chain[t]].bytesUsed
    requires forall t :: 0 <= t <= w ==> At(recs', chain[t]) == At(recs, chain[t])
    ensures TightTo(bs', recs', chain', w)
  {
    forall t | 0 < t <= w
      ensures TightAt(bs', recs', chain', t)
    {
      assert TightAt(bs, recs, chain, t);
      assert chain'[t] == chain'[..w + 1][t] == chain[t] && chain'[t - 1] == chain'[..w + 1][t - 1] == chain[t - 1];
    }
  }

  /** Appending the record for which there is room. */
  lemma TightAppend(bs: seq<Bucket>, recs: seq<seq<Record>>, chain: seq<nat>, w: nat, r: Record, nb: Bucket)
    requires TightWith(bs, recs, chain, w, r) && w < |chain| && chain[w] < |recs| == |bs|
    requires forall t :: 0 <= t < w ==> chain[t] != chain[w]
    ensures TightTo(bs[chain[w] := nb], recs[chain[w] := recs[chain[w]] + [r]], chain, w)
  {
    var bs', recs' := bs[chain[w] := nb], recs[chain[w] := recs[chain[w]] + [r]];
    forall t | 0 < t <= w
      ensures TightAt(bs', recs', chain, t)
    {
      if t < w || TightTo(bs, recs, chain, w) { assert TightAt(bs, recs, chain, t); }
    }
  }

  /** And so it is for another chain, which it leaves alone. */
  lemma TightBoth(bs: seq<Bucket>, recs: seq<seq<Record>>, chain: seq<nat>, w: nat, r: Record, nb: Bucket,
                  other: seq<nat>, v: nat)
    requires TightWith(bs, recs, chain, w, r) && w < |chain| && chain[w] < |recs| == |bs|
    requires forall t :: 0 <= t < w ==> chain[t] != chain[w]
    requires TightTo(bs, recs, other, v) && forall t :: 0 <= t < |other| ==> other[t] != chain[w]
    ensures var bs', recs' := bs[chain[w] := nb], recs[chain[w] := recs[chain[w]] + [r]];
      TightTo(bs', recs', chain, w) && TightTo(bs', recs', other, v)
  {
    TightAppend(bs, recs, chain, w, r, nb);
    TightSame(bs, recs, bs[chain[w] := nb], recs[chain[w] := recs[chain[w]] + [r]], other, other, v);
  }

  /** Going on to the next bucket, which is empty, because the record did not fit. */
  lemma TightAdvance(bs: seq<Bucket>, recs: seq<seq<Record>>, chain: seq<nat>, w: nat, r: Record)
    requires TightTo(bs, recs, chain, w) && w + 1 < |chain| && At(recs, chain[w + 1]) == []
    requires chain[w] < |bs| && bs[chain[w]].bytesUsed + |Encode(r)| > BUCKET_SIZE
    ensures TightWith(bs, recs, chain, w + 1, r)
  {}

  // ------------------------------------------------------------------ the free list

  /** What is left of f free buckets after k have been taken. */
  function Left(f: nat, k: nat): nat {
    if k <= f then f - k else 0
  }

  /** After k buckets have been taken, off the free list as long as there are any. */
  predicate AfterTaking(free: seq<nat>, count: nat, k: nat, free': seq<nat>, count': nat) {
    free' == free[..Left(|free|, k)] && count' == count + k - (|free| - Left(|free|, k))
  }

  lemma TakeOneMore(free: seq<nat>, count: nat, k: nat, free': seq<nat>, count': nat, free'': seq<nat>, count'': nat,
                    id: nat)
    requires AfterTaking(free, count, k, free', count') && Taken(free', count', free'', count'', id)
    ensures AfterTaking(free, count, k + 1, free'', count'')
  {
    if free' != [] { assert free'[..|free'| - 1] == free[..|free'| - 1]; }
  }
}
