/** Overwriting a stretch of a buffer in place. */
module Bytes {
  import opened Bits

  /** `data` after copying `s` over it from position `p` on. */
  function Splice(data: seq<byte>, p: nat, s: seq<byte>): (out: seq<byte>)
    requires p + |s| <= |data|
    ensures |out| == |data|
  {
    data[..p] + s + data[p + |s|..]
  }

  /** Storing one byte and then copying the rest is copying all of it. */
  lemma SpliceCons(data: seq<byte>, p: nat, b: byte, s: seq<byte>)
    requires p + 1 + |s| <= |data|
    ensures Splice(data[p := b], p + 1, s) == Splice(data, p, [b] + s)
  {}

  lemma SpliceOne(data: seq<byte>, p: nat, b: byte)
    requires p < |data|
    ensures Splice(data, p, [b]) == data[p := b]
  {}

  lemma SpliceSplice(data: seq<byte>, p: nat, s: seq<byte>, t: seq<byte>)
    requires p + |s| + |t| <= |data|
    ensures Splice(Splice(data, p, s), p + |s|, t) == Splice(data, p, s + t)
  {}

  /** Copying at `p` leaves every stretch at or beyond the copied bytes alone. */
  lemma SpliceBeyond(data: seq<byte>, p: nat, s: seq<byte>, lo: nat, hi: nat)
    requires p + |s| <= lo <= hi <= |data|
    ensures Splice(data, p, s)[lo..hi] == data[lo..hi]
  {
    assert forall i :: lo <= i < hi ==> Splice(data, p, s)[i] == data[i];
  }

  /** Copying at `p` extends what was already written before `p`. */
  lemma SpliceExtends(data: seq<byte>, p: nat, s: seq<byte>)
    requires p + |s| <= |data|
    ensures Splice(data, p, s)[..p + |s|] == data[..p] + s
  {}
}
