/** The directory: bucket ids indexed by the leading bits of a hash. */
module CatalogueModule {
  import opened Bits
  import opened Prefixes

  const INVALID_BLOCK_ID: int := -1

  class Catalogue {
    var prefixBits: nat
    var prefixShift: nat
    var prefixMask: nat
    var buffer: array<int>

    ghost predicate Valid()
      reads this
    {
      && 1 <= prefixBits <= HASH_BITS && prefixShift == HASH_BITS - prefixBits
      && prefixMask == FieldMask(prefixBits, prefixShift) && buffer.Length == Pow2(prefixBits)
    }

    constructor (prefixBits: nat)
      requires 1 <= prefixBits < HASH_BITS
      ensures Valid() && fresh(buffer) && this.prefixBits == prefixBits
      ensures forall i :: 0 <= i < buffer.Length ==> buffer[i] == INVALID_BLOCK_ID
    {
      this.prefixBits := prefixBits;
      prefixShift := HASH_BITS - prefixBits;
      prefixMask := (Pow2(prefixBits) - 1) * Pow2(HASH_BITS - prefixBits);
      buffer := new int[Pow2(prefixBits)](_ => INVALID_BLOCK_ID);
    }

    /** Where the entry for a hash lies. */
    function Slot(hash: Hash): (i: nat)
      requires Valid()
      reads this
      ensures i == Top(hash, prefixBits) < buffer.Length
    {
      MaskedTop(hash, prefixBits);
      And(hash, prefixMask) / Pow2(prefixShift)
    }

    function Find(hash: Hash): int
      requires Valid()
      reads this, buffer
    {
      buffer[Slot(hash)]
    }

    /** Point every entry that shares the leading `offset` bits of `hash` to `value`. */
    method Set(hash: Hash, offset: nat, value: int)
      requires Valid() && offset <= prefixBits
      modifies buffer
      ensures Valid()
      ensures forall i :: 0 <= i < buffer.Length ==>
        buffer[i] == if i / Pow2(prefixBits - offset) == Top(hash, offset) then value else old(buffer[i])
      ensures forall x: Hash :: Find(x) == if Top(x, offset) == Top(hash, offset) then value else old(Find(x))
    {
      BlockStart(hash, offset, prefixBits);
      var hashCopy := And(hash, 0xFFFF_FFFF_FFFF_FFFF - (Pow2(HASH_BITS - offset) - 1));
      var put := And(hashCopy, prefixMask) / Pow2(prefixShift);
      var count := Pow2(prefixBits - offset);
      ghost var start, width := put, count;
      while count > 0
        invariant 0 <= count <= width && put == start + width - count
        invariant forall i :: 0 <= i < buffer.Length ==>
          buffer[i] == if start <= i < put then value else old(buffer[i])
      {
        buffer[put] := value;
        put, count := put + 1, count - 1;
      }
      forall i | 0 <= i < buffer.Length
        ensures (start <= i < put) <==> i / width == Top(hash, offset)
      {
        InBlock(i, width, Top(hash, offset));
      }
      forall x: Hash
        ensures Find(x) == if Top(x, offset) == Top(hash, offset) then value else old(Find(x))
      {
        TopNested(x, offset, prefixBits);
      }
    }

    /** Double the directory: the file is extended, then every entry is spread over two, back to front,
        within the same buffer. */
    method Split()
      requires Valid() && prefixBits < HASH_BITS
      modifies this, buffer
      ensures Valid() && prefixBits == old(prefixBits) + 1 && fresh(buffer)
      ensures forall i :: 0 <= i < buffer.Length ==> i / 2 < old(buffer.Length) && buffer[i] == old(buffer[i / 2])
      ensures forall x: Hash :: Find(x) == old(Find(x))
    {
      var oldBufferSize := buffer.Length;
      OneMoreOne(prefixBits);
      prefixBits := prefixBits + 1;
      prefixShift := prefixShift - 1;
      prefixMask := Or(prefixMask, Pow2(prefixShift));
      buffer := Resized(buffer, 2 * oldBufferSize);
      Spread(buffer, oldBufferSize);
      forall x: Hash
        ensures Find(x) == old(Find(x))
      {
        TopStep(x, prefixBits - 1);
      }
    }
  }

  /** Spread the first half of a buffer over the whole of it, back to front: no entry is overwritten
      before it has been read. */
  method Spread(buffer: array<int>, size: nat)
    requires buffer.Length == 2 * size
    modifies buffer
    ensures forall i :: 0 <= i < buffer.Length ==> buffer[i] == old(buffer[i / 2])
  {
    ghost var entries := buffer[..];
    var oldBufferSize, get, put := size, size - 1, 2 * size - 1;
    while oldBufferSize != 0
      invariant 0 <= oldBufferSize <= size && get == oldBufferSize - 1 && put == 2 * oldBufferSize - 1
      invariant forall i {:trigger buffer[i]} :: 0 <= i < oldBufferSize ==> buffer[i] == entries[i]
      invariant forall i {:trigger buffer[i]} :: 2 * oldBufferSize <= i < buffer.Length ==> buffer[i] == entries[i / 2]
    {
      buffer[put] := buffer[get];
      put := put - 1;
      buffer[put] := buffer[get];
      put, get := put - 1, get - 1;
      oldBufferSize := oldBufferSize - 1;
    }
  }

  /** The mapped file after a resize: longer, its old contents kept. */
  method Resized(a: array<int>, n: nat) returns (b: array<int>)
    requires n >= a.Length
    ensures fresh(b) && b.Length == n && forall i :: 0 <= i < a.Length ==> b[i] == a[i]
  {
    b := new int[n](_ => 0);
    forall i | 0 <= i < a.Length {
      b[i] := a[i];
    }
  }

  /** Masking off the prefix and shifting it down gives the prefix. */
  lemma MaskedTop(hash: Hash, d: nat)
    requires 1 <= d <= HASH_BITS
    ensures And(hash, FieldMask(d, HASH_BITS - d)) / Pow2(HASH_BITS - d) == Top(hash, d) < Pow2(d)
  {
    TopBound(hash, d);
    AndField(hash, d, HASH_BITS - d);
    QuotientUnique(Top(hash, d), Pow2(d), 0, Top(hash, d));
    QuotientUnique(Top(hash, d) * Pow2(HASH_BITS - d), Pow2(HASH_BITS - d), Top(hash, d), 0);
  }

  /** The mask of a directory with one more prefix bit. */
  lemma OneMoreOne(d: nat)
    requires 1 <= d < HASH_BITS
    ensures Or(FieldMask(d, HASH_BITS - d), Pow2(HASH_BITS - d - 1)) == FieldMask(d + 1, HASH_BITS - d - 1)
  {
    var p, q, r := Pow2(d), Pow2(HASH_BITS - d - 1), Pow2(HASH_BITS - d);
    OrDisjoint(q, p - 1, HASH_BITS - d);
    MaskStep(p, q, r);
  }

  lemma MaskStep(p: nat, q: nat, r: nat)
    requires r == 2 * q
    ensures (2 * p - 1) * q == (p - 1) * r + q
  {}

  lemma MulAssoc(a: nat, b: nat, c: nat)
    ensures a * (b * c) == (a * b) * c
  {}

  lemma MinusOneMul(a: nat, b: nat)
    ensures (a - 1) * b == a * b - b
  {}

  /** The hash with all but its leading bits cleared. */
  lemma Cleared(hash: Hash, offset: nat)
    requires offset <= HASH_BITS
    ensures Pow2(HASH_BITS - offset) <= 0x1_0000_0000
    ensures And(hash, 0xFFFF_FFFF_FFFF_FFFF - (Pow2(HASH_BITS - offset) - 1))
      == Top(hash, offset) * Pow2(HASH_BITS - offset)
  {
    var s := HASH_BITS - offset;
    Pow2Values();
    Pow2Monotone(s, 32);
    Pow2Add(32, 32);
    Pow2Add(64 - s, s);
    MinusOneMul(Pow2(64 - s), Pow2(s));
    assert FieldMask(64 - s, s) == 0x1_0000_0000_0000_0000 - Pow2(s);
    AndField(hash, 64 - s, s);
    TopBound(hash, offset);
    Pow2Monotone(offset, 64 - s);
    QuotientUnique(Top(hash, offset), Pow2(64 - s), 0, Top(hash, offset));
  }

  /** The first entry of the aligned block for a prefix, and that the block lies inside the directory. */
  lemma BlockStart(hash: Hash, offset: nat, d: nat)
    requires offset <= d <= HASH_BITS && 1 <= d
    ensures Pow2(HASH_BITS - offset) <= 0x1_0000_0000
    ensures var c := And(hash, 0xFFFF_FFFF_FFFF_FFFF - (Pow2(HASH_BITS - offset) - 1));
      And(c, FieldMask(d, HASH_BITS - d)) / Pow2(HASH_BITS - d) == Top(hash, offset) * Pow2(d - offset)
    ensures Top(hash, offset) * Pow2(d - offset) + Pow2(d - offset) <= Pow2(d)
  {
    var q := Top(hash, offset);
    Cleared(hash, offset);
    TopBound(hash, offset);
    TopOnto(q, offset);
    MaskedTop(q * Pow2(HASH_BITS - offset), d);
    BlockIndex(q, offset, d);
  }

  lemma BlockIndex(q: nat, offset: nat, d: nat)
    requires offset <= d <= HASH_BITS && q < Pow2(offset)
    ensures q * Pow2(HASH_BITS - offset) / Pow2(HASH_BITS - d) == q * Pow2(d - offset)
    ensures q * Pow2(d - offset) + Pow2(d - offset) <= Pow2(d)
  {
    var w, a := Pow2(d - offset), Pow2(HASH_BITS - d);
    Pow2Add(d - offset, HASH_BITS - d);
    MulAssoc(q, w, a);
    MulNat(q, w);
    QuotientUnique((q * w) * a, a, q * w, 0);
    Pow2Add(offset, d - offset);
    MulMonotone(q + 1, Pow2(offset), w);
  }

  lemma InBlock(i: nat, w: nat, q: nat)
    requires w > 0
    ensures q * w <= i < q * w + w <==> i / w == q
  {
    if q * w <= i < q * w + w { QuotientUnique(i, w, q, i - q * w); }
  }
}
