/** The Bloom pre-filter of uthash.h: a bit vector indexed by the low bits of the hash value. */
module Bloom {
  import opened Arith

  function BitLen(nbits: nat): (n: nat) { Pow2(nbits) }

  function ByteLen(nbits: nat): (n: nat)
    ensures BitLen(nbits) <= 8 * n < BitLen(nbits) + 8
  {
    BitLen(nbits) / 8 + if BitLen(nbits) % 8 != 0 then 1 else 0
  }

  /** The position of a hash value in a filter of 2^nbits bits. */
  function BitOf(hashv: nat, nbits: nat): (i: nat)
    ensures i == hashv % Pow2(nbits) && i < BitLen(nbits)
  {
    AndMask(hashv, nbits);
    And(hashv, BitLen(nbits) - 1)
  }

  /** One bit of a byte: 1 shifted left by k. */
  function Mask(k: nat): (mask: bv8)
    requires k < 8
  {
    (1 as bv8) << k
  }

  predicate IsSet(bv: seq<bv8>, i: nat)
    requires i < 8 * |bv|
  {
    bv[i / 8] & Mask(i % 8) != 0
  }

  lemma SetOneBit(x: bv8, k: nat, j: nat)
    requires k < 8 && j < 8
    ensures ((x | Mask(k)) & Mask(j) != 0) <==> (x & Mask(j) != 0) || j == k
  {
    MasksDiffer(k, j);
    var a, b := Mask(k), Mask(j);
    if j != k {
      assert (x | a) & b == (x & b) | (a & b);
    }
  }

  lemma MasksDiffer(k: nat, j: nat)
    requires k < 8 && j < 8
    ensures Mask(k) != 0 && (k != j ==> Mask(k) & Mask(j) == 0)
  {
  }

  /** HASH_BLOOM_ADD sets exactly the bit of the hash value. */
  method Add(bv: array<bv8>, nbits: nat, hashv: nat)
    requires bv.Length == ByteLen(nbits)
    modifies bv
    ensures forall i :: 0 <= i < BitLen(nbits) ==>
              (IsSet(bv[..], i) <==> old(IsSet(bv[..], i)) || i == BitOf(hashv, nbits))
    ensures var i := hashv % Pow2(nbits);
            i / 8 < bv.Length && bv[..] == old(bv[..])[i / 8 := old(bv[..])[i / 8] | ((1 as bv8) << (i % 8))]
  {
    var idx := BitOf(hashv, nbits);
    bv[idx / 8] := bv[idx / 8] | Mask(idx % 8);
    forall i | 0 <= i < BitLen(nbits)
      ensures IsSet(bv[..], i) <==> old(IsSet(bv[..], i)) || i == idx
    {
      if i / 8 == idx / 8 {
        SetOneBit(old(bv[idx / 8]), idx % 8, i % 8);
      }
    }
  }

  /** HASH_BLOOM_TEST. */
  predicate Test(bv: seq<bv8>, nbits: nat, hashv: nat)
    requires |bv| == ByteLen(nbits)
  {
    IsSet(bv, BitOf(hashv, nbits))
  }
}
