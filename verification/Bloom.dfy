/** The Bloom filter's bit vector: an array of bytes addressed by bit index. */
module Bloom {
  import opened Bits

  /** HASH_BLOOM_BYTELEN. */
  function ByteLen(nbits: nat): nat {
    var bits := Pow2(nbits);
    bits / 8 + (if bits % 8 != 0 then 1 else 0)
  }

  /** Byte vector `bv` has exactly the bits in `bits` set. */
  ghost predicate BloomRep(bv: seq<nat>, bits: set<nat>, nbits: nat) {
    && |bv| == ByteLen(nbits)
    && (forall k :: 0 <= k < |bv| ==> bv[k] < 256)
    && (forall i: nat :: i < Pow2(nbits) ==> (i in bits <==> Bit(bv[i / 8], i % 8)))
  }

  lemma ByteInBounds(idx: nat, nbits: nat)
    requires idx < Pow2(nbits)
    ensures idx / 8 < ByteLen(nbits)
  {
  }

  /** The vector has no byte more than the bits need. */
  lemma ByteLenIsExact(nbits: nat)
    ensures 8 * ByteLen(nbits) >= Pow2(nbits) > 8 * (ByteLen(nbits) - 1)
  {
  }

  lemma BloomZero(bv: seq<nat>, nbits: nat)
    requires |bv| == ByteLen(nbits) && forall k :: 0 <= k < |bv| ==> bv[k] == 0
    ensures BloomRep(bv, {}, nbits)
  {
    forall i: nat | i < Pow2(nbits) ensures !Bit(bv[i / 8], i % 8) {
      ByteInBounds(i, nbits);
      ZeroHasNoBits(i % 8);
    }
  }

  /** A byte with bit `j` set in addition stays a byte; no other bit changes. */
  lemma ByteWithBit(byte: nat, j: nat)
    requires byte < 256 && j < 8
    ensures Or(byte, Shl(1, j)) < 256
    ensures forall i: nat {:trigger Bit(byte, i)} {:trigger Bit(Or(byte, Shl(1, j)), i)} ::
      Bit(Or(byte, Shl(1, j)), i) <==> Bit(byte, i) || i == j
  {
    ShlIsMul(1, j);
    Pow2Monotone(j + 1, 8);
    assert Pow2(8) == 256;
    OrStaysBelow(byte, Pow2(j), 8);
    forall i: nat ensures Bit(Or(byte, Shl(1, j)), i) <==> Bit(byte, i) || i == j {
      OrBit(byte, Pow2(j), i);
      Pow2Bit(j, i);
    }
  }

  lemma BloomSet(bv: seq<nat>, bits: set<nat>, nbits: nat, idx: nat)
    requires BloomRep(bv, bits, nbits) && idx < Pow2(nbits)
    ensures idx / 8 < |bv|
    ensures BloomRep(bv[idx / 8 := Or(bv[idx / 8], Shl(1, idx % 8))], bits + {idx}, nbits)
  {
    ByteInBounds(idx, nbits);
    ByteWithBit(bv[idx / 8], idx % 8);
  }

  /** HASH_BLOOM_MAKE: a zeroed vector. */
  method NewBits(nbits: nat) returns (bv: array<nat>)
    ensures fresh(bv) && BloomRep(bv[..], {}, nbits)
  {
    bv := new nat[ByteLen(nbits)](_ => 0);
    BloomZero(bv[..], nbits);
  }

  /** HASH_BLOOM_BITSET: exactly one bit is added. */
  method BitSet(bv: array<nat>, idx: nat, ghost bits: set<nat>, nbits: nat)
    requires BloomRep(bv[..], bits, nbits) && idx < Pow2(nbits)
    modifies bv
    ensures BloomRep(bv[..], bits + {idx}, nbits)
  {
    ByteInBounds(idx, nbits);
    BloomSet(bv[..], bits, nbits, idx);
    ghost var was := bv[..];
    bv[idx / 8] := Or(bv[idx / 8], Shl(1, idx % 8));
    assert bv[..] == was[idx / 8 := Or(was[idx / 8], Shl(1, idx % 8))];
  }

  /** HASH_BLOOM_BITTEST: membership of one bit. */
  method BitTest(bv: array<nat>, idx: nat, ghost bits: set<nat>, nbits: nat) returns (isSet: bool)
    requires BloomRep(bv[..], bits, nbits) && idx < Pow2(nbits)
    ensures isSet <==> idx in bits
  {
    ByteInBounds(idx, nbits);
    ShlIsMul(1, idx % 8);
    AndPow2IsBit(bv[idx / 8], idx % 8);
    isSet := And(bv[idx / 8], Shl(1, idx % 8)) != 0;
    assert bv[..][idx / 8] == bv[idx / 8];
  }
}
