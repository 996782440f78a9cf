/**
  Key bytes, digests and change-masks.

  A digest of a `hashbits`-wide hash is modelled as the sequence of its bits,
  indexed the way the hash type's `getbit` indexes them. A change-mask is the
  exclusive-or of the digests of a key and of the same key with one bit flipped.
 */
module Bits {

  type byte = bv8

  /** The bits of a digest, or of the xor of two digests. */
  type Mask = seq<bool>

  /** Bit `bit` of a key, counting from the least significant bit of byte 0. */
  predicate KeyBit(key: seq<byte>, bit: nat)
    requires bit < 8 * |key|
  {
    (key[bit / 8] >> (bit % 8)) & 1 == 1
  }

  /** Digest exclusive-or, `h1 ^ h2`: bit `i` is set exactly when the two digests differ there. */
  function Xor(a: Mask, b: Mask): (m: Mask)
    requires |a| == |b|
    ensures |m| == |a|
  {
    seq(|a|, i requires 0 <= i < |a| => a[i] != b[i])
  }

  /** No bit of the mask is set. */
  predicate AllClear(m: Mask)
  {
    forall i :: 0 <= i < |m| ==> !m[i]
  }

  /** An all-clear change-mask is exactly the case of two equal digests. */
  lemma XorClearIffEqual(a: Mask, b: Mask)
    requires |a| == |b|
    ensures AllClear(Xor(a, b)) <==> a == b
  {
    if AllClear(Xor(a, b)) {
      forall i | 0 <= i < |a| ensures a[i] == b[i] {
        assert !Xor(a, b)[i];
      }
    }
  }

  /** Toggles one bit of a key: byte `bit / 8`, bit `bit % 8` of that byte. */
  function FlipBit(key: seq<byte>, bit: nat): (k: seq<byte>)
    requires bit < 8 * |key|
    ensures |k| == |key|
    ensures KeyBit(k, bit) != KeyBit(key, bit)
    ensures forall b :: 0 <= b < 8 * |key| && b != bit ==> KeyBit(k, b) == KeyBit(key, b)
  {
    var k := key[bit / 8 := key[bit / 8] ^ (1 << (bit % 8))];
    forall b | 0 <= b < 8 * |key| && b != bit
      ensures KeyBit(k, b) == KeyBit(key, b)
    {
      if b / 8 == bit / 8 {
        OtherBitOfByteKept(key[bit / 8], bit % 8, b % 8);
      }
    }
    FlippedBitOfByte(key[bit / 8], bit % 8);
    k
  }

  lemma FlippedBitOfByte(x: byte, s: nat)
    requires s < 8
    ensures ((x ^ (1 << s)) >> s) & 1 != (x >> s) & 1
  {
    if s == 0 {} else if s == 1 {} else if s == 2 {} else if s == 3 {}
    else if s == 4 {} else if s == 5 {} else if s == 6 {} else {}
  }

  lemma OtherBitOfByteKept(x: byte, s: nat, t: nat)
    requires s < 8 && t < 8 && s != t
    ensures ((x ^ (1 << s)) >> t) & 1 == (x >> t) & 1
  {
    if s == 0 {} else if s == 1 {} else if s == 2 {} else if s == 3 {}
    else if s == 4 {} else if s == 5 {} else if s == 6 {} else {}
  }
}
