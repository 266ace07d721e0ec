/** The per-chunk nonce of the container format: the base nonce with its last
    eight bytes combined with the chunk counter. */
module Nonce {
  import opened Bytes

  const NONCE_SIZE := 12

  type NonceBytes = n: seq<byte> | |n| == NONCE_SIZE witness seq(NONCE_SIZE, _ => 0)

  /** Byte 11-i of the result is byte 11-i of the base xor byte i of the counter, for i < 8. */
  function ChunkNonce(base: NonceBytes, counter: uint64): NonceBytes {
    seq(NONCE_SIZE, j requires 0 <= j < NONCE_SIZE =>
      if j < 4 then base[j] else Xor(base[j], ByteOf(counter, 11 - j)))
  }

  /** Starts from a copy of the base and combines its last eight bytes, last one first, with
      the bytes of the counter, lowest first. */
  method FillChunkNonce(base: NonceBytes, counter: uint64) returns (n: array<byte>)
    ensures fresh(n) && n[..] == ChunkNonce(base, counter)
  {
    n := new byte[NONCE_SIZE](j requires 0 <= j < NONCE_SIZE => base[j]);
    for i := 0 to 8
      invariant forall j :: 0 <= j < 12 - i ==> n[j] == base[j]
      invariant forall j :: 12 - i <= j < 12 ==> n[j] == Xor(base[j], ByteOf(counter, 11 - j))
    {
      n[11 - i] := Xor(base[11 - i], ByteOf(counter, i));
    }
  }

  /** Read as big-endian numbers, the last eight bytes are those of the base xor the counter. */
  lemma ChunkNonceIsXor(base: NonceBytes, counter: uint64)
    ensures ChunkNonce(base, counter)[..4] == base[..4]
    ensures BigEndian(ChunkNonce(base, counter)[4..]) == XorBits(BigEndian(base[4..]), counter, 64)
  {
    var bytes: seq<byte> := seq(8, j requires 0 <= j < 8 => ByteOf(counter, 7 - j));
    assert Pow(256, 8) == U64;
    BytesOfNumber(counter, bytes);
    XorBytewise(base[4..], bytes, ChunkNonce(base, counter)[4..]);
  }

  /** A bit of the last eight bytes differs from the base's exactly where the bit of the same
      weight in the counter is set; the first four bytes are the base's. */
  lemma ChunkNonceBits(base: NonceBytes, counter: uint64, j: nat, k: nat)
    requires j < NONCE_SIZE && k < 8
    ensures j < 4 ==> ChunkNonce(base, counter)[j] == base[j]
    ensures j >= 4 ==>
              (Bit(ChunkNonce(base, counter)[j], k) <==> Bit(base[j], k) != Bit(counter, 8 * (11 - j) + k))
  {
    if j >= 4 {
      XorBitAt(base[j], ByteOf(counter, 11 - j), 8, k);
      ByteBits(counter, 11 - j, k);
    }
  }

  lemma {:induction false} ZeroByte(i: nat)
    ensures ByteOf(0, i) == 0
  {
    if i > 0 {
      ZeroByte(i - 1);
    }
  }

  /** The first chunk of a file is sealed under the base nonce itself. */
  lemma ChunkNonceZero(base: NonceBytes)
    ensures ChunkNonce(base, 0) == base
  {
    assert Pow(2, 8) == 256;
    forall j | 4 <= j < NONCE_SIZE
      ensures ChunkNonce(base, 0)[j] == base[j]
    {
      ZeroByte(11 - j);
      XorZero(base[j], 8);
    }
  }

  /** Applying the counter again undoes it. */
  lemma ChunkNonceInvolution(base: NonceBytes, counter: uint64)
    ensures ChunkNonce(ChunkNonce(base, counter), counter) == base
  {
    var n := ChunkNonce(base, counter);
    forall j | 4 <= j < 12
      ensures ChunkNonce(n, counter)[j] == base[j]
    {
      XorInvolution(base[j], ByteOf(counter, 11 - j));
    }
  }

  /** Over the whole uint64 range, different counters give different nonces. */
  lemma ChunkNonceInjective(base: NonceBytes, c: uint64, d: uint64)
    ensures ChunkNonce(base, c) == ChunkNonce(base, d) <==> c == d
  {
    if ChunkNonce(base, c) == ChunkNonce(base, d) {
      forall i: nat | i < 8
        ensures ByteOf(c, i) == ByteOf(d, i)
      {
        assert ChunkNonce(base, c)[11 - i] == ChunkNonce(base, d)[11 - i];
        XorCancels(base[11 - i], ByteOf(c, i), ByteOf(d, i));
      }
      assert Pow(256, 8) == U64;
      BytesDetermine(c, d, 8);
    }
  }
}
