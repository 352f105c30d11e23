/** Bytes, and the fixed-width integer fields the binary formats of the repository are made of. */
module Bytes {

  type Byte = bv8
  type ByteString = seq<Byte>

  const U16_LIMIT := 0x1_0000
  const U32_LIMIT := 0x1_0000_0000
  const U64_LIMIT := 0x1_0000_0000_0000_0000

  /** The byte whose value is `n`; counted up, which keeps integers and bit-vectors apart in proofs. */
  function ByteOf(n: int): (b: Byte)
    requires 0 <= n < 256
    ensures b as int == n
    decreases n
  {
    if n == 0 then 0 else ByteOf(n - 1) + 1
  }

  /** The low `k` bytes of `n`, least significant first. */
  function LittleEndian(n: int, k: nat): (b: ByteString)
    ensures |b| == k
    decreases k
  {
    if k == 0 then [] else [ByteOf(n % 256)] + LittleEndian(n / 256, k - 1)
  }

  /** The number a little-endian field holds. */
  function FromLittleEndian(b: ByteString): (n: nat) {
    if |b| == 0 then 0 else b[0] as int + 256 * FromLittleEndian(b[1..])
  }

  /** `n` as `k` bytes, most significant first. */
  function BigEndian(n: nat, k: nat): (b: ByteString)
    ensures |b| == k
    decreases k
  {
    if k == 0 then [] else BigEndian(n / 256, k - 1) + [ByteOf(n % 256)]
  }

  /** The number a big-endian field holds. */
  function FromBigEndian(b: ByteString): (n: nat) {
    if |b| == 0 then 0 else 256 * FromBigEndian(b[..|b| - 1]) + b[|b| - 1] as int
  }

  /** How many values fit in `k` bytes. */
  function FieldLimit(k: nat): nat {
    if k == 0 then 1 else 256 * FieldLimit(k - 1)
  }

  lemma FieldLimits()
    ensures FieldLimit(2) == U16_LIMIT && FieldLimit(4) == U32_LIMIT && FieldLimit(8) == U64_LIMIT
  {
    assert FieldLimit(4) == 256 * (256 * FieldLimit(2));
    assert FieldLimit(6) == 256 * (256 * FieldLimit(4));
    assert FieldLimit(8) == 256 * (256 * FieldLimit(6));
  }

  lemma {:induction false} LittleEndianRoundTrip(n: nat, k: nat)
    requires n < FieldLimit(k)
    ensures FromLittleEndian(LittleEndian(n, k)) == n
  {
    if k > 0 {
      LittleEndianRoundTrip(n / 256, k - 1);
      assert LittleEndian(n, k)[1..] == LittleEndian(n / 256, k - 1);
    }
  }

  lemma {:induction false} BigEndianRoundTrip(n: nat, k: nat)
    requires n < FieldLimit(k)
    ensures FromBigEndian(BigEndian(n, k)) == n
  {
    if k > 0 {
      BigEndianRoundTrip(n / 256, k - 1);
      assert BigEndian(n, k)[..k - 1] == BigEndian(n / 256, k - 1);
    }
  }
}
