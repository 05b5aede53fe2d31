/** Bytes and the big-endian readings of them that the credential code uses. */
module Bytes {

  /** One octet, as a `Uint8Array` element holds it. */
  type byte = x: int | 0 <= x < 256

  /** An unsigned 16-bit big-endian integer (`DataView.getUint16(0)`). */
  function U16(hi: byte, lo: byte): (v: nat)
    ensures v < 0x1_0000
  {
    hi * 0x100 + lo
  }

  /** An unsigned 32-bit big-endian integer (`DataView.getUint32(0)`). */
  function U32(b0: byte, b1: byte, b2: byte, b3: byte): (v: nat)
    ensures v < 0x1_0000_0000
  {
    ((b0 * 0x100 + b1) * 0x100 + b2) * 0x100 + b3
  }

  /** `(x >> k) & 1` for the bit positions 0..7 of one byte. */
  function Bit(x: byte, k: nat): bool
    requires k < 8
  {
    (x / Pow2(k)) % 2 == 1
  }

  function Pow2(k: nat): (p: nat)
    ensures p >= 1
  {
    if k == 0 then 1 else 2 * Pow2(k - 1)
  }

  /** The six flag positions the parser reads, as plain divisions. */
  lemma FlagBits(x: byte)
    ensures Bit(x, 0) == (x % 2 == 1) && Bit(x, 2) == ((x / 4) % 2 == 1)
    ensures Bit(x, 3) == ((x / 8) % 2 == 1) && Bit(x, 4) == ((x / 16) % 2 == 1)
    ensures Bit(x, 6) == ((x / 64) % 2 == 1) && Bit(x, 7) == (x / 128 == 1)
  {
    assert Pow2(0) == 1 && Pow2(2) == 4 && Pow2(3) == 8 && Pow2(4) == 16;
    assert Pow2(6) == 64 && Pow2(7) == 128;
    assert x / 128 < 2;
  }

  /** The smaller of two integers, as `Math.min` gives it. */
  function Min(a: int, b: int): (m: int)
    ensures m <= a && m <= b && (m == a || m == b)
  {
    if a <= b then a else b
  }

  /** The byte sequence of `n` zero octets. */
  function Zeros(n: nat): (z: seq<byte>)
    ensures |z| == n && forall i :: 0 <= i < n ==> z[i] == 0
  {
    seq(n, _ => 0)
  }
}
