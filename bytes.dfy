/** Octets and the fixed-width integer encodings the packer writes. */
module Bytes {

  /** One octet, Swift's `UInt8`. */
  type byte = x: int | 0 <= x < 0x100

  type Bytes = seq<byte>

  /** The range of Swift's `UInt32`. */
  type u32 = x: int | 0 <= x < 0x1_0000_0000

  /** `n` zero bytes, as `[UInt8](repeating: 0x0, count: n)`. */
  function Zeros(n: nat): (z: Bytes)
    ensures |z| == n
    ensures forall k :: 0 <= k < n ==> z[k] == 0
  {
    seq(n, _ => 0)
  }

  /** A 16-bit value least significant byte first (`UInt16.littleEndian`). */
  function LE16(n: nat): (r: Bytes)
    requires n <= 0xFFFF
  {
    [n % 0x100, n / 0x100]
  }

  /** Reads two bytes back as a little-endian 16-bit value. */
  function LE16Value(lo: byte, hi: byte): nat
  {
    lo as int + 0x100 * hi as int
  }

  lemma LE16RoundTrip(n: nat)
    requires n <= 0xFFFF
    ensures |LE16(n)| == 2 && LE16Value(LE16(n)[0], LE16(n)[1]) == n
  {
  }

  /** ... and every pair of bytes is the encoding of the value it reads as. */
  lemma LE16ValueRoundTrip(lo: byte, hi: byte)
    ensures LE16Value(lo, hi) <= 0xFFFF && LE16(LE16Value(lo, hi)) == [lo, hi]
  {
  }

  /** A 32-bit value most significant byte first (`UInt32.bigEndian`, and
      `Int32.bigEndian` of a non-negative value). */
  function BE32(n: u32): (r: Bytes)
  {
    var hi, lo := n / 0x1_0000, n % 0x1_0000;
    [hi / 0x100, hi % 0x100, lo / 0x100, lo % 0x100]
  }

  /** Reads four bytes back as a big-endian 32-bit value. */
  function BE32Value(s: Bytes): nat
    requires |s| == 4
  {
    0x1_0000 * (0x100 * s[0] as int + s[1] as int) + (0x100 * s[2] as int + s[3] as int)
  }

  lemma BE32RoundTrip(n: u32)
    ensures |BE32(n)| == 4 && BE32Value(BE32(n)) == n
  {
    var hi, lo := n / 0x1_0000, n % 0x1_0000;
    assert 0x100 * (hi / 0x100) + hi % 0x100 == hi;
    assert 0x100 * (lo / 0x100) + lo % 0x100 == lo;
  }

  /** Monotonicity of a product, which the solver does not find alone. */
  lemma MulMono(a: nat, b: nat, c: nat)
    requires a <= b
    ensures a * c <= b * c
  {
  }

  /** One more factor of `w`, stated once so callers need no nonlinear step. */
  lemma MulSucc(k: nat, w: nat)
    ensures (k + 1) * w == k * w + w
  {
  }

  /** ... and one more to the other factor. */
  lemma MulAddOne(k: nat, w: nat)
    ensures k * (w + 1) == k * w + k
  {
  }

  /** A product with a factor one more than another. */
  lemma MulNext(k: nat, m: nat, w: nat)
    requires k == m + 1
    ensures w * k == w * m + w
  {
  }
}
