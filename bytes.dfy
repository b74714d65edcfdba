/**
 * The little-endian integer images that a QDataStream set to
 * QDataStream::LittleEndian produces for quint8, qint16 and quint32,
 * together with the decoders that read them back.
 */
module Bytes {

  /** An octet, as the unsigned value it carries. */
  newtype byte = x: int | 0 <= x < 0x100

  const TWO_16: int := 0x1_0000
  const TWO_32: int := 0x1_0000_0000

  /** The low eight bits of v (two's complement), as a byte. */
  function LowByte(v: int): (b: byte)
    ensures (v - b as int) % 0x100 == 0
  {
    (v % 0x100) as byte
  }

  /**
   * The bytes streamed for quint32(n): n reduced modulo 2^32,
   * least significant byte first.
   */
  function U32LE(n: int): (r: seq<byte>)
    ensures |r| == 4
  {
    var u := n % TWO_32;
    [LowByte(u), LowByte(u / 0x100), LowByte(u / 0x1_0000), LowByte(u / 0x100_0000)]
  }

  /** Reads four bytes back as an unsigned little-endian 32-bit value. */
  function U32Of(b: seq<byte>): (n: int)
    requires |b| == 4
    ensures 0 <= n < TWO_32
  {
    b[0] as int + 0x100 * b[1] as int + 0x1_0000 * b[2] as int + 0x100_0000 * b[3] as int
  }

  /** quint32(n) is n modulo 2^32, and that is what a reader gets back. */
  lemma U32RoundTrip(n: int)
    ensures U32Of(U32LE(n)) == n % TWO_32
  {
    var u := n % TWO_32;
    var q1, q2, q3 := u / 0x100, u / 0x1_0000, u / 0x100_0000;
    assert q2 == q1 / 0x100;
    assert q3 == q2 / 0x100;
    assert q3 < 0x100;
    assert u == u % 0x100 + 0x100 * q1;
    assert q1 == q1 % 0x100 + 0x100 * q2;
    assert q2 == q2 % 0x100 + 0x100 * q3;
  }

  /** The value of qint16(v): v reduced into [-2^15, 2^15) modulo 2^16. */
  function Wrap16(v: int): (r: int)
    ensures -0x8000 <= r < 0x8000
    ensures (v - r) % TWO_16 == 0
    ensures -0x8000 <= v < 0x8000 ==> r == v
  {
    var u := v % TWO_16;
    if u < 0x8000 then u else u - TWO_16
  }

  /**
   * The bytes streamed for qint16(v): the two's complement image of v
   * modulo 2^16, least significant byte first.
   */
  function Int16LE(v: int): (r: seq<byte>)
    ensures |r| == 2
  {
    var u := v % TWO_16;
    [LowByte(u), LowByte(u / 0x100)]
  }

  /** Reads two bytes back as a signed little-endian 16-bit value. */
  function Int16Of(lo: byte, hi: byte): (r: int)
    ensures -0x8000 <= r < 0x8000
  {
    var u := lo as int + 0x100 * hi as int;
    if u < 0x8000 then u else u - TWO_16
  }

  /**
   * Reading back what qint16(v) streamed gives the truncated value
   * Wrap16(v); -1 is streamed as 0xFF 0xFF.
   */
  lemma Int16RoundTrip(v: int)
    ensures Int16Of(Int16LE(v)[0], Int16LE(v)[1]) == Wrap16(v)
    ensures v == -1 ==> Int16LE(v) == [0xFF, 0xFF]
  {
    var u := v % TWO_16;
    var q := u / 0x100;
    assert q < 0x100;
    assert u == u % 0x100 + 0x100 * q;
  }
}
