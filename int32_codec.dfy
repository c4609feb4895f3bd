/** Little-endian two's-complement 32-bit integers, as Netty's ByteBuf
    reads and writes them once its byte order is set to LITTLE_ENDIAN. */
module Int32Codec {

  /** One octet on the wire. */
  type byte = b: int | 0 <= b < 0x100

  /** Java's `int`. */
  type int32 = x: int | -0x8000_0000 <= x < 0x8000_0000

  const TWO_32: int := 0x1_0000_0000

  /** The unsigned reading of the 32 bits of `x` (two's complement). */
  function Unsigned32(x: int32): (u: nat)
    ensures u < TWO_32
    ensures (u - x) % TWO_32 == 0
    ensures 0 <= x ==> u == x
  {
    if x < 0 then x + TWO_32 else x
  }

  /** The signed value whose 32 bits read as `u`. */
  function Signed32(u: nat): (x: int32)
    requires u < TWO_32
    ensures Unsigned32(x) == u
  {
    if u < 0x8000_0000 then u else u - TWO_32
  }

  /** `writeInt` on a little-endian buffer: least significant byte first. */
  function EncodeInt32LE(x: int32): (bs: seq<byte>)
    ensures |bs| == 4
  {
    var u := Unsigned32(x);
    [u % 0x100, (u / 0x100) % 0x100, (u / 0x1_0000) % 0x100, u / 0x100_0000]
  }

  /** The unsigned value of four bytes, least significant first. */
  function LittleEndianValue(bs: seq<byte>): (u: nat)
    requires |bs| == 4
    ensures u < TWO_32
  {
    bs[0] as int + 0x100 * (bs[1] as int) + 0x1_0000 * (bs[2] as int) + 0x100_0000 * (bs[3] as int)
  }

  /** `readInt` on a little-endian buffer. */
  function DecodeInt32LE(bs: seq<byte>): int32
    requires |bs| == 4
  {
    Signed32(LittleEndianValue(bs))
  }

  lemma UnsignedInjective(x: int32, y: int32)
    requires Unsigned32(x) == Unsigned32(y)
    ensures x == y
  {
  }

  /** Reading back what was written gives the same int. */
  lemma DecodeEncodeInt32(x: int32)
    ensures DecodeInt32LE(EncodeInt32LE(x)) == x
  {
    var u := Unsigned32(x);
    var bs := EncodeInt32LE(x);
    var q1, q2 := u / 0x100, u / 0x1_0000;
    assert u == bs[0] + 0x100 * q1;
    assert q1 == bs[1] + 0x100 * q2;
    assert q2 == bs[2] as int + 0x100 * (bs[3] as int);
    assert LittleEndianValue(bs) == u;
    UnsignedInjective(DecodeInt32LE(bs), x);
  }

  /** Every 4-byte group is the encoding of the int it decodes to. */
  lemma EncodeDecodeInt32(bs: seq<byte>)
    requires |bs| == 4
    ensures EncodeInt32LE(DecodeInt32LE(bs)) == bs
  {
    var u := LittleEndianValue(bs);
    var r := EncodeInt32LE(DecodeInt32LE(bs));
    assert Unsigned32(DecodeInt32LE(bs)) == u;
    assert u / 0x100 == bs[1] as int + 0x100 * (bs[2] as int) + 0x1_0000 * (bs[3] as int);
    assert u / 0x1_0000 == bs[2] as int + 0x100 * (bs[3] as int);
    assert r == bs;
  }

  /** The source's FAILURE request id, the byte -1 widened to int. */
  lemma FailureSentinelBytes()
    ensures EncodeInt32LE(-1) == [0xFF, 0xFF, 0xFF, 0xFF]
  {
  }
}
