/** The RCON packet body and its codec: a little-endian int32 request id, a
    little-endian int32 type, the payload bytes and two padding bytes. The
    length prefix in front of the body is stripped before the handler sees
    it and is not part of this model. */
module Frame {
  import opened Int32Codec

  /** The constants of the handler; each is a Java byte widened to int. */
  const FAILURE: int32 := -1
  const TYPE_RESPONSE: int32 := 0
  const TYPE_COMMAND: int32 := 2
  const TYPE_LOGIN: int32 := 3

  datatype Packet = Packet(requestId: int32, kind: int32, payload: seq<byte>)

  /** The byte frames written for a sequence of packets, in order. */
  function Frames(ps: seq<Packet>): (fs: seq<seq<byte>>)
    ensures |fs| == |ps|
  {
    seq(|ps|, i requires 0 <= i < |ps| => EncodePacket(ps[i]))
  }

  /** What reading one body yields. `TooShort`: fewer than 8 readable
      bytes, nothing is read and the body gets no reply; the inbound
      handler releases it on return, so it is not kept for a later read.
      `NegativePayloadSize`: 8 or 9 readable bytes,
      the header is read and allocating the payload array fails. */
  datatype Decoding =
    | TooShort
    | NegativePayloadSize(size: int)
    | Decoded(packet: Packet)

  /** The bytes `sendResponse` writes for one packet. */
  function EncodePacket(p: Packet): (bs: seq<byte>)
  {
    EncodeInt32LE(p.requestId) + EncodeInt32LE(p.kind) + p.payload + [0, 0]
  }

  /** The packet `channelRead0` reads from a buffer holding `buf`. The two
      padding bytes are skipped without being looked at. */
  function DecodeBody(buf: seq<byte>): (r: Decoding)
    ensures r.TooShort? <==> |buf| < 8
    ensures r.NegativePayloadSize? <==> 8 <= |buf| < 10
    ensures r.NegativePayloadSize? ==> r.size == |buf| - 10 < 0
    ensures r.Decoded? ==> |r.packet.payload| == |buf| - 10
  {
    if |buf| < 8 then TooShort
    else if |buf| - 10 < 0 then NegativePayloadSize(|buf| - 10)
    else Decoded(Packet(DecodeInt32LE(buf[0..4]), DecodeInt32LE(buf[4..8]), buf[8..|buf| - 2]))
  }

  /** The encoded body is exactly 8 + |payload| + 2 bytes: the two ints
      little-endian, then the payload, then two zero bytes. */
  lemma EncodePacketLayout(p: Packet)
    ensures var bs := EncodePacket(p);
      && |bs| == 10 + |p.payload|
      && bs[..4] == EncodeInt32LE(p.requestId)
      && bs[4..8] == EncodeInt32LE(p.kind)
      && bs[8..8 + |p.payload|] == p.payload
      && bs[|bs| - 2..] == [0, 0]
  {
  }

  /** Decoding what was encoded gives the packet back. */
  lemma DecodeEncodePacket(p: Packet)
    ensures DecodeBody(EncodePacket(p)) == Decoded(p)
  {
    var bs := EncodePacket(p);
    EncodePacketLayout(p);
    DecodeEncodeInt32(p.requestId);
    DecodeEncodeInt32(p.kind);
    assert bs[8..|bs| - 2] == p.payload;
  }

  /** A body of 10 or more bytes decodes to a packet whose encoding is that
      body exactly when its padding bytes are both zero. */
  lemma EncodeDecodePacket(buf: seq<byte>)
    requires |buf| >= 10
    ensures DecodeBody(buf).Decoded?
    ensures EncodePacket(DecodeBody(buf).packet) == buf <==> buf[|buf| - 2..] == [0, 0]
  {
    var p := DecodeBody(buf).packet;
    EncodeDecodeInt32(buf[0..4]);
    EncodeDecodeInt32(buf[4..8]);
    EncodePacketLayout(p);
    if buf[|buf| - 2..] == [0, 0] {
      assert buf == buf[0..4] + buf[4..8] + buf[8..|buf| - 2] + buf[|buf| - 2..];
    }
  }

  /** The two padding bytes are read and thrown away: whatever they hold,
      the body decodes as if they were zero. */
  lemma DecodeBodyIgnoresPadding(buf: seq<byte>)
    requires |buf| >= 10
    ensures DecodeBody(buf) == DecodeBody(buf[..|buf| - 2] + [0, 0])
  {
    var z := buf[..|buf| - 2] + [0, 0];
    assert z[0..4] == buf[0..4] && z[4..8] == buf[4..8];
    assert z[8..|z| - 2] == buf[8..|buf| - 2];
  }

  /** The login failure reply carries FF FF FF FF as its request id. */
  lemma FailureReplyBytes()
    ensures EncodePacket(Packet(FAILURE, TYPE_COMMAND, [])) == [0xFF, 0xFF, 0xFF, 0xFF, 2, 0, 0, 0, 0, 0]
  {
    FailureSentinelBytes();
  }
}
