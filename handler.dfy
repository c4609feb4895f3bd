/** The connection handler itself: one object per connection holding the
    configured password, the `loggedIn` flag, the frames written to the
    channel so far and whether the proxy was asked to shut down. */
module Handler {
  import opened Int32Codec
  import opened Frame
  import Utf8
  import opened Fragmenter
  import opened Router
  import opened Session

  /** The readable part of the inbound buffer: its bytes and the reader
      index that `readInt` and `readBytes` advance. */
  class InboundBuffer {
    const data: seq<byte>
    var readerIndex: nat

    ghost predicate Valid()
      reads this
    {
      readerIndex <= |data|
    }

    function Readable(): nat
      reads this
      requires Valid()
    {
      |data| - readerIndex
    }

    function Remaining(): seq<byte>
      reads this
      requires Valid()
    {
      data[readerIndex..]
    }

    constructor (data: seq<byte>)
      ensures Valid() && this.data == data && readerIndex == 0
    {
      this.data := data;
      readerIndex := 0;
    }

    /** `readInt` on a little-endian buffer. */
    method ReadInt() returns (x: int32)
      requires Valid() && Readable() >= 4
      modifies this
      ensures Valid() && readerIndex == old(readerIndex) + 4
      ensures x == DecodeInt32LE(old(Remaining())[..4])
    {
      x := DecodeInt32LE(data[readerIndex..readerIndex + 4]);
      readerIndex := readerIndex + 4;
    }

    /** `readBytes(n)`. */
    method ReadBytes(n: nat) returns (bs: seq<byte>)
      requires Valid() && Readable() >= n
      modifies this
      ensures Valid() && readerIndex == old(readerIndex) + n
      ensures bs == old(Remaining())[..n]
    {
      bs := data[readerIndex..readerIndex + n];
      readerIndex := readerIndex + n;
    }
  }

  class RconHandler {
    const password: string
    var loggedIn: bool
    /** Every frame handed to `ctx.write`, in order. */
    var written: seq<seq<byte>>
    /** Set once `getServer().shutdown()` has been called. */
    var shutdownRequested: bool

    constructor (password: string)
      ensures this.password == password
      ensures !loggedIn && written == [] && !shutdownRequested
    {
      this.password := password;
      loggedIn := false;
      written := [];
      shutdownRequested := false;
    }

    /** `channelRead0`: read one body and act on it. Fewer than 8 readable
        bytes are not read and get no reply; 8 or 9 fail once the header
        has been read; a full body is dispatched on its type. */
    method ChannelRead(buf: InboundBuffer, env: Collaborators) returns (decoding: Decoding)
      requires buf.Valid()
      modifies this, buf
      ensures buf.Valid()
      ensures decoding == DecodeBody(old(buf.Remaining()))
      ensures !decoding.Decoded? ==>
        && loggedIn == old(loggedIn) && written == old(written)
        && shutdownRequested == old(shutdownRequested)
      ensures decoding.TooShort? ==> buf.readerIndex == old(buf.readerIndex)
      ensures decoding.NegativePayloadSize? ==> buf.readerIndex == old(buf.readerIndex) + 8
      ensures decoding.Decoded? ==>
        && buf.readerIndex == |buf.data|
        && var e := Dispatch(password, old(loggedIn), decoding.packet, env);
        && loggedIn == e.loggedIn
        && written == old(written) + Frames(e.replies)
        && shutdownRequested == (old(shutdownRequested) || e.shutdown)
    {
      ghost var body := buf.Remaining();
      ghost var at := buf.readerIndex;
      if buf.Readable() < 8 {
        return TooShort;
      }
      var requestId := buf.ReadInt();
      assert requestId == DecodeInt32LE(body[0..4]);
      var kind := buf.ReadInt();
      assert buf.data[at + 4..][..4] == body[4..8];
      var size := buf.Readable() - 2;
      if size < 0 {
        return NegativePayloadSize(size);
      }
      var payloadData := buf.ReadBytes(size);
      assert buf.data[at + 8..][..size] == body[8..|body| - 2];
      var _ := buf.ReadBytes(2);
      decoding := Decoded(Packet(requestId, kind, payloadData));
      HandlePacket(decoding.packet, env);
    }

    /** The dispatch at the end of `channelRead0`, on a decoded packet. */
    method HandlePacket(p: Packet, env: Collaborators)
      modifies this`loggedIn, this`written, this`shutdownRequested
      ensures var e := Dispatch(password, old(loggedIn), p, env);
        && loggedIn == e.loggedIn
        && written == old(written) + Frames(e.replies)
        && shutdownRequested == (old(shutdownRequested) || e.shutdown)
    {
      var payload := Utf8.Decode(p.payload);
      if p.kind == TYPE_LOGIN {
        HandleLogin(payload, p.requestId);
      } else if p.kind == TYPE_COMMAND {
        HandleCommand(payload, p.requestId, env);
      } else {
        SendLargeResponse(p.requestId, UnknownRequestMessage(p.kind));
      }
    }

    /** `handleLogin`: the password logs in, anything else logs out. */
    method HandleLogin(payload: string, requestId: int32)
      modifies this`loggedIn, this`written
      ensures loggedIn == (password == payload)
      ensures written == old(written) + Frames(
        if password == payload then [Packet(requestId, TYPE_COMMAND, [])]
        else [Packet(FAILURE, TYPE_COMMAND, [])])
    {
      if password == payload {
        loggedIn := true;
        SendResponse(requestId, TYPE_COMMAND, "");
      } else {
        loggedIn := false;
        SendResponse(FAILURE, TYPE_COMMAND, "");
      }
    }

    /** `handleCommand`: refused before login, routed after. */
    method HandleCommand(payload: string, requestId: int32, env: Collaborators)
      modifies this`written, this`shutdownRequested
      ensures !loggedIn ==>
        written == old(written) + Frames([Packet(FAILURE, TYPE_COMMAND, [])])
        && shutdownRequested == old(shutdownRequested)
      ensures loggedIn ==>
        var routed := Route(payload, env);
        && written == old(written) + Frames(Fragment(requestId, routed.reply))
        && shutdownRequested == (old(shutdownRequested) || routed.shutdown)
    {
      if !loggedIn {
        SendResponse(FAILURE, TYPE_COMMAND, "");
        return;
      }
      var routed := Route(payload, env);
      SendLargeResponse(requestId, routed.reply);
      if routed.shutdown {
        shutdownRequested := true;
      }
    }

    /** `sendResponse`: write the id, the type, the payload's UTF-8 bytes and
        two zero bytes as one frame. */
    method SendResponse(requestId: int32, kind: int32, payload: string)
      modifies this`written
      ensures written == old(written) + [EncodePacket(Packet(requestId, kind, Utf8.Encode(payload)))]
    {
      var frame: seq<byte> := [];
      frame := frame + EncodeInt32LE(requestId);
      frame := frame + EncodeInt32LE(kind);
      frame := frame + Utf8.Encode(payload);
      frame := frame + [0];
      frame := frame + [0];
      assert frame == EncodeInt32LE(requestId) + EncodeInt32LE(kind) + Utf8.Encode(payload) + [0, 0];
      written := written + [frame];
    }

    /** `sendLargeResponse`: one empty packet for empty text, otherwise one
        packet per run of at most 2048 characters, in order. */
    method SendLargeResponse(requestId: int32, payload: string)
      modifies this`written
      ensures written == old(written) + Frames(Fragment(requestId, payload))
    {
      if payload == [] {
        SendResponse(requestId, TYPE_RESPONSE, "");
        return;
      }
      var start := 0;
      ghost var sent: seq<string> := [];
      assert payload[start..] == payload;
      while start < |payload|
        invariant 0 <= start <= |payload|
        invariant Chunks(payload) == sent + Chunks(payload[start..])
        invariant written == old(written) + Frames(ResponsePackets(requestId, sent))
      {
        var length := if |payload| - start < CHUNK_SIZE then |payload| - start else CHUNK_SIZE;
        var piece := payload[start..start + length];
        ghost var before := written;
        SendResponse(requestId, TYPE_RESPONSE, piece);
        SentAdvance(payload, start, sent);
        PieceSent(requestId, sent, piece, old(written), before, written);
        sent := sent + [piece];
        start := start + length;
      }
      assert Chunks(payload[start..]) == [];
      assert sent == Chunks(payload);
    }
  }

  /** One turn of the loop of `sendLargeResponse` keeps the frame part of
      its invariant: one frame has been written for each piece sent, in
      order. */
  lemma PieceSent(requestId: int32, sent: seq<string>, piece: string,
                  initial: seq<seq<byte>>, before: seq<seq<byte>>, after: seq<seq<byte>>)
    requires before == initial + Frames(ResponsePackets(requestId, sent))
    requires after == before + [EncodePacket(Packet(requestId, TYPE_RESPONSE, Utf8.Encode(piece)))]
    ensures after == initial + Frames(ResponsePackets(requestId, sent + [piece]))
  {
    ResponseFramesSnoc(requestId, sent, piece);
    var frame := EncodePacket(ResponsePacket(requestId, piece));
    var framesSent := Frames(ResponsePackets(requestId, sent));
    assert after == (initial + framesSent) + [frame];
    assert (initial + framesSent) + [frame] == initial + (framesSent + [frame]);
  }
}
