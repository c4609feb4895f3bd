/** The plan `sendLargeResponse` follows: a response text is cut into pieces
    of at most 2048 characters, each sent as a RESPONSE packet with the
    request's id; an empty text still gets one empty packet. */
module Fragmenter {
  import opened Int32Codec
  import opened Frame
  import Utf8

  const CHUNK_SIZE: nat := 2048

  /** The pieces the loop cuts, in order. */
  function Chunks(s: string): seq<string>
    decreases |s|
  {
    if s == [] then []
    else if |s| <= CHUNK_SIZE then [s]
    else [s[..CHUNK_SIZE]] + Chunks(s[CHUNK_SIZE..])
  }

  function Concat(parts: seq<string>): string
    decreases |parts|
  {
    if parts == [] then [] else parts[0] + Concat(parts[1..])
  }

  /** The RESPONSE packet carrying one piece. */
  function ResponsePacket(requestId: int32, text: string): Packet {
    Packet(requestId, TYPE_RESPONSE, Utf8.Encode(text))
  }

  /** One RESPONSE packet per piece, in order. */
  function ResponsePackets(requestId: int32, pieces: seq<string>): (ps: seq<Packet>)
    ensures |ps| == |pieces|
  {
    seq(|pieces|, i requires 0 <= i < |pieces| => ResponsePacket(requestId, pieces[i]))
  }

  /** The packets `sendLargeResponse(requestId, s)` writes, in order. */
  function Fragment(requestId: int32, s: string): (ps: seq<Packet>)
  {
    if s == [] then [ResponsePacket(requestId, [])] else ResponsePackets(requestId, Chunks(s))
  }

  /** ceil(n / 2048). */
  function CeilChunks(n: nat): nat {
    (n + CHUNK_SIZE - 1) / CHUNK_SIZE
  }

  /** Cutting loses and reorders nothing: the pieces concatenated in order
      are the text. */
  lemma {:induction false} ChunksConcat(s: string)
    ensures Concat(Chunks(s)) == s
    decreases |s|
  {
    if |s| > CHUNK_SIZE {
      ChunksConcat(s[CHUNK_SIZE..]);
      assert Chunks(s)[1..] == Chunks(s[CHUNK_SIZE..]);
      assert s == s[..CHUNK_SIZE] + s[CHUNK_SIZE..];
    } else if s != [] {
      assert Chunks(s)[1..] == [];
      assert s + [] == s;
    }
  }

  /** There are ceil(|s| / 2048) pieces, each of 1..2048 characters, and
      every piece but the last has exactly 2048. */
  lemma {:induction false} ChunksShape(s: string)
    ensures |Chunks(s)| == CeilChunks(|s|)
    ensures forall i :: 0 <= i < |Chunks(s)| ==> 1 <= |Chunks(s)[i]| <= CHUNK_SIZE
    ensures forall i :: 0 <= i < |Chunks(s)| - 1 ==> |Chunks(s)[i]| == CHUNK_SIZE
    decreases |s|
  {
    if |s| > CHUNK_SIZE {
      var rest := Chunks(s[CHUNK_SIZE..]);
      ChunksShape(s[CHUNK_SIZE..]);
      assert Chunks(s) == [s[..CHUNK_SIZE]] + rest;
      assert CeilChunks(|s|) == 1 + CeilChunks(|s| - CHUNK_SIZE);
      forall i | 1 <= i < |Chunks(s)| ensures Chunks(s)[i] == rest[i - 1] {
      }
    }
  }

  /** The packets of a non-empty text: one per piece, in order, all carrying
      the request id and the RESPONSE type. */
  lemma FragmentNonEmpty(requestId: int32, s: string)
    requires s != []
    ensures var ps := Fragment(requestId, s);
      && |ps| == CeilChunks(|s|) >= 1
      && (forall i :: 0 <= i < |ps| ==> ps[i].requestId == requestId && ps[i].kind == TYPE_RESPONSE)
      && (forall i :: 0 <= i < |ps| ==> ps[i].payload == Utf8.Encode(Chunks(s)[i]))
  {
    ChunksShape(s);
  }

  /** Empty text still gets exactly one packet, with an empty payload. */
  lemma FragmentEmpty(requestId: int32)
    ensures Fragment(requestId, []) == [Packet(requestId, TYPE_RESPONSE, [])]
  {
    assert Utf8.Encode([]) == [];
  }

  /** Text of at most 2048 characters goes out as a single packet. */
  lemma FragmentShort(requestId: int32, s: string)
    requires |s| <= CHUNK_SIZE
    ensures Fragment(requestId, s) == [ResponsePacket(requestId, s)]
  {
    if s == [] {
      FragmentEmpty(requestId);
    } else {
      assert Chunks(s) == [s];
    }
  }

  function Payloads(ps: seq<Packet>): seq<byte>
    decreases |ps|
  {
    if ps == [] then [] else ps[0].payload + Payloads(ps[1..])
  }

  /** A client that concatenates the payloads of the packets in order gets
      the UTF-8 encoding of the whole text. */
  lemma {:induction false} FragmentPayloads(requestId: int32, s: string)
    ensures Payloads(Fragment(requestId, s)) == Utf8.Encode(s)
    decreases |s|
  {
    if s == [] {
      assert Payloads(Fragment(requestId, s)) == Utf8.Encode([]) + [];
    } else if |s| <= CHUNK_SIZE {
      FragmentShort(requestId, s);
      assert Payloads(Fragment(requestId, s)) == Utf8.Encode(s) + Payloads([]);
    } else {
      var tail := s[CHUNK_SIZE..];
      FragmentPayloads(requestId, tail);
      var ps := Fragment(requestId, s);
      assert ps[1..] == Fragment(requestId, tail);
      assert s == s[..CHUNK_SIZE] + tail;
      Utf8.EncodeAppend(s[..CHUNK_SIZE], tail);
    }
  }

  /** For ASCII text no packet payload exceeds 2048 bytes. */
  lemma FragmentAsciiBound(requestId: int32, s: string)
    requires Utf8.IsAscii(s)
    ensures forall p :: p in Fragment(requestId, s) ==> |p.payload| <= CHUNK_SIZE
  {
    if s != [] {
      ChunksShape(s);
      forall i | 0 <= i < |Chunks(s)| ensures |Utf8.Encode(Chunks(s)[i])| <= CHUNK_SIZE {
        ChunkIsSlice(s, i);
        var c := Chunks(s)[i];
        assert Utf8.IsAscii(c) by {
          forall j | 0 <= j < |c| ensures c[j] as int < 0x80 {
            assert c[j] == s[i * CHUNK_SIZE + j];
          }
        }
        Utf8.EncodeLength(c);
      }
    } else {
      FragmentEmpty(requestId);
    }
  }

  /** Piece i is the slice of the text starting at i * 2048. */
  lemma {:induction false} ChunkIsSlice(s: string, i: nat)
    requires i < |Chunks(s)|
    ensures i * CHUNK_SIZE + |Chunks(s)[i]| <= |s|
    ensures Chunks(s)[i] == s[i * CHUNK_SIZE .. i * CHUNK_SIZE + |Chunks(s)[i]|]
    decreases |s|
  {
    if i > 0 {
      ChunkIsSlice(s[CHUNK_SIZE..], i - 1);
    }
  }

  /** One turn of the loop in `sendLargeResponse`: the piece starting at
      `start` is the first of the pieces of what is left. */
  lemma ChunksStep(s: string, start: nat)
    requires start < |s|
    ensures var length := if |s| - start < CHUNK_SIZE then |s| - start else CHUNK_SIZE;
      Chunks(s[start..]) == [s[start..start + length]] + Chunks(s[start + length..])
  {
    var rest := s[start..];
    if |rest| > CHUNK_SIZE {
      assert rest[..CHUNK_SIZE] == s[start..start + CHUNK_SIZE];
      assert rest[CHUNK_SIZE..] == s[start + CHUNK_SIZE..];
    } else {
      assert rest == s[start..|s|];
      assert s[|s|..] == [];
    }
  }

  /** Sending one more piece appends one more frame. */
  lemma ResponseFramesSnoc(requestId: int32, pieces: seq<string>, piece: string)
    ensures Frames(ResponsePackets(requestId, pieces + [piece]))
         == Frames(ResponsePackets(requestId, pieces)) + [EncodePacket(ResponsePacket(requestId, piece))]
  {
    var a := Frames(ResponsePackets(requestId, pieces + [piece]));
    var b := Frames(ResponsePackets(requestId, pieces)) + [EncodePacket(ResponsePacket(requestId, piece))];
    assert |a| == |b|;
    forall i | 0 <= i < |a| ensures a[i] == b[i] {
      if i < |pieces| {
        assert (pieces + [piece])[i] == pieces[i];
      }
    }
  }

  /** The invariant of that loop carried over one turn: the pieces sent so
      far, then the pieces of what is left, are all the pieces. */
  lemma SentAdvance(s: string, start: nat, sent: seq<string>)
    requires start < |s| && Chunks(s) == sent + Chunks(s[start..])
    ensures var length := if |s| - start < CHUNK_SIZE then |s| - start else CHUNK_SIZE;
      Chunks(s) == (sent + [s[start..start + length]]) + Chunks(s[start + length..])
  {
    ChunksStep(s, start);
  }
}
