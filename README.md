# RCON handler model

A Dafny model of `RconHandler`, the per-connection handler on the server side of the
Source RCON protocol in the Velocity RCON plugin. It covers five things:

- The packet body codec: a little-endian two's-complement int32 request id, then an int32 type, then the payload, then two padding bytes.
- The per-connection login state (`loggedIn`).
- The gate that refuses commands before login.
- The command router:
  - shutdown words first;
  - then the `lpv` permission sub-commands;
  - then generic execution;
  - all under a catch-all that answers `Error: ` and the fault's message.
- `sendLargeResponse`, which cuts a reply into packets of at most 2048 characters, and the `Unknown request <hex>` reply to a packet of any other type.

Modules, in dependency order:

| module | file | what it holds |
|---|---|---|
| `Int32Codec` | `int32_codec.dfy` | bytes, int32, the two's-complement reading, the little-endian codec |
| `Utf8` | `utf8.dfy` | `getBytes(UTF_8)` for all scalar values; `new String(…, UTF_8)` for ASCII |
| `JavaText` | `java_text.dfy` | `startsWith`, `equalsIgnoreCase`, `trim` and `split(" ")` as Java defines them |
| `HexFormat` | `hex_format.dfy` | `Integer.toHexString` and a hexadecimal reader as its inverse |
| `Frame` | `frame.dfy` | the packet body, its constants, its encoder and decoder |
| `Fragmenter` | `fragmenter.dfy` | the 2048-character cutting plan that `sendLargeResponse` follows |
| `Router` | `router.dfy` | `handleCommand` once logged in, as a pure function of the command and of the outside calls' results |
| `Session` | `session.dfy` | what one packet does to a connection (`Dispatch`), and a connection's lifetime over many packets (`Run`) |
| `Handler` | `handler.dfy` | the classes `InboundBuffer` (reader index over the inbound bytes) and `RconHandler` (the `loggedIn` field, the frames written, the shutdown request), whose methods are proved against `Session.Dispatch` and `Fragmenter.Fragment` |

Outside calls are inputs, gathered in `Router.Collaborators`:

- LuckPerms: provider lookup, `loadUser`, the group update with `saveUser`, the primary group and the permission map.
- `UUID.fromString`.
- The command manager's `executeAsync(...).join()`.
- The command source's `flush()`.
- The message of the index fault that `substring(4)` raises on a bare `lpv`.

Each of these is given as its result or as the message of the exception it throws. The proxy's `shutdown()` is an output flag.

Behaviour of the code worth knowing, all of it modelled as written:

- A wrong password logs a logged-in connection out: `handleLogin` sets `loggedIn = false` (line 67) and answers with id -1.
- An `lpv` command of no recognised shape goes on to generic execution (line 152).
- The `lpv` prefix is matched without a trailing space (line 89). `substring(4)` (line 91) then drops the fourth character whatever it is, and a bare `lpv` fails with an index fault that the outer catch answers as `Error: …`.
- A body of 8 or 9 bytes is neither decoded nor left for later: allocating the payload array with a negative size (line 46) fails after the header has been read.

## Model

| member | source | states |
|---|---|---|
| Int32Codec.Unsigned32 | src/main/java/me/uniodex/velocityrcon/server/RconHandler.java:57 | the unsigned 32-bit reading of an int is below 2^32, congruent to it modulo 2^32, and the int itself when non-negative |
| Int32Codec.Signed32 | src/main/java/me/uniodex/velocityrcon/server/RconHandler.java:43-44 | reading 32 bits as a signed int inverts the unsigned reading |
| Int32Codec.DecodeEncodeInt32 | src/main/java/me/uniodex/velocityrcon/server/RconHandler.java:43-44 | `readInt` on little-endian bytes gives back every int that `writeInt` wrote |
| Int32Codec.EncodeDecodeInt32 | src/main/java/me/uniodex/velocityrcon/server/RconHandler.java:171-172 | `writeInt` of what `readInt` read from any four bytes writes the same four bytes |
| Int32Codec.UnsignedInjective | src/main/java/me/uniodex/velocityrcon/server/RconHandler.java:57 | distinct ints have distinct unsigned readings |
| Int32Codec.FailureSentinelBytes | src/main/java/me/uniodex/velocityrcon/server/RconHandler.java:20 | the FAILURE id -1 is written as FF FF FF FF |
| Utf8.EncodeChar | src/main/java/me/uniodex/velocityrcon/server/RconHandler.java:173 | a character encodes to 1 to 4 bytes, to exactly one byte iff it is ASCII, and that byte is its code |
| Utf8.EncodeAppend | src/main/java/me/uniodex/velocityrcon/server/RconHandler.java:173 | encoding text cut at a character boundary gives the concatenation of the pieces' encodings |
| Utf8.EncodeLength | src/main/java/me/uniodex/velocityrcon/server/RconHandler.java:173 | the UTF-8 form has between n and 4n bytes, and exactly n iff the text is ASCII |
| Utf8.DecodeEncodeAscii | src/main/java/me/uniodex/velocityrcon/server/RconHandler.java:48 | decoding the UTF-8 form of ASCII text gives the text back |
| JavaText.AsciiLowerFolds | src/main/java/me/uniodex/velocityrcon/server/RconHandler.java:82 | folding is idempotent, gives 'a'..'z' exactly for ASCII letters, and folds two characters together exactly when they are equal or the two cases of one letter |
| JavaText.EqualsIgnoreCaseEquivalence | src/main/java/me/uniodex/velocityrcon/server/RconHandler.java:82 | `equalsIgnoreCase` is reflexive, symmetric and transitive |
| JavaText.EqualsIgnoreCaseAgreesOffLetters | src/main/java/me/uniodex/velocityrcon/server/RconHandler.java:93 | strings equal ignoring case hold the same character wherever the first holds no ASCII letter |
| JavaText.TrimStartIndex | src/main/java/me/uniodex/velocityrcon/server/RconHandler.java:91 | the first loop of `trim` stops at the first kept character at or after its start, having passed only characters at most U+0020 |
| JavaText.TrimEndIndex | src/main/java/me/uniodex/velocityrcon/server/RconHandler.java:91 | the second loop of `trim` stops just after the last kept character, not below the start, having passed only characters at most U+0020 |
| JavaText.TrimSlice | src/main/java/me/uniodex/velocityrcon/server/RconHandler.java:91 | `trim` is the contiguous slice left after removing characters at most U+0020 from both ends, and neither end of it is such a character |
| JavaText.TrimIdempotent | src/main/java/me/uniodex/velocityrcon/server/RconHandler.java:91 | trimming twice is trimming once |
| JavaText.TrimUntrimmed | src/main/java/me/uniodex/velocityrcon/server/RconHandler.java:91 | trimming text with no removable character at either end leaves it unchanged |
| JavaText.PiecesJoin | src/main/java/me/uniodex/velocityrcon/server/RconHandler.java:100 | the space-separated pieces hold no space and, joined with single spaces, give the text back |
| JavaText.PiecesHaveNoSpace | src/main/java/me/uniodex/velocityrcon/server/RconHandler.java:100 | no piece cut at spaces holds a space |
| JavaText.PiecesOfJoin | src/main/java/me/uniodex/velocityrcon/server/RconHandler.java:100 | cutting at spaces the join of space-free parts gives the parts back |
| JavaText.PiecesWithoutSpace | src/main/java/me/uniodex/velocityrcon/server/RconHandler.java:100 | text without a space is a single piece |
| JavaText.PiecesOfWordPrefix | src/main/java/me/uniodex/velocityrcon/server/RconHandler.java:100 | a space-free prefix joins the first piece of the rest |
| JavaText.LastPieceNonEmpty | src/main/java/me/uniodex/velocityrcon/server/RconHandler.java:100 | text not ending in a space has a non-empty last piece |
| JavaText.DropTrailingEmpty | src/main/java/me/uniodex/velocityrcon/server/RconHandler.java:100 | `split` keeps a prefix of the pieces, drops only empty ones, and the last one kept is non-empty |
| JavaText.SplitOfUntrailed | src/main/java/me/uniodex/velocityrcon/server/RconHandler.java:100 | for text not ending in a space, `split(" ")` is exactly the pieces between spaces |
| HexFormat.DigitChar | src/main/java/me/uniodex/velocityrcon/server/RconHandler.java:57 | a digit value maps to a lowercase hex digit, which is '0' only for 0 |
| HexFormat.DigitValue | src/main/java/me/uniodex/velocityrcon/server/RconHandler.java:57 | reading a hex digit inverts writing it |
| HexFormat.HexOf | src/main/java/me/uniodex/velocityrcon/server/RconHandler.java:57 | the hexadecimal form is non-empty and made only of lowercase hex digits |
| HexFormat.HexOfSound | src/main/java/me/uniodex/velocityrcon/server/RconHandler.java:57 | the hexadecimal form has no leading zero unless the value is 0, and reads back as the value |
| HexFormat.HexOfLength | src/main/java/me/uniodex/velocityrcon/server/RconHandler.java:57 | a value below 16^n has at most n hex digits |
| HexFormat.ToHexStringSpec | src/main/java/me/uniodex/velocityrcon/server/RconHandler.java:57 | `Integer.toHexString` gives 1 to 8 lowercase digits, with no leading zero except for 0, reading back as the two's-complement unsigned value |
| HexFormat.ToHexStringInjective | src/main/java/me/uniodex/velocityrcon/server/RconHandler.java:57 | distinct types give distinct hex strings |
| HexFormat.ToHexStringExamples | src/main/java/me/uniodex/velocityrcon/server/RconHandler.java:57 | 99 gives "63", 0 gives "0", -1 gives "ffffffff" |
| Frame.DecodeBody | src/main/java/me/uniodex/velocityrcon/server/RconHandler.java:38-50 | fewer than 8 bytes is not decoded; 8 or 9 bytes fail with a negative payload size; otherwise the payload is everything between the header and the last two bytes |
| Frame.EncodePacketLayout | src/main/java/me/uniodex/velocityrcon/server/RconHandler.java:169-176 | a written body is 10 + payload bytes: the id and type little-endian, the payload, then two zero bytes |
| Frame.DecodeEncodePacket | src/main/java/me/uniodex/velocityrcon/server/RconHandler.java:43-50 | reading a body that `sendResponse` wrote gives back its id, type and payload |
| Frame.EncodeDecodePacket | src/main/java/me/uniodex/velocityrcon/server/RconHandler.java:43-50 | a body of 10 or more bytes is written back as itself exactly when its two padding bytes are zero |
| Frame.DecodeBodyIgnoresPadding | src/main/java/me/uniodex/velocityrcon/server/RconHandler.java:46-50 | the two padding bytes are skipped unread: any body of 10 or more bytes decodes exactly as it would with zero padding |
| Frame.FailureReplyBytes | src/main/java/me/uniodex/velocityrcon/server/RconHandler.java:68 | the refusal is the ten bytes FF FF FF FF 02 00 00 00 00 00 |
| Fragmenter.ChunksConcat | src/main/java/me/uniodex/velocityrcon/server/RconHandler.java:186-191 | the pieces concatenated in order are the text |
| Fragmenter.ChunksShape | src/main/java/me/uniodex/velocityrcon/server/RconHandler.java:186-191 | there are ceil(L / 2048) pieces, each of 1 to 2048 characters, all but the last exactly 2048 |
| Fragmenter.ChunkIsSlice | src/main/java/me/uniodex/velocityrcon/server/RconHandler.java:188-189 | piece i is the slice of the text starting at 2048 i |
| Fragmenter.FragmentNonEmpty | src/main/java/me/uniodex/velocityrcon/server/RconHandler.java:186-191 | non-empty text gives ceil(L / 2048) packets, each RESPONSE with the request id, carrying its piece in order |
| Fragmenter.FragmentEmpty | src/main/java/me/uniodex/velocityrcon/server/RconHandler.java:181-183 | empty text still gives exactly one empty RESPONSE packet |
| Fragmenter.FragmentShort | src/main/java/me/uniodex/velocityrcon/server/RconHandler.java:180-191 | text of at most 2048 characters goes out as one packet |
| Fragmenter.FragmentPayloads | src/main/java/me/uniodex/velocityrcon/server/RconHandler.java:180-191 | the packets' payloads concatenated are the UTF-8 form of the whole text |
| Fragmenter.FragmentAsciiBound | src/main/java/me/uniodex/velocityrcon/server/RconHandler.java:188-189 | for ASCII text no packet carries more than 2048 bytes |
| Fragmenter.ChunksStep | src/main/java/me/uniodex/velocityrcon/server/RconHandler.java:186-191 | the piece one turn of the loop cuts at `start` is the first piece of the text from `start` on, the rest following it |
| Fragmenter.SentAdvance | src/main/java/me/uniodex/velocityrcon/server/RconHandler.java:186-191 | the loop's invariant, pieces sent then pieces of what is left being all the pieces, survives one turn |
| Fragmenter.ResponseFramesSnoc | src/main/java/me/uniodex/velocityrcon/server/RconHandler.java:189 | sending one more piece appends exactly its frame to the frames sent so far |
| Router.ExecutionReply | src/main/java/me/uniodex/velocityrcon/server/RconHandler.java:152-166 | generic execution answers the flushed text on success, `Error executing: <payload> (<flushed>)` on failure, `Error: <message>` if it threw |
| Router.RouteShutdown | src/main/java/me/uniodex/velocityrcon/server/RconHandler.java:82-87 | the shutdown action happens exactly for "end" or "stop" in any case, answered by the shutdown notice |
| Router.ShutdownWordExamples | src/main/java/me/uniodex/velocityrcon/server/RconHandler.java:82 | "stop", "STOP" and "End" are shutdown words; "stop " and "lpv" are not |
| Router.LpvIsNotShutdownWord | src/main/java/me/uniodex/velocityrcon/server/RconHandler.java:82-89 | no `lpv` command is a shutdown word, so the `lpv` block is reached for all of them |
| Router.RouteGeneric | src/main/java/me/uniodex/velocityrcon/server/RconHandler.java:152-160 | a command that is neither a shutdown word nor `lpv…` goes to generic execution and never shuts down |
| Router.RouteHelp | src/main/java/me/uniodex/velocityrcon/server/RconHandler.java:89-97 | `lpv` plus one character plus "help" in any case, trimmed, answers the fixed usage text |
| Router.RouteParentAdd | src/main/java/me/uniodex/velocityrcon/server/RconHandler.java:99-134 | exactly five parts, "parent" and "add" in any case: `Error: <message>` when `loadUser` fails (outer catch), otherwise `Added user <id> to group <group>`, or `Failed to add group: <message>` when the update fails (inner catch) |
| Router.RouteInfo | src/main/java/me/uniodex/velocityrcon/server/RconHandler.java:136-147 | three or more parts with "info" third: `Error: <message>` when `loadUser` fails, otherwise the info text, with N/A or None for what is absent |
| Router.RouteLpvFallsThrough | src/main/java/me/uniodex/velocityrcon/server/RconHandler.java:99-153 | every other `lpv` shape is answered by generic execution |
| Router.LpvCommandFallsThrough | src/main/java/me/uniodex/velocityrcon/server/RconHandler.java:89-150 | the `lpv` block answers nothing for a sub-command that is not help and not a handled `user` shape |
| Router.UserCommandFallsThrough | src/main/java/me/uniodex/velocityrcon/server/RconHandler.java:99-150 | a `user` command of fewer than three parts, or with a parsable id and neither five-part `parent add` nor `info`, is not answered there |
| Router.RouteBareLpv | src/main/java/me/uniodex/velocityrcon/server/RconHandler.java:89-91 | a bare "lpv" is answered `Error: ` plus the provider's or the index fault's message |
| Router.RouteLpvProviderFault | src/main/java/me/uniodex/velocityrcon/server/RconHandler.java:89-90 | when `LuckPermsProvider.get()` throws, every `lpv` command, whatever follows the prefix, is answered `Error: <message>` and nothing shuts down |
| Router.FourthCharacterIgnored | src/main/java/me/uniodex/velocityrcon/server/RconHandler.java:91 | the `lpv` block treats any fourth character like a space |
| Router.RouteInvalidUuid | src/main/java/me/uniodex/velocityrcon/server/RconHandler.java:100-103 | a `user` command whose id does not parse is answered `Error: ` plus the parse failure's message, whatever its action |
| Session.LoginAccepted | src/main/java/me/uniodex/velocityrcon/server/RconHandler.java:62-64 | the password logs in from any state and is answered by one empty COMMAND packet with the request id |
| Session.LoginRejected | src/main/java/me/uniodex/velocityrcon/server/RconHandler.java:66-68 | any other payload logs out from any state and is answered by one empty COMMAND packet with id -1 |
| Session.LoginWithEncodedPassword | src/main/java/me/uniodex/velocityrcon/server/RconHandler.java:48-64 | an ASCII password sent as UTF-8 logs in |
| Session.CommandBeforeLogin | src/main/java/me/uniodex/velocityrcon/server/RconHandler.java:73-77 | before login a command gets the -1 refusal, the state stays, and no outside call's result matters |
| Session.CommandAfterLogin | src/main/java/me/uniodex/velocityrcon/server/RconHandler.java:79-166 | after login the router's reply goes out whole, as RESPONSE packets with the request id, and its shutdown flag is passed on |
| Session.FragmentIds | src/main/java/me/uniodex/velocityrcon/server/RconHandler.java:180-193 | every packet of a response carries the request id and the RESPONSE type |
| Session.UnknownTypeAnswered | src/main/java/me/uniodex/velocityrcon/server/RconHandler.java:56-57 | any other type is answered by one RESPONSE packet `Unknown request <hex>`, with the state untouched |
| Session.UnknownTypeExample | src/main/java/me/uniodex/velocityrcon/server/RconHandler.java:57 | type 99 is answered `Unknown request 63` |
| Session.EveryPacketAnswered | src/main/java/me/uniodex/velocityrcon/server/RconHandler.java:52-58 | every decoded packet gets at least one reply, each with the request id or -1 |
| Session.LoggedInOnlyByPassword | src/main/java/me/uniodex/velocityrcon/server/RconHandler.java:61-69 | only a login packet changes the state, and it leaves the connection logged in iff it carried the password |
| Session.ShutdownOnlyWhenLoggedIn | src/main/java/me/uniodex/velocityrcon/server/RconHandler.java:82-87 | a packet shuts the proxy down iff it is a shutdown command on a logged-in connection |
| Session.RunAppend | src/main/java/me/uniodex/velocityrcon/server/RconHandler.java:36-59 | reading packets in two batches is reading them in one: state carries over, replies keep their order |
| Session.NoLoginKeepsState | src/main/java/me/uniodex/velocityrcon/server/RconHandler.java:52-58 | packets other than logins leave `loggedIn` as it was |
| Session.LastLoginDecides | src/main/java/me/uniodex/velocityrcon/server/RconHandler.java:61-69 | after any history, the connection is logged in iff its last login packet carried the password |
| Session.WithoutPasswordNothingRuns | src/main/java/me/uniodex/velocityrcon/server/RconHandler.java:73-77 | a client that never sends the password stays logged out, never shuts the proxy down, and gets replies that no outside call influences |
| Handler.InboundBuffer.ReadInt | src/main/java/me/uniodex/velocityrcon/server/RconHandler.java:43-44 | `readInt` advances the reader by 4 and returns the little-endian int of those bytes |
| Handler.InboundBuffer.ReadBytes | src/main/java/me/uniodex/velocityrcon/server/RconHandler.java:46-47 | `readBytes(n)` advances the reader by n and returns exactly those bytes |
| Handler.RconHandler.constructor | src/main/java/me/uniodex/velocityrcon/server/RconHandler.java:25-34 | a new connection is logged out, has written nothing and has asked for no shutdown |
| Handler.RconHandler.ChannelRead | src/main/java/me/uniodex/velocityrcon/server/RconHandler.java:36-59 | the bytes read are `DecodeBody` of the readable bytes; fewer than 8 bytes are not read and get no reply; 8 or 9 bytes consume the header and change nothing else; a full body is consumed and the new state and written frames are those of `Dispatch` |
| Handler.RconHandler.HandlePacket | src/main/java/me/uniodex/velocityrcon/server/RconHandler.java:52-58 | a login, a command and any other type each change `loggedIn`, the written frames and the shutdown request exactly as `Dispatch` says |
| Handler.RconHandler.HandleLogin | src/main/java/me/uniodex/velocityrcon/server/RconHandler.java:61-70 | `loggedIn` becomes whether the payload is the password, and one empty COMMAND frame goes out with the request id or -1 |
| Handler.RconHandler.HandleCommand | src/main/java/me/uniodex/velocityrcon/server/RconHandler.java:73-166 | logged out: one -1 refusal frame and nothing else; logged in: the frames of the routed reply, and a shutdown request exactly when routing asks for one |
| Handler.RconHandler.SendResponse | src/main/java/me/uniodex/velocityrcon/server/RconHandler.java:169-178 | exactly one frame is appended: the encoded packet of id, type and the payload's UTF-8 bytes |
| Handler.RconHandler.SendLargeResponse | src/main/java/me/uniodex/velocityrcon/server/RconHandler.java:180-193 | the loop appends exactly the frames of `Fragment(requestId, payload)`, in order |
| Handler.PieceSent | src/main/java/me/uniodex/velocityrcon/server/RconHandler.java:186-191 | one turn of the loop appends the frame of one more piece, so one frame has been written per piece sent, in order |

## Left out

- Netty plumbing is not modelled. `ChannelHandlerContext`, buffer allocation, `ctx.write` and `ctx.flush` are out of scope. Written frames are a sequence that only grows, and flushing is not modelled.
- The length-prefix framing in front of the body is done outside this handler and is not part of this model.
- Logging calls are dropped, since they do not change what is sent or stored.
- LuckPerms, `UUID.fromString`, the command manager and the command source's buffer are not modelled. Their results are inputs in `Router.Collaborators`, and their own behaviour is left out. The command source's output buffer state across commands is left out too, including when execution throws.
- `getServer().shutdown()` is only recorded as a flag. The proxy's shutdown itself, and a fault raised by it or by `sendLargeResponse` inside the catch, are not modelled.
- `Utf8.Decode`: inbound decoding is exact only for ASCII. Each byte at or above 0x80 becomes U+FFFD on its own, while Java would decode multi-byte sequences. So `Session.Dispatch` compares the password with the ASCII reading of the payload.
- `JavaText.EqualsIgnoreCase` folds only ASCII letters. Java also folds other letters of the Basic Multilingual Plane, some of them onto ASCII ones: 'ſ' (U+017F) upper-cases to 'S' and 'ı' (U+0131) to 'I'. So in Java "ſtop" shuts the proxy down and `lpv user <id> ınfo` takes the info branch, while `Router.RouteShutdown` states the shutdown for "end" and "stop" alone. With the ASCII-only inbound decoding such text never reaches the router in the model.
- `Fragmenter.Chunks` counts Unicode scalar values. Java counts UTF-16 code units, so for text outside the Basic Multilingual Plane the cut points differ, and Java can split a surrogate pair.
- `Fragmenter.FragmentPayloads`: the payloads concatenate to the UTF-8 form of the whole text only in the model. When a 2048-unit cut in Java falls inside a surrogate pair, `substring` splits the pair and `getBytes(UTF_8)` writes each lone half as `?` (0x3F). For example, 2047 × `a` followed by U+1F600 goes out in Java as `a…a?` and `?`; in the model it is one packet ending in F0 9F 98 80.
- A `null` text is not representable. A `null` from `flush()` would make Java send the empty packet after a successful execution and `Error executing: <command> (null)` after a failed one. An exception with no message would give `Error: null` from the outer catch and `Failed to add group: null` from the inner one.
- The two padding bytes are consumed without being checked, as in the source. The buffer that `readBytes(2)` returns is not modelled.
- Concurrency is not modelled. Each connection's handler is sequential, and the blocking `join()` calls are single input values.
