/** The UTF-8 conversions of the handler: `String.getBytes(UTF_8)` on the way
    out and `new String(bytes, UTF_8)` on the way in. Dafny characters are
    Unicode scalar values, so encoding is total. Decoding is modelled for
    ASCII only: a byte at or above 0x80 becomes U+FFFD on its own. */
module Utf8 {
  import opened Int32Codec

  predicate IsAscii(s: string) {
    forall i :: 0 <= i < |s| ==> s[i] as int < 0x80
  }

  /** The UTF-8 form of one scalar value (one to four bytes). */
  function EncodeChar(c: char): (bs: seq<byte>)
    ensures 1 <= |bs| <= 4
    ensures |bs| == 1 <==> c as int < 0x80
    ensures c as int < 0x80 ==> bs == [c as int]
  {
    var n := c as int;
    if n < 0x80 then [n]
    else if n < 0x800 then [0xC0 + n / 0x40, 0x80 + n % 0x40]
    else if n < 0x1_0000 then [0xE0 + n / 0x1000, 0x80 + (n / 0x40) % 0x40, 0x80 + n % 0x40]
    else [0xF0 + n / 0x4_0000, 0x80 + (n / 0x1000) % 0x40, 0x80 + (n / 0x40) % 0x40, 0x80 + n % 0x40]
  }

  /** `String.getBytes(StandardCharsets.UTF_8)`. */
  function Encode(s: string): (bs: seq<byte>)
    decreases |s|
  {
    if s == [] then [] else EncodeChar(s[0]) + Encode(s[1..])
  }

  /** `new String(bytes, StandardCharsets.UTF_8)`, for ASCII input. */
  function Decode(bs: seq<byte>): (s: string)
  {
    seq(|bs|, i requires 0 <= i < |bs| => if bs[i] < 0x80 then bs[i] as char else '�')
  }

  /** Encoding is a homomorphism: text cut at any character boundary
      encodes to the concatenation of the encodings of its pieces. */
  lemma {:induction false} EncodeAppend(a: string, b: string)
    ensures Encode(a + b) == Encode(a) + Encode(b)
    decreases |a|
  {
    if a == [] {
      assert a + b == b;
    } else {
      assert (a + b)[1..] == a[1..] + b;
      EncodeAppend(a[1..], b);
    }
  }

  /** Encoding never shrinks text, takes at most four bytes per character,
      and is byte-for-byte the text exactly when the text is ASCII. */
  lemma {:induction false} EncodeLength(s: string)
    ensures |s| <= |Encode(s)| <= 4 * |s|
    ensures IsAscii(s) <==> |Encode(s)| == |s|
    decreases |s|
  {
    if s != [] {
      EncodeLength(s[1..]);
      if IsAscii(s[1..]) && s[0] as int < 0x80 {
        assert IsAscii(s) by {
          forall i | 0 <= i < |s| ensures s[i] as int < 0x80 {
            if i > 0 { assert s[i] == s[1..][i - 1]; }
          }
        }
      }
      if IsAscii(s) {
        assert IsAscii(s[1..]) by {
          forall i | 0 <= i < |s| - 1 ensures s[1..][i] as int < 0x80 {
            assert s[1..][i] == s[i + 1];
          }
        }
      }
    }
  }

  /** ASCII text survives the trip out and back in. */
  lemma {:induction false} DecodeEncodeAscii(s: string)
    requires IsAscii(s)
    ensures Decode(Encode(s)) == s
    decreases |s|
  {
    if s != [] {
      assert IsAscii(s[1..]) by {
        forall i | 0 <= i < |s| - 1 ensures s[1..][i] as int < 0x80 {
          assert s[1..][i] == s[i + 1];
        }
      }
      DecodeEncodeAscii(s[1..]);
      var rest := Encode(s[1..]);
      assert Encode(s) == [s[0] as int] + rest;
      assert Decode(Encode(s)) == [s[0]] + Decode(rest);
    }
  }
}
