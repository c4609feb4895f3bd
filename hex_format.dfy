/** `Integer.toHexString`: the 32 bits of an int read as unsigned, written in
    lowercase hexadecimal without leading zeros. */
module HexFormat {
  import opened Int32Codec

  /** A lowercase hexadecimal digit. */
  predicate IsHexDigit(c: char) {
    '0' <= c <= '9' || 'a' <= c <= 'f'
  }

  function DigitChar(d: nat): (c: char)
    requires d < 16
    ensures IsHexDigit(c)
    ensures c == '0' <==> d == 0
  {
    if d < 10 then ('0' as int + d) as char else ('a' as int + d - 10) as char
  }

  /** The value of a lowercase hexadecimal digit. */
  function DigitValue(c: char): (d: nat)
    requires IsHexDigit(c)
    ensures d < 16 && DigitChar(d) == c
  {
    if '0' <= c <= '9' then c as int - '0' as int else c as int - 'a' as int + 10
  }

  /** The digits of `u`, most significant first. */
  function HexOf(u: nat): (s: string)
    ensures |s| >= 1
    ensures forall i :: 0 <= i < |s| ==> IsHexDigit(s[i])
    decreases u
  {
    if u < 16 then [DigitChar(u)] else HexOf(u / 16) + [DigitChar(u % 16)]
  }

  /** `Integer.toHexString(x)`. */
  function ToHexString(x: int32): string {
    HexOf(Unsigned32(x))
  }

  /** The number a string of lowercase hexadecimal digits denotes: the
      independent reading that `HexOf` is checked against. */
  function HexValue(s: string): nat
    requires forall i :: 0 <= i < |s| ==> IsHexDigit(s[i])
    decreases |s|
  {
    if s == [] then 0 else 16 * HexValue(s[..|s| - 1]) + DigitValue(s[|s| - 1])
  }

  /** `HexOf` writes no leading zero unless the number is zero itself, and
      reading its digits back gives the number. */
  lemma {:induction false} HexOfSound(u: nat)
    ensures HexOf(u)[0] != '0' || u == 0
    ensures HexValue(HexOf(u)) == u
    decreases u
  {
    if u >= 16 {
      HexOfSound(u / 16);
      var s := HexOf(u);
      assert s[..|s| - 1] == HexOf(u / 16);
      assert s[0] == HexOf(u / 16)[0];
    }
  }

  /** A number below 16^n needs at most n digits. */
  lemma {:induction false} HexOfLength(u: nat, n: nat)
    requires n >= 1 && u < Pow16(n)
    ensures |HexOf(u)| <= n
    decreases n
  {
    if u >= 16 {
      assert n >= 2;
      HexOfLength(u / 16, n - 1);
    }
  }

  function Pow16(n: nat): nat {
    if n == 0 then 1 else 16 * Pow16(n - 1)
  }

  /** `Integer.toHexString` is the canonical lowercase spelling, one to
      eight digits, of the unsigned reading of its argument. */
  lemma ToHexStringSpec(x: int32)
    ensures var s := ToHexString(x);
      && 1 <= |s| <= 8
      && (forall i :: 0 <= i < |s| ==> IsHexDigit(s[i]))
      && (s[0] != '0' || x == 0)
      && HexValue(s) == Unsigned32(x)
  {
    HexOfSound(Unsigned32(x));
    assert Pow16(8) == TWO_32;
    HexOfLength(Unsigned32(x), 8);
  }

  /** Different ints get different spellings. */
  lemma ToHexStringInjective(x: int32, y: int32)
    requires ToHexString(x) == ToHexString(y)
    ensures x == y
  {
    ToHexStringSpec(x);
    ToHexStringSpec(y);
    UnsignedInjective(x, y);
  }

  /** Packet type 99 is reported as "63"; negative types in two's complement. */
  lemma ToHexStringExamples()
    ensures ToHexString(99) == "63"
    ensures ToHexString(0) == "0"
    ensures ToHexString(-1) == "ffffffff"
  {
    assert HexOf(6) == "6";
    assert HexOf(99) == "63";
    assert Unsigned32(-1) == 0xFFFF_FFFF;
    assert HexOf(0xF) == "f";
    assert HexOf(0xFF) == "ff";
    assert HexOf(0xFFF) == "fff";
    assert HexOf(0xFFFF) == "ffff";
    assert HexOf(0xF_FFFF) == "fffff";
    assert HexOf(0xFF_FFFF) == "ffffff";
    assert HexOf(0xFFF_FFFF) == "fffffff";
  }
}
