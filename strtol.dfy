/**
 * The claimed checksum is read with `strtol(text, NULL, 16)` and stored in a
 * `char`. This module gives the C library's base-16 conversion on an LP64
 * platform (64-bit `long`) and the truncation to a byte.
 */
module StrToL {
  import opened CString

  const LONG_MAX: int := 0x7FFF_FFFF_FFFF_FFFF
  const PLUS: byte := 0x2B
  const MINUS: byte := 0x2D

  /** `isspace` in the C locale: space, tab, LF, vertical tab, form feed, CR. */
  predicate IsSpace(c: byte)
  {
    c == 0x20 || 0x09 <= c <= 0x0D
  }

  predicate IsHexDigit(c: byte)
  {
    0x30 <= c <= 0x39 || 0x41 <= c <= 0x46 || 0x61 <= c <= 0x66
  }

  function DigitValue(c: byte): (d: nat)
    requires IsHexDigit(c)
    ensures d < 16
  {
    if c <= 0x39 then (c - 0x30) as nat
    else if c <= 0x46 then (c - 0x41) as nat + 10
    else (c - 0x61) as nat + 10
  }

  /** The text left after the leading white space. */
  function SkipSpace(s: seq<byte>): (r: seq<byte>)
    ensures |r| <= |s| && r == s[|s| - |r|..]
    ensures forall k :: 0 <= k < |s| - |r| ==> IsSpace(s[k])
    ensures |r| > 0 ==> !IsSpace(r[0])
  {
    if |s| > 0 && IsSpace(s[0]) then SkipSpace(s[1..]) else s
  }

  /** The longest prefix of `s` made of hex digits. */
  function HexRun(s: seq<byte>): (r: seq<byte>)
    ensures |r| <= |s| && r == s[..|r|]
    ensures forall k :: 0 <= k < |r| ==> IsHexDigit(r[k])
    ensures |r| < |s| ==> !IsHexDigit(s[|r|])
  {
    if |s| > 0 && IsHexDigit(s[0]) then [s[0]] + HexRun(s[1..]) else []
  }

  /** The value of a run of hex digits, most significant first. */
  function HexValue(ds: seq<byte>): nat
    requires forall k :: 0 <= k < |ds| ==> IsHexDigit(ds[k])
  {
    if |ds| == 0 then 0 else HexValue(ds[..|ds| - 1]) * 16 + DigitValue(ds[|ds| - 1])
  }

  /** The magnitude's text once white space, a sign and a `0x`/`0X` prefix are gone. */
  function Unsigned(s: seq<byte>): seq<byte>
  {
    var t := SkipSpace(s);
    var u := if |t| > 0 && (t[0] == PLUS || t[0] == MINUS) then t[1..] else t;
    // When "0x" is not followed by a hex digit glibc converts just the "0";
    // dropping the prefix and converting nothing gives that same value, 0.
    if |u| >= 2 && u[0] == 0x30 && (u[1] == 0x78 || u[1] == 0x58) then u[2..] else u
  }

  predicate Negative(s: seq<byte>)
  {
    var t := SkipSpace(s);
    |t| > 0 && t[0] == MINUS
  }

  /**
   * `strtol(s, NULL, 16)`: the signed value of the hex digits, saturated at
   * LONG_MIN / LONG_MAX; text with no digits converts to 0.
   */
  function StrToL16(s: seq<byte>): (v: int)
    ensures -(LONG_MAX + 1) <= v <= LONG_MAX
    ensures HexRun(Unsigned(s)) == [] ==> v == 0
    ensures v < 0 ==> Negative(s)
  {
    var m: int := HexValue(HexRun(Unsigned(s)));
    if Negative(s) then (if m > LONG_MAX + 1 then -(LONG_MAX + 1) else -m)
    else if m > LONG_MAX then LONG_MAX
    else m
  }

  /** Conversion of a `long` to a `char`: keep the low eight bits. */
  function ToChar(v: int): byte
  {
    (v % 256) as byte
  }

  /** A value already in byte range converts to that byte. */
  lemma ToCharOfByte(b: byte)
    ensures ToChar(b as int) == b
  {
    assert b as int % 256 == b as int;
  }

  /** An upper-case hex digit. */
  function HexChar(d: nat): (c: byte)
    requires d < 16
    ensures IsHexDigit(c) && DigitValue(c) == d
  {
    [0x30, 0x31, 0x32, 0x33, 0x34, 0x35, 0x36, 0x37, 0x38, 0x39, 0x41, 0x42, 0x43, 0x44, 0x45, 0x46][d]
  }

  /** The two-digit checksum field as a sender writes it after `*`. */
  function Hex2(b: byte): (r: seq<byte>)
    ensures |r| == 2 && IsHexDigit(r[0]) && IsHexDigit(r[1])
  {
    [HexChar(b as int / 16), HexChar(b as int % 16)]
  }

  /** The two digits of `Hex2(b)` carry the value of `b`. */
  lemma Hex2Value(b: byte)
    ensures HexValue(Hex2(b)) == b as int
  {
    TwoDigits(Hex2(b));
  }

  /** The value of a two-digit run. */
  lemma TwoDigits(h: seq<byte>)
    requires |h| == 2 && IsHexDigit(h[0]) && IsHexDigit(h[1])
    ensures HexValue(h) == DigitValue(h[0]) * 16 + DigitValue(h[1]) < 256
  {
    assert h[..1][..0] == [] && h[..1][0] == h[0];
    assert HexValue(h[..1]) == DigitValue(h[0]);
  }

  /** A field that starts with a hex digit converts its maximal digit run. */
  lemma DigitsFirst(s: seq<byte>)
    requires |s| > 0 && IsHexDigit(s[0])
    requires |s| < 2 || (s[1] != 0x78 && s[1] != 0x58)
    ensures Unsigned(s) == s && !Negative(s)
  {
    assert SkipSpace(s) == s;
  }

  /** Two hex digits followed by no third one convert to their value. */
  lemma {:induction false} TwoDigitField(h: seq<byte>, tail: seq<byte>)
    requires |h| == 2 && IsHexDigit(h[0]) && IsHexDigit(h[1])
    requires |tail| == 0 || !IsHexDigit(tail[0])
    ensures StrToL16(h + tail) == HexValue(h)
  {
    var s := h + tail;
    DigitsFirst(s);
    assert HexRun(s) == h by {
      assert s[1..][1..] == tail;
      assert HexRun(s[1..]) == [s[1]] + HexRun(tail);
    }
    TwoDigits(h);
  }

  /**
   * The two-digit field reads back as the byte it encodes, whatever follows it
   * as long as that is not one more hex digit.
   */
  lemma {:induction false} Hex2RoundTrip(b: byte, tail: seq<byte>)
    requires |tail| == 0 || !IsHexDigit(tail[0])
    ensures StrToL16(Hex2(b) + tail) == b as int
    ensures ToChar(StrToL16(Hex2(b) + tail)) == b
  {
    TwoDigitField(Hex2(b), tail);
    Hex2Value(b);
    ToCharOfByte(b);
  }
}
