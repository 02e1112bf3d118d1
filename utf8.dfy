/**
  Go's unicode/utf8 as encoding/json applies it to the bytes of a JSON
  text: DecodeRune reads one well-formed UTF-8 sequence as its code point
  and any other byte as U+FFFD, and EncodeRune writes a code point back.
 */
module Utf8 {
  newtype Byte = x: int | 0 <= x < 256

  /** utf8.RuneError, the replacement character. */
  const RuneError: char := '\U{FFFD}'

  /** A continuation byte, 10xxxxxx. */
  predicate IsCont(b: Byte) {
    0x80 <= b < 0xC0
  }

  /**
    The bounds of the second byte after a leading byte (Go's acceptRanges):
    they rule out overlong forms, surrogates and code points past U+10FFFF.
   */
  function SecondLow(b0: Byte): Byte {
    if b0 == 0xE0 then 0xA0 else if b0 == 0xF0 then 0x90 else 0x80
  }

  function SecondHigh(b0: Byte): Byte {
    if b0 == 0xED then 0x9F else if b0 == 0xF4 then 0x8F else 0xBF
  }

  /** A decoded rune and the number of bytes it took. */
  datatype Decoded = Decoded(rune: char, size: nat)

  /** utf8.DecodeRune on a non-empty input. */
  function DecodeRune(s: seq<Byte>): (d: Decoded)
    requires s != []
    ensures 1 <= d.size <= |s| && d.size <= 4
    ensures s[0] < 0x80 ==> d == Decoded(s[0] as int as char, 1)
    ensures s[0] >= 0x80 ==> d.rune as int >= 0x80
  {
    var b0 := s[0];
    if b0 < 0x80 then Decoded(b0 as int as char, 1)
    else if 0xC2 <= b0 <= 0xDF && |s| >= 2 && IsCont(s[1]) then
      Decoded(((b0 as int - 0xC0) * 0x40 + (s[1] as int - 0x80)) as char, 2)
    else if 0xE0 <= b0 <= 0xEF && |s| >= 3 && SecondLow(b0) <= s[1] <= SecondHigh(b0) && IsCont(s[2]) then
      Decoded(((b0 as int - 0xE0) * 0x1000 + (s[1] as int - 0x80) * 0x40 + (s[2] as int - 0x80)) as char, 3)
    else if 0xF0 <= b0 <= 0xF4 && |s| >= 4 && SecondLow(b0) <= s[1] <= SecondHigh(b0) && IsCont(s[2]) && IsCont(s[3]) then
      Decoded(((b0 as int - 0xF0) * 0x40000 + (s[1] as int - 0x80) * 0x1000
               + (s[2] as int - 0x80) * 0x40 + (s[3] as int - 0x80)) as char, 4)
    else Decoded(RuneError, 1)
  }

  /** The text a byte sequence spells, rune by rune. */
  function Decode(s: seq<Byte>): (t: string)
    ensures |t| <= |s|
    ensures s != [] ==> t != [] && t[0] == DecodeRune(s).rune
    decreases |s|
  {
    if s == [] then "" else [DecodeRune(s).rune] + Decode(s[DecodeRune(s).size..])
  }

  /** utf8.EncodeRune. */
  function EncodeRune(c: char): (bs: seq<Byte>)
    ensures 1 <= |bs| <= 4 && bs[0] < 0x80 <==> |bs| == 1
  {
    var n := c as int;
    if n < 0x80 then [n as Byte]
    else if n < 0x800 then [(0xC0 + n / 0x40) as Byte, (0x80 + n % 0x40) as Byte]
    else if n < 0x10000 then
      [(0xE0 + n / 0x1000) as Byte, (0x80 + n / 0x40 % 0x40) as Byte, (0x80 + n % 0x40) as Byte]
    else
      [(0xF0 + n / 0x40000) as Byte, (0x80 + n / 0x1000 % 0x40) as Byte,
       (0x80 + n / 0x40 % 0x40) as Byte, (0x80 + n % 0x40) as Byte]
  }

  /** A text as UTF-8 bytes. */
  function Encode(t: string): (s: seq<Byte>)
    ensures |s| >= |t|
  {
    if t == [] then [] else EncodeRune(t[0]) + Encode(t[1..])
  }

  /** Text that is all ASCII. */
  predicate Ascii(s: seq<Byte>) {
    forall i :: 0 <= i < |s| ==> s[i] < 0x80
  }

  // ---------------------------------------------------------------------
  // Properties

  /** Every rune EncodeRune writes is read back whole by DecodeRune. */
  lemma DecodeEncodeRune(c: char, rest: seq<Byte>)
    ensures DecodeRune(EncodeRune(c) + rest) == Decoded(c, |EncodeRune(c)|)
  {
    var n := c as int;
    var q, l := n / 0x40, n % 0x40;
    assert n == q * 0x40 + l;
    if n < 0x80 {
    } else if n < 0x800 {
      assert EncodeRune(c) == [(0xC0 + q) as Byte, (0x80 + l) as Byte];
      DecodeTwo(q, l, rest);
    } else {
      var q2, m := q / 0x40, q % 0x40;
      assert q == q2 * 0x40 + m;
      assert q2 == n / 0x1000;
      if n < 0x10000 {
        assert EncodeRune(c) == [(0xE0 + q2) as Byte, (0x80 + m) as Byte, (0x80 + l) as Byte];
        DecodeThree(q2, m, l, rest);
      } else {
        var h, m1 := q2 / 0x40, q2 % 0x40;
        assert q2 == h * 0x40 + m1;
        assert h == n / 0x40000 && m1 == n / 0x1000 % 0x40;
        assert EncodeRune(c) == [(0xF0 + h) as Byte, (0x80 + m1) as Byte, (0x80 + m) as Byte, (0x80 + l) as Byte];
        DecodeFour(h, m1, m, l, rest);
      }
    }
  }

  lemma DecodeTwo(h: int, l: int, rest: seq<Byte>)
    requires 2 <= h < 0x20 && 0 <= l < 0x40
    ensures DecodeRune([(0xC0 + h) as Byte, (0x80 + l) as Byte] + rest)
         == Decoded((h * 0x40 + l) as char, 2)
  {
  }

  lemma DecodeThree(h: int, m: int, l: int, rest: seq<Byte>)
    requires 0 <= h < 0x10 && 0 <= m < 0x40 && 0 <= l < 0x40
    requires 0x800 <= h * 0x1000 + m * 0x40 + l && !(0xD800 <= h * 0x1000 + m * 0x40 + l < 0xE000)
    ensures DecodeRune([(0xE0 + h) as Byte, (0x80 + m) as Byte, (0x80 + l) as Byte] + rest)
         == Decoded((h * 0x1000 + m * 0x40 + l) as char, 3)
  {
    var s := [(0xE0 + h) as Byte, (0x80 + m) as Byte, (0x80 + l) as Byte] + rest;
    assert SecondLow(s[0]) <= s[1] <= SecondHigh(s[0]);
  }

  lemma DecodeFour(h: int, m1: int, m2: int, l: int, rest: seq<Byte>)
    requires 0 <= h < 5 && 0 <= m1 < 0x40 && 0 <= m2 < 0x40 && 0 <= l < 0x40
    requires 0x10000 <= h * 0x40000 + m1 * 0x1000 + m2 * 0x40 + l < 0x110000
    ensures DecodeRune([(0xF0 + h) as Byte, (0x80 + m1) as Byte, (0x80 + m2) as Byte, (0x80 + l) as Byte] + rest)
         == Decoded((h * 0x40000 + m1 * 0x1000 + m2 * 0x40 + l) as char, 4)
  {
    var s := [(0xF0 + h) as Byte, (0x80 + m1) as Byte, (0x80 + m2) as Byte, (0x80 + l) as Byte] + rest;
    assert SecondLow(s[0]) <= s[1] <= SecondHigh(s[0]);
  }

  /** Decoding the UTF-8 encoding of a text gives the text back. */
  lemma {:induction false} DecodeEncode(t: string)
    ensures Decode(Encode(t)) == t
  {
    if t != [] {
      var e := EncodeRune(t[0]);
      DecodeEncodeRune(t[0], Encode(t[1..]));
      assert Encode(t) == e + Encode(t[1..]);
      assert Encode(t)[|e|..] == Encode(t[1..]);
      DecodeEncode(t[1..]);
      assert [t[0]] + t[1..] == t;
    }
  }

  /** ASCII bytes decode one character each, to the character with the same code. */
  lemma {:induction false} DecodeAscii(s: seq<Byte>)
    requires Ascii(s)
    ensures |Decode(s)| == |s| && forall i :: 0 <= i < |s| ==> Decode(s)[i] as int == s[i] as int
    decreases |s|
  {
    if s != [] {
      DecodeAscii(s[1..]);
      assert Decode(s) == [s[0] as int as char] + Decode(s[1..]);
    }
  }

  /** Every byte that is not part of a well-formed sequence becomes one U+FFFD. */
  lemma StrayByte(b: Byte, rest: seq<Byte>)
    requires 0x80 <= b < 0xC2 || 0xF5 <= b
    ensures Decode([b] + rest) == [RuneError] + Decode(rest)
  {
    assert ([b] + rest)[1..] == rest;
  }
}
