/** Text in UTF-8 (RFC 3629): the test that `std::str::from_utf8` makes on bytes, and the texts it is
    about, given by their characters. */
module Utf8 {
  import opened Basics

  // ----- the test on bytes -----

  /** Byte `i` is there and continues a character. */
  predicate Continues(s: seq<byte>, i: nat) {
    i < |s| && 0x80 <= s[i] <= 0xBF
  }

  predicate IsUtf8(s: seq<byte>) {
    if s == [] then true
    else if s[0] < 0x80 then IsUtf8(s[1..])
    else if 0xC2 <= s[0] <= 0xDF then Continues(s, 1) && IsUtf8(s[2..])
    else if 0xE0 <= s[0] <= 0xEF then
      && Continues(s, 1) && Continues(s, 2)
      && (s[0] == 0xE0 ==> s[1] >= 0xA0)
      && (s[0] == 0xED ==> s[1] <= 0x9F)
      && IsUtf8(s[3..])
    else if 0xF0 <= s[0] <= 0xF4 then
      && Continues(s, 1) && Continues(s, 2) && Continues(s, 3)
      && (s[0] == 0xF0 ==> s[1] >= 0x90)
      && (s[0] == 0xF4 ==> s[1] <= 0x8F)
      && IsUtf8(s[4..])
    else false
  }

  // ----- characters -----

  /** Unicode scalar values: code points without the surrogates. */
  type Scalar = c: int | 0 <= c <= 0x10_FFFF && !(0xD800 <= c <= 0xDFFF)

  /** The bytes of a character, six bits in each byte but the first (section 3 of RFC 3629). */
  function CharBytes(c: Scalar): (bs: seq<byte>)
    ensures 1 <= |bs| <= 4
  {
    if c < 0x80 then [c]
    else if c < 0x800 then [0xC0 + c / 64, 0x80 + c % 64]
    else if c < 0x1_0000 then [0xE0 + c / 4096, 0x80 + c / 64 % 64, 0x80 + c % 64]
    else [0xF0 + c / 0x4_0000, 0x80 + c / 4096 % 64, 0x80 + c / 64 % 64, 0x80 + c % 64]
  }

  function TextBytes(text: seq<Scalar>): seq<byte> {
    if text == [] then [] else CharBytes(text[0]) + TextBytes(text[1..])
  }

  /** The bytes are those of some text. */
  ghost predicate IsText(s: seq<byte>) {
    exists text: seq<Scalar> :: s == TextBytes(text)
  }

  // ----- the test finds exactly the texts -----

  /** Six more bits behind a number, and taking them off again. */
  function Behind(high: int, b: byte): int { 64 * high + (b - 0x80) }

  lemma SixBits(high: nat, b: byte)
    requires 0x80 <= b <= 0xBF
    ensures Behind(high, b) / 64 == high && Behind(high, b) % 64 == b - 0x80
  {
  }

  lemma SixBitsOff(c: nat)
    ensures 0 <= c % 64 < 64 && Behind(c / 64, 0x80 + c % 64) == c
  {
  }

  lemma Nested(c: nat)
    ensures c / 4096 == c / 64 / 64 && c / 0x4_0000 == c / 64 / 64 / 64
  {
  }

  /** The character at the front of bytes that pass the test. */
  function FrontChar(s: seq<byte>): int
    requires s != [] && IsUtf8(s)
  {
    if s[0] < 0x80 then s[0]
    else if s[0] < 0xE0 then Behind(s[0] - 0xC0, s[1])
    else if s[0] < 0xF0 then Behind(Behind(s[0] - 0xE0, s[1]), s[2])
    else Behind(Behind(Behind(s[0] - 0xF0, s[1]), s[2]), s[3])
  }

  lemma FrontBytes(s: seq<byte>) returns (c: Scalar)
    requires s != [] && IsUtf8(s)
    ensures var bs := CharBytes(c);
            c == FrontChar(s) && |bs| <= |s| && s[..|bs|] == bs && IsUtf8(s[|bs|..])
  {
    var x := FrontChar(s);
    if s[0] < 0x80 {
    } else if s[0] < 0xE0 {
      SixBits(s[0] - 0xC0, s[1]);
    } else if s[0] < 0xF0 {
      ThreeBytes(s, x);
    } else {
      FourBytes(s, x);
    }
    c := x;
  }

  lemma ThreeBytes(s: seq<byte>, c: int)
    requires s != [] && IsUtf8(s) && 0xE0 <= s[0] < 0xF0 && c == FrontChar(s)
    ensures 0x800 <= c < 0x1_0000 && !(0xD800 <= c <= 0xDFFF) && CharBytes(c) == s[..3]
  {
    var high := Behind(s[0] - 0xE0, s[1]);
    SixBits(s[0] - 0xE0, s[1]);
    SixBits(high, s[2]);
    Nested(c);
    assert 0x20 <= high < 0x400 && !(0x360 <= high <= 0x37F);
  }

  lemma FourBytes(s: seq<byte>, c: int)
    requires s != [] && IsUtf8(s) && 0xF0 <= s[0] && c == FrontChar(s)
    ensures 0x1_0000 <= c <= 0x10_FFFF && CharBytes(c) == s[..4]
  {
    var high := Behind(s[0] - 0xF0, s[1]);
    var middle := Behind(high, s[2]);
    SixBits(s[0] - 0xF0, s[1]);
    SixBits(high, s[2]);
    SixBits(middle, s[3]);
    Nested(c);
    assert 0x10 <= high < 0x110;
  }

  lemma CharInFront(c: Scalar, rest: seq<byte>)
    ensures IsUtf8(CharBytes(c) + rest) <==> IsUtf8(rest)
    ensures IsUtf8(rest) ==> FrontChar(CharBytes(c) + rest) == c
  {
    var bs := CharBytes(c);
    var s := bs + rest;
    assert s[|bs|..] == rest && s[0] == bs[0];
    assert s[..|bs|] == bs;
    if c < 0x80 {
    } else if c < 0x800 {
      TwoByteFront(c, s);
    } else if c < 0x1_0000 {
      ThreeByteFront(c, s);
    } else {
      FourByteFront(c, s);
    }
  }

  lemma TwoByteFront(c: Scalar, s: seq<byte>)
    requires 0x80 <= c < 0x800 && |s| >= 2 && s[..2] == CharBytes(c)
    ensures IsUtf8(s) <==> IsUtf8(s[2..])
    ensures IsUtf8(s) ==> FrontChar(s) == c
  {
    assert s[0] == s[..2][0] && s[1] == s[..2][1];
    SixBitsOff(c);
  }

  lemma ThreeByteFront(c: Scalar, s: seq<byte>)
    requires 0x800 <= c < 0x1_0000 && |s| >= 3 && s[..3] == CharBytes(c)
    ensures IsUtf8(s) <==> IsUtf8(s[3..])
    ensures IsUtf8(s) ==> FrontChar(s) == c
  {
    assert s[0] == s[..3][0] && s[1] == s[..3][1] && s[2] == s[..3][2];
    SixBitsOff(c);
    SixBitsOff(c / 64);
    Nested(c);
  }

  lemma FourByteFront(c: Scalar, s: seq<byte>)
    requires 0x1_0000 <= c && |s| >= 4 && s[..4] == CharBytes(c)
    ensures IsUtf8(s) <==> IsUtf8(s[4..])
    ensures IsUtf8(s) ==> FrontChar(s) == c
  {
    assert s[0] == s[..4][0] && s[1] == s[..4][1] && s[2] == s[..4][2] && s[3] == s[..4][3];
    SixBitsOff(c);
    SixBitsOff(c / 64);
    SixBitsOff(c / 64 / 64);
    Nested(c);
  }

  /** Bytes pass the test exactly when they are the bytes of some text. */
  lemma {:induction false} Utf8Iff(s: seq<byte>)
    ensures IsUtf8(s) <==> IsText(s)
  {
    if IsUtf8(s) { var text := Decoded(s); }
    if IsText(s) {
      var text: seq<Scalar> :| s == TextBytes(text);
      TextPasses(text);
    }
  }

  lemma {:induction false} Decoded(s: seq<byte>) returns (text: seq<Scalar>)
    requires IsUtf8(s)
    ensures TextBytes(text) == s
    decreases |s|
  {
    hide IsUtf8, CharBytes, FrontChar;
    if s == [] {
      text := [];
    } else {
      var c := FrontBytes(s);
      var k := |CharBytes(c)|;
      var others := Decoded(s[k..]);
      text := [c] + others;
      assert text[1..] == others && s == s[..k] + s[k..];
    }
  }

  lemma {:induction false} TextPasses(text: seq<Scalar>)
    ensures IsUtf8(TextBytes(text))
  {
    hide CharBytes;
    if text != [] {
      TextPasses(text[1..]);
      CharInFront(text[0], TextBytes(text[1..]));
    }
  }

  /** Different texts have different bytes. */
  lemma {:induction false} TextIsUnique(a: seq<Scalar>, b: seq<Scalar>)
    requires TextBytes(a) == TextBytes(b)
    ensures a == b
    decreases |a|
  {
    hide IsUtf8, CharBytes, FrontChar;
    if a != [] && b != [] {
      var s, t := TextBytes(a[1..]), TextBytes(b[1..]);
      TextPasses(a[1..]);
      TextPasses(b[1..]);
      CharInFront(a[0], s);
      CharInFront(b[0], t);
      var k := |CharBytes(a[0])|;
      assert s == TextBytes(a)[k..] && t == TextBytes(b)[k..];
      TextIsUnique(a[1..], b[1..]);
      assert a == [a[0]] + a[1..] && b == [b[0]] + b[1..];
    }
  }
}
