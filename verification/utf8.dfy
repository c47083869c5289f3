/**
 * UTF-8 as Node's Buffer does it: `Buffer.from(string)` encodes each
 * Unicode scalar value in one to four bytes, and `toString("utf8")`
 * decodes, putting one U+FFFD in place of each maximal ill-formed
 * subsequence (the WHATWG decoder's rule).
 */
module Utf8 {
  import Base64

  type byte = Base64.byte

  const Replacement: char := '\U{FFFD}'

  /** The bytes of one scalar value. */
  function EncodeChar(c: char): (r: seq<byte>)
    ensures 1 <= |r| <= 4
  {
    var x := c as int;
    if x < 0x80 then [x]
    else if x < 0x800 then [0xC0 + x / 64, 0x80 + x % 64]
    else if x < 0x1_0000 then [0xE0 + x / 4096, 0x80 + (x / 64) % 64, 0x80 + x % 64]
    else [0xF0 + x / 262144, 0x80 + (x / 4096) % 64, 0x80 + (x / 64) % 64, 0x80 + x % 64]
  }

  /** `Buffer.from(s)`: the concatenated encodings of the characters. */
  function Encode(s: string): (r: seq<byte>)
    ensures |s| <= |r| <= 4 * |s|
  {
    if |s| == 0 then [] else EncodeChar(s[0]) + Encode(s[1..])
  }

  predicate IsContinuation(x: byte) { 0x80 <= x <= 0xBF }

  /** The range the second byte must fall in after lead byte `b0` (excludes overlongs, surrogates, > U+10FFFF). */
  predicate SecondFits(b0: byte, b1: byte) {
    if b0 == 0xE0 then 0xA0 <= b1 <= 0xBF
    else if b0 == 0xED then 0x80 <= b1 <= 0x9F
    else if b0 == 0xF0 then 0x90 <= b1 <= 0xBF
    else if b0 == 0xF4 then 0x80 <= b1 <= 0x8F
    else IsContinuation(b1)
  }

  function Char2(b0: byte, b1: byte): char
    requires 0xC2 <= b0 <= 0xDF && IsContinuation(b1)
  {
    ((b0 - 0xC0) * 64 + (b1 - 0x80)) as char
  }

  function Char3(b0: byte, b1: byte, b2: byte): char
    requires 0xE0 <= b0 <= 0xEF && SecondFits(b0, b1) && IsContinuation(b2)
  {
    ((b0 - 0xE0) * 4096 + (b1 - 0x80) * 64 + (b2 - 0x80)) as char
  }

  function Char4(b0: byte, b1: byte, b2: byte, b3: byte): char
    requires 0xF0 <= b0 <= 0xF4 && SecondFits(b0, b1) && IsContinuation(b2) && IsContinuation(b3)
  {
    ((b0 - 0xF0) * 262144 + (b1 - 0x80) * 4096 + (b2 - 0x80) * 64 + (b3 - 0x80)) as char
  }

  /**
   * The first character of `b` and how many bytes it took: a well-formed
   * sequence gives its scalar value; otherwise U+FFFD replaces the longest
   * prefix that could still have begun a well-formed sequence (at least one byte).
   */
  function DecodeFirst(b: seq<byte>): (r: (char, nat))
    requires |b| > 0
    ensures 1 <= r.1 <= |b| && r.1 <= 4
  {
    var b0 := b[0];
    if b0 < 0x80 then (b0 as char, 1)
    else if 0xC2 <= b0 <= 0xDF then
      if |b| > 1 && IsContinuation(b[1]) then (Char2(b0, b[1]), 2) else (Replacement, 1)
    else if 0xE0 <= b0 <= 0xEF then
      if |b| > 1 && SecondFits(b0, b[1]) then
        if |b| > 2 && IsContinuation(b[2]) then (Char3(b0, b[1], b[2]), 3) else (Replacement, 2)
      else (Replacement, 1)
    else if 0xF0 <= b0 <= 0xF4 then
      if |b| > 1 && SecondFits(b0, b[1]) then
        if |b| > 2 && IsContinuation(b[2]) then
          if |b| > 3 && IsContinuation(b[3]) then (Char4(b0, b[1], b[2], b[3]), 4) else (Replacement, 3)
        else (Replacement, 2)
      else (Replacement, 1)
    else (Replacement, 1)
  }

  /** `buf.toString("utf8")`: never fails, and yields at most one character per byte. */
  function Decode(b: seq<byte>): (s: string)
    ensures |s| <= |b|
    decreases |b|
  {
    if |b| == 0 then []
    else
      var (c, n) := DecodeFirst(b);
      [c] + Decode(b[n..])
  }

  lemma DecodeFirstOfEncoded(c: char, rest: seq<byte>)
    ensures DecodeFirst(EncodeChar(c) + rest) == (c, |EncodeChar(c)|)
  {
    var x := c as int;
    if x < 0x80 {
    } else if x < 0x800 {
      DecodeTwo(c, rest);
    } else if x < 0x1_0000 {
      DecodeThree(c, rest);
    } else {
      DecodeFour(c, rest);
    }
  }

  lemma DecodeTwo(c: char, rest: seq<byte>)
    requires 0x80 <= c as int < 0x800
    ensures DecodeFirst(EncodeChar(c) + rest) == (c, 2)
  {
    var x := c as int;
    var b := EncodeChar(c) + rest;
    var hi, lo := x / 64, x % 64;
    assert b[0] == 0xC0 + hi && b[1] == 0x80 + lo;
    assert 2 <= hi < 32;
    assert Char2(b[0], b[1]) as int == hi * 64 + lo;
  }

  lemma DecodeThree(c: char, rest: seq<byte>)
    requires 0x800 <= c as int < 0x1_0000
    ensures DecodeFirst(EncodeChar(c) + rest) == (c, 3)
  {
    var x := c as int;
    var b := EncodeChar(c) + rest;
    var a, m, lo := x / 4096, (x / 64) % 64, x % 64;
    assert x / 64 == a * 64 + m;
    assert x == a * 4096 + m * 64 + lo;
    assert b[0] == 0xE0 + a && b[1] == 0x80 + m && b[2] == 0x80 + lo;
    assert a == 0 ==> m >= 32;
    assert a == 13 ==> m < 32;
    assert SecondFits(b[0], b[1]);
    assert Char3(b[0], b[1], b[2]) as int == a * 4096 + m * 64 + lo;
  }

  lemma DecodeFour(c: char, rest: seq<byte>)
    requires 0x1_0000 <= c as int
    ensures DecodeFirst(EncodeChar(c) + rest) == (c, 4)
  {
    var x := c as int;
    var b := EncodeChar(c) + rest;
    var a, m, n, lo := x / 262144, (x / 4096) % 64, (x / 64) % 64, x % 64;
    assert x / 4096 == a * 64 + m;
    assert x / 64 == (a * 64 + m) * 64 + n;
    assert x == a * 262144 + m * 4096 + n * 64 + lo;
    assert b[0] == 0xF0 + a && b[1] == 0x80 + m && b[2] == 0x80 + n && b[3] == 0x80 + lo;
    assert a == 0 ==> m >= 16;
    assert a == 4 ==> m < 16;
    assert SecondFits(b[0], b[1]);
    assert Char4(b[0], b[1], b[2], b[3]) as int == a * 262144 + m * 4096 + n * 64 + lo;
  }

  /** Decoding what was encoded gives back the string. */
  lemma {:induction false} DecodeEncode(s: string)
    ensures Decode(Encode(s)) == s
    decreases |s|
  {
    if |s| > 0 {
      var e := EncodeChar(s[0]);
      DecodeFirstOfEncoded(s[0], Encode(s[1..]));
      assert (e + Encode(s[1..]))[|e|..] == Encode(s[1..]);
      DecodeEncode(s[1..]);
    }
  }
}
