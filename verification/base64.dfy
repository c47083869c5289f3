/**
 * Bytes, and the "base64url" encoding Node's Buffer uses for cursors:
 * the URL-safe alphabet of section 5 of RFC 4648 with the padding left off
 * on output, and a lenient decoder on input that accepts both alphabets,
 * skips every character outside them and stops at the first '='.
 */
module Base64 {
  import opened Wrappers

  /** An octet. */
  type byte = x: int | 0 <= x < 256

  /** A six-bit group, the value one base64 character carries. */
  type sextet = x: int | 0 <= x < 64

  /** The URL-safe alphabet: A-Z, a-z, 0-9, '-', '_'. */
  function Char(v: sextet): (c: char)
    ensures c != '='
  {
    if v < 26 then ('A' as int + v) as char
    else if v < 52 then ('a' as int + (v - 26)) as char
    else if v < 62 then ('0' as int + (v - 52)) as char
    else if v == 62 then '-'
    else '_'
  }

  /** The value of a character of either alphabet ('+' and '-' are 62, '/' and '_' are 63). */
  function Value(c: char): Option<sextet>
  {
    if 'A' <= c <= 'Z' then Some(c as int - 'A' as int)
    else if 'a' <= c <= 'z' then Some(c as int - 'a' as int + 26)
    else if '0' <= c <= '9' then Some(c as int - '0' as int + 52)
    else if c == '-' || c == '+' then Some(62)
    else if c == '/' || c == '_' then Some(63)
    else None
  }

  lemma ValueOfChar(v: sextet)
    ensures Value(Char(v)) == Some(v)
  {
  }

  lemma ValueOfEveryChar()
    ensures forall v: sextet :: Value(Char(v)) == Some(v)
  {
    forall v: sextet ensures Value(Char(v)) == Some(v) { ValueOfChar(v); }
  }

  /** Splits three bytes into four sextets, most significant bits first. */
  function Split3(b0: byte, b1: byte, b2: byte): seq<sextet>
  {
    [b0 / 4, (b0 % 4) * 16 + b1 / 16, (b1 % 16) * 4 + b2 / 64, b2 % 64]
  }

  /** Unpadded base64url text of `b`: four characters per three bytes, two or three for the tail. */
  function Encode(b: seq<byte>): (s: string)
    ensures |s| == (|b| / 3) * 4 + (if |b| % 3 == 0 then 0 else |b| % 3 + 1)
    ensures forall i :: 0 <= i < |s| ==> Value(s[i]).Some? && s[i] != '='
  {
    if |b| == 0 then ""
    else
      ValueOfEveryChar();
      Head(b) + (if |b| >= 3 then Encode(b[3..]) else "")
  }

  /** The sextets the decoder reads: alphabet characters up to the first '=', others skipped. */
  function Sextets(s: string): (r: seq<sextet>)
    ensures |r| <= |s|
  {
    if |s| == 0 || s[0] == '=' then []
    else match Value(s[0])
      case Some(v) => [v] + Sextets(s[1..])
      case None => Sextets(s[1..])
  }

  /** The bytes a group of sextets stands for, one per adjacent pair. */
  function Byte0(a: sextet, b: sextet): byte { (a as int) * 4 + (b as int) / 16 }
  function Byte1(b: sextet, c: sextet): byte { ((b as int) % 16) * 16 + (c as int) / 4 }
  function Byte2(c: sextet, d: sextet): byte { ((c as int) % 4) * 64 + d as int }

  /** Reassembles bytes: three per full group, one from two trailing sextets, two from three, none from one. */
  function Join(v: seq<sextet>): (r: seq<byte>)
    ensures |r| == (|v| / 4) * 3 + (if |v| % 4 == 0 then 0 else |v| % 4 - 1)
  {
    if |v| == 0 then []
    else if |v| == 1 then []
    else if |v| == 2 then [Byte0(v[0], v[1])]
    else if |v| == 3 then [Byte0(v[0], v[1]), Byte1(v[1], v[2])]
    else [Byte0(v[0], v[1]), Byte1(v[1], v[2]), Byte2(v[2], v[3])] + Join(v[4..])
  }

  /** `Buffer.from(s, "base64url")`. */
  function Decode(s: string): (r: seq<byte>)
    ensures |r| <= |s|
  {
    Join(Sextets(s))
  }

  lemma {:induction false} SextetsAppend(x: string, y: string)
    requires forall i :: 0 <= i < |x| ==> Value(x[i]).Some? && x[i] != '='
    ensures Sextets(x + y) == Sextets(x) + Sextets(y)
    decreases |x|
  {
    if |x| == 0 {
      assert x + y == y;
    } else {
      assert (x + y)[0] == x[0] && (x + y)[1..] == x[1..] + y;
      SextetsAppend(x[1..], y);
    }
  }

  lemma {:induction false} SextetsOfChars(v: seq<sextet>)
    ensures Sextets(seq(|v|, i requires 0 <= i < |v| => Char(v[i]))) == v
    decreases |v|
  {
    var s := seq(|v|, i requires 0 <= i < |v| => Char(v[i]));
    if |v| > 0 {
      ValueOfChar(v[0]);
      assert s[1..] == seq(|v[1..]|, i requires 0 <= i < |v[1..]| => Char(v[1..][i]));
      SextetsOfChars(v[1..]);
    }
  }

  lemma JoinSplit3(b0: byte, b1: byte, b2: byte)
    ensures Join(Split3(b0, b1, b2)) == [b0, b1, b2]
    ensures Join(Split3(b0, b1, b2)[..3]) == [b0, b1]
    ensures Join(Split3(b0, b1, b2)[..2]) == [b0]
  {
    var g := Split3(b0, b1, b2);
    assert Byte0(g[0], g[1]) == b0;
    assert Byte1(g[1], g[2]) == b1;
    assert Byte2(g[2], g[3]) == b2;
  }

  lemma {:induction false} JoinAppend(g: seq<sextet>, w: seq<sextet>)
    requires |g| == 4
    ensures Join(g + w) == Join(g) + Join(w)
  {
    assert (g + w)[4..] == w;
    assert g[4..] == [];
  }

  /** The characters written for the first (up to) three bytes. */
  function Head(b: seq<byte>): string
    requires |b| > 0
  {
    var g := Split3(b[0], if |b| > 1 then b[1] else 0, if |b| > 2 then b[2] else 0);
    var n := if |b| >= 3 then 4 else |b| + 1;
    seq(n, i requires 0 <= i < n => Char(g[i]))
  }

  lemma HeadDecodes(b: seq<byte>)
    requires |b| > 0
    ensures |Sextets(Head(b))| == if |b| >= 3 then 4 else |b| + 1
    ensures |b| >= 3 ==> Join(Sextets(Head(b))) == b[..3]
    ensures |b| < 3 ==> Join(Sextets(Head(b))) == b
  {
    var g := Split3(b[0], if |b| > 1 then b[1] else 0, if |b| > 2 then b[2] else 0);
    var n := if |b| >= 3 then 4 else |b| + 1;
    assert Head(b) == seq(|g[..n]|, i requires 0 <= i < |g[..n]| => Char(g[..n][i]));
    SextetsOfChars(g[..n]);
    JoinSplit3(b[0], if |b| > 1 then b[1] else 0, if |b| > 2 then b[2] else 0);
    if |b| >= 3 {
      assert g[..n] == g;
    }
  }

  /** Decoding what the encoder wrote gives back the bytes. */
  lemma {:induction false} DecodeEncode(b: seq<byte>)
    ensures Decode(Encode(b)) == b
    decreases |b|
  {
    if |b| > 0 {
      var head := Head(b);
      var tail := if |b| >= 3 then Encode(b[3..]) else "";
      assert Encode(b) == head + tail;
      ValueOfEveryChar();
      SextetsAppend(head, tail);
      HeadDecodes(b);
      if |b| >= 3 {
        DecodeEncode(b[3..]);
        JoinAppend(Sextets(head), Sextets(tail));
        assert b == b[..3] + b[3..];
      } else {
        assert Sextets(tail) == [];
        assert Sextets(head) + [] == Sextets(head);
      }
    }
  }
}
