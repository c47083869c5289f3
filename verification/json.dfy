/**
 * The JSON that cursors are made of: `JSON.parse` (the grammar of
 * RFC 8259, whitespace allowed around every token, the last of duplicate
 * keys winning) and `JSON.stringify` of an object whose values are strings.
 */
module Json {
  import opened Wrappers

  /** A parsed value; a number is kept exactly as mantissa * 10^exponent. */
  datatype Json =
    | JNull
    | JBool(b: bool)
    | JNum(mantissa: int, exponent: int)
    | JStr(s: string)
    | JArr(items: seq<Json>)
    | JObj(members: seq<(string, Json)>)

  /** The value stored under `key`; with duplicate keys the last one, as `JSON.parse` assigns in order. */
  function Get(members: seq<(string, Json)>, key: string): (r: Option<Json>)
    ensures r.None? <==> forall i :: 0 <= i < |members| ==> members[i].0 != key
  {
    if |members| == 0 then None
    else if members[|members| - 1].0 == key then Some(members[|members| - 1].1)
    else
      var r := Get(members[..|members| - 1], key);
      assert forall i :: 0 <= i < |members| - 1 ==> members[..|members| - 1][i] == members[i];
      r
  }

  /** What `Get` finds is the value of the last member with that key. */
  lemma {:induction false} GetIsLast(members: seq<(string, Json)>, key: string, i: nat)
    requires i < |members| && members[i].0 == key
    requires forall j :: i < j < |members| ==> members[j].0 != key
    ensures Get(members, key) == Some(members[i].1)
    decreases |members|
  {
    if i < |members| - 1 {
      var prefix := members[..|members| - 1];
      assert prefix[i] == members[i];
      GetIsLast(prefix, key, i);
    }
  }

  // ---------------------------------------------------------------- parsing

  predicate IsWs(c: char) { c == ' ' || c == '\t' || c == '\n' || c == '\r' }

  predicate IsDigit(c: char) { '0' <= c <= '9' }

  function SkipWs(s: string): (r: string)
    ensures |r| <= |s| && r == s[|s| - |r|..]
    ensures |r| > 0 ==> !IsWs(r[0])
  {
    if |s| > 0 && IsWs(s[0]) then SkipWs(s[1..]) else s
  }

  /** The longest prefix of decimal digits. */
  function DigitPrefix(s: string): (r: string)
    ensures |r| <= |s| && r == s[..|r|]
    ensures forall i :: 0 <= i < |r| ==> IsDigit(r[i])
    ensures |r| < |s| ==> !IsDigit(s[|r|])
  {
    if |s| > 0 && IsDigit(s[0]) then [s[0]] + DigitPrefix(s[1..]) else ""
  }

  function DigitsValue(d: string): nat
    requires forall i :: 0 <= i < |d| ==> IsDigit(d[i])
  {
    if |d| == 0 then 0
    else
      assert IsDigit(d[|d| - 1]);
      DigitsValue(d[..|d| - 1]) * 10 + (d[|d| - 1] as int - '0' as int)
  }

  function HexValue(c: char): Option<nat>
  {
    if '0' <= c <= '9' then Some(c as int - '0' as int)
    else if 'a' <= c <= 'f' then Some(c as int - 'a' as int + 10)
    else if 'A' <= c <= 'F' then Some(c as int - 'A' as int + 10)
    else None
  }

  /** The code unit of the four hex digits at the start of `s`. */
  function Hex4(s: string): (r: Option<nat>)
    ensures r.Some? ==> |s| >= 4 && r.value < 0x1_0000
  {
    if |s| < 4 then None
    else match (HexValue(s[0]), HexValue(s[1]), HexValue(s[2]), HexValue(s[3]))
      case (Some(a), Some(b), Some(c), Some(d)) => Some(((a * 16 + b) * 16 + c) * 16 + d)
      case _ => None
  }

  /**
   * The character a `\u` escape stands for, and the input after it: a code
   * unit outside the surrogates, or a high/low surrogate pair written as two
   * escapes. A lone surrogate is not a scalar value and is not accepted here.
   */
  function UnicodeEscape(s: string): (r: Option<(char, string)>)
    ensures r.Some? ==> |r.value.1| < |s|
  {
    match Hex4(s)
    case None => None
    case Some(u) =>
      if u < 0xD800 || u > 0xDFFF then Some((u as char, s[4..]))
      else if u <= 0xDBFF && |s| >= 6 && s[4] == '\\' && s[5] == 'u' then
        match Hex4(s[6..])
        case Some(l) =>
          if 0xDC00 <= l <= 0xDFFF then
            Some(((0x1_0000 + (u - 0xD800) * 0x400 + (l - 0xDC00)) as char, s[10..]))
          else None
        case None => None
      else None
  }

  /** The character a one-letter escape (`\"`, `\\`, `\/`, `\b`, `\f`, `\n`, `\r`, `\t`) stands for. */
  function SimpleEscape(e: char): Option<char>
  {
    if e == '"' then Some('"') else if e == '\\' then Some('\\') else if e == '/' then Some('/')
    else if e == 'b' then Some('\U{8}') else if e == 'f' then Some('\U{C}') else if e == 'n' then Some('\n')
    else if e == 'r' then Some('\r') else if e == 't' then Some('\t') else None
  }

  /** One more character in front of a parsed string literal. */
  function Prepend(c: char, r: Option<(string, string)>): Option<(string, string)>
  {
    match r
    case Some((t, rest)) => Some(([c] + t, rest))
    case None => None
  }

  /** The rest of a string literal after its opening quote: its value and the input after the closing quote. */
  function ParseString(s: string): (r: Option<(string, string)>)
    ensures r.Some? ==> |r.value.1| < |s|
  {
    if |s| == 0 then None
    else if s[0] == '"' then Some(("", s[1..]))
    else if s[0] == '\\' then
      if |s| < 2 then None
      else if SimpleEscape(s[1]).Some? then Prepend(SimpleEscape(s[1]).value, ParseString(s[2..]))
      else if s[1] == 'u' then
        match UnicodeEscape(s[2..])
        case Some((c, after)) => Prepend(c, ParseString(after))
        case None => None
      else None
    else if (s[0] as int) < 0x20 then None
    else Prepend(s[0], ParseString(s[1..]))
  }

  /** An optional fraction `.digits`: its digits and the input after it. */
  function ParseFraction(s: string): (r: Option<(string, string)>)
    ensures r.Some? ==> |r.value.1| <= |s| && forall i :: 0 <= i < |r.value.0| ==> IsDigit(r.value.0[i])
  {
    if |s| > 0 && s[0] == '.' then
      var d := DigitPrefix(s[1..]);
      if |d| == 0 then None else Some((d, s[1 + |d|..]))
    else Some(("", s))
  }

  /** An optional exponent `[eE][+-]?digits`: its value and the input after it. */
  function ParseExponent(s: string): (r: Option<(int, string)>)
    ensures r.Some? ==> |r.value.1| <= |s|
  {
    if |s| > 0 && (s[0] == 'e' || s[0] == 'E') then
      var signed := |s| > 1 && (s[1] == '+' || s[1] == '-');
      var d := DigitPrefix(s[if signed then 2 else 1..]);
      if |d| == 0 then None
      else
        var n: int := DigitsValue(d);
        Some((if signed && s[1] == '-' then -n else n, s[(if signed then 2 else 1) + |d|..]))
    else Some((0, s))
  }

  /** A number token: -?(0|[1-9][0-9]*)(.[0-9]+)?([eE][+-]?[0-9]+)? */
  function ParseNumber(s: string): (r: Option<(Json, string)>)
    ensures r.Some? ==> |r.value.1| < |s|
  {
    var neg := |s| > 0 && s[0] == '-';
    var t := if neg then s[1..] else s;
    if |t| == 0 || !IsDigit(t[0]) then None
    else
      var whole := if t[0] == '0' then "0" else DigitPrefix(t);
      match ParseFraction(t[|whole|..])
      case None => None
      case Some((frac, afterFrac)) =>
        match ParseExponent(afterFrac)
        case None => None
        case Some((e, rest)) =>
          var m: int := DigitsValue(whole + frac);
          Some((JNum(if neg then -m else m, e - |frac|), rest))
  }

  /** A literal keyword at the start of `s`. */
  function ParseWord(s: string, word: string, v: Json): (r: Option<(Json, string)>)
    requires |word| > 0
    ensures r.Some? ==> |r.value.1| < |s|
  {
    if |s| >= |word| && s[..|word|] == word then Some((v, s[|word|..])) else None
  }

  /** One value, after optional whitespace: the value and the input after it. */
  function ParseValue(s: string): (r: Option<(Json, string)>)
    ensures r.Some? ==> |r.value.1| < |s|
    decreases |s|, 1
  {
    var t := SkipWs(s);
    if |t| == 0 then None
    else if t[0] == '{' then ParseObject(t[1..])
    else if t[0] == '[' then ParseArray(t[1..])
    else if t[0] == '"' then
      match ParseString(t[1..])
      case Some((str, rest)) => Some((JStr(str), rest))
      case None => None
    else if t[0] == 't' then ParseWord(t, "true", JBool(true))
    else if t[0] == 'f' then ParseWord(t, "false", JBool(false))
    else if t[0] == 'n' then ParseWord(t, "null", JNull)
    else ParseNumber(t)
  }

  /** The rest of an array after '['. */
  function ParseArray(s: string): (r: Option<(Json, string)>)
    ensures r.Some? ==> |r.value.1| < |s|
    decreases |s|, 3
  {
    var t := SkipWs(s);
    if |t| > 0 && t[0] == ']' then Some((JArr([]), t[1..]))
    else
      match ParseElements(t)
      case Some((items, rest)) => Some((JArr(items), rest))
      case None => None
  }

  /** value (, value)* ] */
  function ParseElements(s: string): (r: Option<(seq<Json>, string)>)
    ensures r.Some? ==> |r.value.1| < |s|
    decreases |s|, 2
  {
    match ParseValue(s)
    case None => None
    case Some((v, rest)) =>
      var t := SkipWs(rest);
      if |t| == 0 then None
      else if t[0] == ']' then Some(([v], t[1..]))
      else if t[0] == ',' then
        match ParseElements(t[1..])
        case Some((more, after)) => Some(([v] + more, after))
        case None => None
      else None
  }

  /** The rest of an object after '{'. */
  function ParseObject(s: string): (r: Option<(Json, string)>)
    ensures r.Some? ==> |r.value.1| < |s|
    decreases |s|, 3
  {
    var t := SkipWs(s);
    if |t| > 0 && t[0] == '}' then Some((JObj([]), t[1..]))
    else
      match ParseMembers(t)
      case Some((members, rest)) => Some((JObj(members), rest))
      case None => None
  }

  /** "key" : value (, "key" : value)* } */
  function ParseMembers(s: string): (r: Option<(seq<(string, Json)>, string)>)
    ensures r.Some? ==> |r.value.1| < |s|
    decreases |s|, 2
  {
    var t := SkipWs(s);
    if |t| == 0 || t[0] != '"' then None
    else
      match ParseString(t[1..])
      case None => None
      case Some((key, afterKey)) =>
        var u := SkipWs(afterKey);
        if |u| == 0 || u[0] != ':' then None
        else
          match ParseValue(u[1..])
          case None => None
          case Some((v, rest)) =>
            var w := SkipWs(rest);
            if |w| == 0 then None
            else if w[0] == '}' then Some(([(key, v)], w[1..]))
            else if w[0] == ',' then
              match ParseMembers(w[1..])
              case Some((more, after)) => Some(([(key, v)] + more, after))
              case None => None
            else None
  }

  /** `JSON.parse(text)`: one value with nothing but whitespace around it, or None where it throws. */
  function Parse(text: string): Option<Json>
  {
    match ParseValue(text)
    case Some((v, rest)) => if |SkipWs(rest)| == 0 then Some(v) else None
    case None => None
  }

  // ------------------------------------------------------------ stringifying

  const HexDigits: string := "0123456789abcdef"

  /** How `JSON.stringify` writes one character inside a string literal. */
  function EscapeChar(c: char): (r: string)
    ensures |r| > 0 && r[0] != '"'
  {
    if c == '"' then "\\\""
    else if c == '\\' then "\\\\"
    else if c == '\U{8}' then "\\b"
    else if c == '\U{C}' then "\\f"
    else if c == '\n' then "\\n"
    else if c == '\r' then "\\r"
    else if c == '\t' then "\\t"
    else if (c as int) < 0x20 then "\\u00" + [HexDigits[(c as int) / 16], HexDigits[(c as int) % 16]]
    else [c]
  }

  function Escape(s: string): string
  {
    if |s| == 0 then "" else EscapeChar(s[0]) + Escape(s[1..])
  }

  /** A string literal. */
  function Quote(s: string): string
  {
    "\"" + Escape(s) + "\""
  }

  /** One member: `"key":"value"`. */
  function Pair(k: string, v: string): string
  {
    Quote(k) + ":" + Quote(v)
  }

  /** The members of a flat object, comma separated. */
  function Members(m: seq<(string, string)>): string
  {
    if |m| == 0 then ""
    else Pair(m[0].0, m[0].1) + (if |m| > 1 then "," + Members(m[1..]) else "")
  }

  /** `JSON.stringify` of an object whose values are all strings, keys in insertion order. */
  function StringifyFlat(m: seq<(string, string)>): string
  {
    "{" + Members(m) + "}"
  }

  /** The parsed form of a flat object. */
  function AsJson(m: seq<(string, string)>): (r: seq<(string, Json)>)
    ensures |r| == |m|
    ensures forall i :: 0 <= i < |m| ==> r[i] == (m[i].0, JStr(m[i].1))
  {
    if |m| == 0 then [] else [(m[0].0, JStr(m[0].1))] + AsJson(m[1..])
  }

  // ------------------------------------------------------------- round trip

  lemma Assoc<T>(a: seq<T>, b: seq<T>, c: seq<T>)
    ensures a + b + c == a + (b + c)
  {
  }

  lemma EscapeCharParses(c: char, rest: string)
    ensures ParseString(EscapeChar(c) + rest) == Prepend(c, ParseString(rest))
  {
    if c == '"' || c == '\\' || c == '\U{8}' || c == '\U{C}' || c == '\n' || c == '\r' || c == '\t' {
      SimpleEscapeParses(c, rest);
    } else if (c as int) < 0x20 {
      ControlEscapeParses(c, rest);
    } else {
      var s := EscapeChar(c) + rest;
      assert s[0] == c && s[1..] == rest;
    }
  }

  lemma SimpleEscapeParses(c: char, rest: string)
    requires c == '"' || c == '\\' || c == '\U{8}' || c == '\U{C}' || c == '\n' || c == '\r' || c == '\t'
    ensures ParseString(EscapeChar(c) + rest) == Prepend(c, ParseString(rest))
  {
    var s := EscapeChar(c) + rest;
    assert s[0] == '\\' && SimpleEscape(s[1]) == Some(c);
    assert s[2..] == rest;
  }

  lemma ControlEscapeParses(c: char, rest: string)
    requires (c as int) < 0x20
    requires !(c == '\U{8}' || c == '\U{C}' || c == '\n' || c == '\r' || c == '\t')
    ensures ParseString(EscapeChar(c) + rest) == Prepend(c, ParseString(rest))
  {
    var x := c as int;
    var s := EscapeChar(c) + rest;
    var h := "00" + [HexDigits[x / 16], HexDigits[x % 16]] + rest;
    assert s == "\\u" + h;
    assert s[0] == '\\' && s[1] == 'u' && SimpleEscape(s[1]).None?;
    assert s[2..] == h;
    assert HexValue(h[0]) == Some(0) && HexValue(h[1]) == Some(0);
    assert HexValue(h[2]) == Some(x / 16);
    assert HexValue(h[3]) == Some(x % 16);
    assert Hex4(h) == Some(x);
    assert UnicodeEscape(h) == Some((c, rest));
  }

  /** The value of a quoted string is the string, and parsing resumes right after the closing quote. */
  lemma {:induction false} QuoteParses(str: string, rest: string)
    ensures ParseString(Escape(str) + "\"" + rest) == Some((str, rest))
    decreases |str|
  {
    if |str| == 0 {
      assert Escape(str) + "\"" + rest == "\"" + rest;
      assert ("\"" + rest)[1..] == rest;
    } else {
      QuoteParses(str[1..], rest);
      assert Escape(str) + "\"" + rest == EscapeChar(str[0]) + (Escape(str[1..]) + "\"" + rest);
      EscapeCharParses(str[0], Escape(str[1..]) + "\"" + rest);
      assert [str[0]] + str[1..] == str;
    }
  }

  lemma StringValueParses(v: string, w: string)
    ensures ParseValue(Quote(v) + w) == Some((JStr(v), w))
  {
    var s := Quote(v) + w;
    assert s == "\"" + (Escape(v) + "\"" + w);
    assert SkipWs(s) == s;
    QuoteParses(v, w);
  }

  /** The input continued after a member: the closing brace or a comma and further members. */
  function MembersAfter(member: (string, Json), w: string): Option<(seq<(string, Json)>, string)>
    requires |w| > 0
  {
    if w[0] == '}' then Some(([member], w[1..]))
    else if w[0] == ',' then
      match ParseMembers(w[1..])
      case Some((more, after)) => Some(([member] + more, after))
      case None => None
    else None
  }

  lemma MembersStep(s: string, k: string, afterKey: string, v: Json, w: string)
    requires |s| > 0 && SkipWs(s) == s && s[0] == '"' && ParseString(s[1..]) == Some((k, afterKey))
    requires |afterKey| > 0 && SkipWs(afterKey) == afterKey && afterKey[0] == ':'
    requires ParseValue(afterKey[1..]) == Some((v, w))
    requires |w| > 0 && !IsWs(w[0])
    ensures ParseMembers(s) == MembersAfter((k, v), w)
  {
  }

  lemma DropFirst<T>(x: T, s: seq<T>)
    ensures ([x] + s)[1..] == s
  {
  }

  lemma KeyParses(k: string, afterKey: string)
    ensures var s := Quote(k) + afterKey;
      |s| > 0 && SkipWs(s) == s && s[0] == '"' && ParseString(s[1..]) == Some((k, afterKey))
  {
    var e := Escape(k);
    Assoc("\"" + e, "\"", afterKey);
    Assoc("\"", e, "\"" + afterKey);
    Assoc(e, "\"", afterKey);
    DropFirst('"', e + ("\"" + afterKey));
    QuoteParses(k, afterKey);
  }

  lemma ColonValueParses(v: string, w: string)
    ensures var a := ":" + Quote(v) + w;
      |a| > 0 && SkipWs(a) == a && a[0] == ':' && ParseValue(a[1..]) == Some((JStr(v), w))
  {
    Assoc(":", Quote(v), w);
    DropFirst(':', Quote(v) + w);
    StringValueParses(v, w);
  }

  /** One `"key":"value"` member followed by `w`. */
  lemma PairParses(k: string, v: string, w: string)
    requires |w| > 0 && !IsWs(w[0])
    ensures ParseMembers(Pair(k, v) + w) == MembersAfter((k, JStr(v)), w)
  {
    var afterKey := ":" + Quote(v) + w;
    Assoc(Quote(k), ":", Quote(v));
    Assoc(Quote(k), ":" + Quote(v), w);
    KeyParses(k, afterKey);
    ColonValueParses(v, w);
    MembersStep(Quote(k) + afterKey, k, afterKey, JStr(v), w);
  }

  lemma {:induction false} MembersParse(m: seq<(string, string)>, rest: string)
    requires |m| > 0
    ensures ParseMembers(Members(m) + "}" + rest) == Some((AsJson(m), rest))
    decreases |m|
  {
    var p := Pair(m[0].0, m[0].1);
    var t := if |m| > 1 then "," + Members(m[1..]) else "";
    var w := t + "}" + rest;
    assert Members(m) == p + t;
    Assoc(p, t, "}");
    Assoc(p, t + "}", rest);
    PairParses(m[0].0, m[0].1, w);
    if |m| > 1 {
      var m1 := Members(m[1..]);
      Assoc(",", m1, "}");
      Assoc(",", m1 + "}", rest);
      DropFirst(',', m1 + "}" + rest);
      MembersParse(m[1..], rest);
      assert AsJson(m) == [(m[0].0, JStr(m[0].1))] + AsJson(m[1..]);
    } else {
      assert t + "}" == "}";
      DropFirst('}', rest);
      assert AsJson(m) == [(m[0].0, JStr(m[0].1))];
    }
  }

  lemma ParseOfObject(body: string, v: Json)
    requires ParseObject(body) == Some((v, ""))
    ensures Parse("{" + body) == Some(v)
  {
    var s := "{" + body;
    DropFirst('{', body);
    assert s[0] == '{' && SkipWs(s) == s;
    assert ParseValue(s) == ParseObject(body);
    assert SkipWs("") == "";
  }

  lemma MembersStartWithQuote(m: seq<(string, string)>, w: string)
    requires |m| > 0
    ensures |Members(m) + w| > 0 && (Members(m) + w)[0] == '"'
  {
    var q := Quote(m[0].0);
    assert q[0] == '"';
    var t := if |m| > 1 then "," + Members(m[1..]) else "";
    assert Members(m) == ((q + ":") + Quote(m[0].1)) + t;
  }

  lemma ObjectBodyParses(m: seq<(string, string)>)
    ensures ParseObject(Members(m) + "}") == Some((JObj(AsJson(m)), ""))
  {
    var body := Members(m) + "}";
    if |m| == 0 {
      assert body == "}";
    } else {
      MembersStartWithQuote(m, "}");
      assert SkipWs(body) == body;
      MembersParse(m, "");
      assert body + "" == body;
    }
  }

  /** `JSON.parse(JSON.stringify(o))` gives back the object, member by member. */
  lemma ParseStringifyFlat(m: seq<(string, string)>)
    ensures Parse(StringifyFlat(m)) == Some(JObj(AsJson(m)))
  {
    Assoc("{", Members(m), "}");
    ObjectBodyParses(m);
    ParseOfObject(Members(m) + "}", JObj(AsJson(m)));
  }
}
