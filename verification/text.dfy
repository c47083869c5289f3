/**
 * String helpers shared by the model. Strings are sequences of Unicode
 * scalar values; JavaScript's string operations used by the source are
 * restated here (whitespace class of `\s` and `trim`, prefix tests, ASCII
 * lower-casing, splitting on a separator).
 */
module Text {

  /** The characters JavaScript's `\s` and `String.prototype.trim` treat as white space. */
  predicate IsJsSpace(c: char) {
    c == '\t' || c == '\n' || c == '\U{B}' || c == '\U{C}' || c == '\r' || c == ' '
    || c == '\U{A0}' || c == '\U{1680}' || ('\U{2000}' <= c <= '\U{200A}')
    || c == '\U{2028}' || c == '\U{2029}' || c == '\U{202F}' || c == '\U{205F}'
    || c == '\U{3000}' || c == '\U{FEFF}'
  }

  predicate NoSpaceAtEnds(s: string) {
    |s| > 0 ==> !IsJsSpace(s[0]) && !IsJsSpace(s[|s| - 1])
  }

  predicate AllSpace(s: string) {
    forall i :: 0 <= i < |s| ==> IsJsSpace(s[i])
  }

  /** The number of white-space characters the string starts with. */
  function LeadingSpaces(s: string): (k: nat)
    ensures k <= |s|
    ensures forall i :: 0 <= i < k ==> IsJsSpace(s[i])
    ensures k < |s| ==> !IsJsSpace(s[k])
    decreases |s|
  {
    if |s| > 0 && IsJsSpace(s[0]) then
      var k := LeadingSpaces(s[1..]);
      assert forall i :: 1 <= i < k + 1 ==> s[i] == s[1..][i - 1];
      k + 1
    else 0
  }

  /** The number of white-space characters the string ends with. */
  function TrailingSpaces(s: string): (k: nat)
    ensures k <= |s|
    ensures forall i :: |s| - k <= i < |s| ==> IsJsSpace(s[i])
    ensures k < |s| ==> !IsJsSpace(s[|s| - 1 - k])
    decreases |s|
  {
    if |s| > 0 && IsJsSpace(s[|s| - 1]) then
      var init := s[..|s| - 1];
      var k := TrailingSpaces(init);
      assert forall i :: |init| - k <= i < |init| ==> s[i] == init[i];
      k + 1
    else 0
  }

  lemma LeadingSpacesIs(s: string, k: nat)
    requires k <= |s|
    requires forall i :: 0 <= i < k ==> IsJsSpace(s[i])
    requires k < |s| ==> !IsJsSpace(s[k])
    ensures LeadingSpaces(s) == k
  {
  }

  lemma TrailingSpacesIs(s: string, k: nat)
    requires k <= |s|
    requires forall i :: |s| - k <= i < |s| ==> IsJsSpace(s[i])
    requires k < |s| ==> !IsJsSpace(s[|s| - 1 - k])
    ensures TrailingSpaces(s) == k
  {
  }

  /** `s.trimStart()` */
  function TrimStart(s: string): (r: string)
    ensures |r| <= |s| && r == s[|s| - |r|..]
    ensures |r| > 0 ==> !IsJsSpace(r[0])
    ensures |s| > 0 && !IsJsSpace(s[0]) ==> r == s
    ensures |s| > 0 && IsJsSpace(s[0]) ==> |r| < |s|
    ensures AllSpace(s[..|s| - |r|])
  {
    var k := LeadingSpaces(s);
    assert forall i :: 0 <= i < k ==> s[..k][i] == s[i];
    s[k..]
  }

  /** `s.trimEnd()` */
  function TrimEnd(s: string): (r: string)
    ensures |r| <= |s| && r == s[..|r|]
    ensures |r| > 0 ==> !IsJsSpace(r[|r| - 1])
    ensures |s| > 0 && !IsJsSpace(s[|s| - 1]) ==> r == s
    ensures AllSpace(s[|r|..])
  {
    var n := |s| - TrailingSpaces(s);
    assert forall i :: 0 <= i < |s| - n ==> s[n..][i] == s[n + i];
    s[..n]
  }

  /** White space before a string that does not start with it is what `trimStart` removes. */
  lemma TrimStartSkips(sp: string, rest: string)
    requires AllSpace(sp) && (|rest| > 0 ==> !IsJsSpace(rest[0]))
    ensures TrimStart(sp + rest) == rest
  {
    var s := sp + rest;
    assert forall i :: 0 <= i < |sp| ==> s[i] == sp[i];
    if |rest| > 0 {
      assert s[|sp|] == rest[0];
    }
    LeadingSpacesIs(s, |sp|);
    assert s[|sp|..] == rest;
  }

  /** White space after a string that does not end with it is what `trimEnd` removes. */
  lemma TrimEndSkips(rest: string, sp: string)
    requires AllSpace(sp) && (|rest| > 0 ==> !IsJsSpace(rest[|rest| - 1]))
    ensures TrimEnd(rest + sp) == rest
  {
    var s := rest + sp;
    assert forall i :: |rest| <= i < |s| ==> s[i] == sp[i - |rest|];
    if |rest| > 0 {
      assert s[|rest| - 1] == rest[|rest| - 1];
    }
    TrailingSpacesIs(s, |sp|);
    assert s[..|rest|] == rest;
  }

  /** `s.trim()` */
  function Trim(s: string): (r: string)
    ensures NoSpaceAtEnds(r)
    ensures |r| <= |s|
    ensures NoSpaceAtEnds(s) ==> r == s
    ensures AllSpace(s) <==> |r| == 0
  {
    var t := TrimStart(s);
    var r := TrimEnd(t);
    TrimEnds(s, t, r);
    TrimKeepsTrimmed(s, t, r);
    TrimmedEmpty(s, t, r);
    r
  }

  lemma TrimEnds(s: string, t: string, r: string)
    requires t == TrimStart(s) && r == TrimEnd(t)
    ensures NoSpaceAtEnds(r)
  {
    if |r| > 0 {
      assert r[0] == t[0];
    }
  }

  lemma TrimKeepsTrimmed(s: string, t: string, r: string)
    requires t == TrimStart(s) && r == TrimEnd(t)
    ensures NoSpaceAtEnds(s) ==> r == s
  {
    if NoSpaceAtEnds(s) && |s| > 0 {
      assert t == s;
      assert t[|t| - 1] == s[|s| - 1];
    }
  }

  lemma TrimEndEmpty(t: string)
    requires |TrimEnd(t)| == 0
    ensures AllSpace(t)
  {
    assert t[0..] == t;
  }

  lemma TrimmedEmpty(s: string, t: string, r: string)
    requires t == TrimStart(s) && r == TrimEnd(t)
    ensures AllSpace(s) <==> |r| == 0
  {
    if |r| == 0 {
      TrimEndEmpty(t);
      assert |t| == 0;
      var k := |s| - |t|;
      assert AllSpace(s[..k]);
      forall i | 0 <= i < |s| ensures IsJsSpace(s[i]) {
        assert s[..k][i] == s[i];
      }
    } else {
      assert r[0] == t[0];
      assert t[0] == s[|s| - |t|];
    }
  }

  /** `s.startsWith(p)` */
  predicate StartsWith(s: string, p: string) {
    |p| <= |s| && s[..|p|] == p
  }

  /** `s.slice(start)` for a non-negative start: empty past the end. */
  function Drop(s: string, start: nat): (r: string)
    ensures start <= |s| ==> r == s[start..]
    ensures start > |s| ==> r == ""
  {
    if start <= |s| then s[start..] else ""
  }

  /** `s.slice(0, n)`: the first `n` characters, or all of a shorter string. */
  function Take(s: string, n: nat): (r: string)
    ensures n <= |s| ==> r == s[..n]
    ensures n > |s| ==> r == s
  {
    if n <= |s| then s[..n] else s
  }

  /** ASCII lower-casing; the only case mapping the model needs. */
  function LowerAscii(s: string): (r: string)
    ensures |r| == |s|
    ensures forall i :: 0 <= i < |s| ==> r[i] == (if 'A' <= s[i] <= 'Z' then (s[i] as int + 32) as char else s[i])
  {
    if |s| == 0 then "" else
      var c := if 'A' <= s[0] <= 'Z' then (s[0] as int + 32) as char else s[0];
      [c] + LowerAscii(s[1..])
  }

  /** `s.split(sep)` for a one-character separator: always at least one piece. */
  function Split(s: string, sep: char): (r: seq<string>)
    ensures |r| >= 1
    ensures forall i :: 0 <= i < |r| ==> sep !in r[i]
    decreases |s|
  {
    if |s| == 0 then [""]
    else
      var rest := Split(s[1..], sep);
      if s[0] == sep then [""] + rest
      else [[s[0]] + rest[0]] + rest[1..]
  }

  /** The inverse of `Split`: pieces glued with the separator between them. */
  function Join(pieces: seq<string>, sep: char): string
    requires |pieces| >= 1
  {
    if |pieces| == 1 then pieces[0] else pieces[0] + [sep] + Join(pieces[1..], sep)
  }

  lemma {:induction false} SplitJoin(pieces: seq<string>, sep: char)
    requires |pieces| >= 1
    requires forall i :: 0 <= i < |pieces| ==> sep !in pieces[i]
    ensures Split(Join(pieces, sep), sep) == pieces
    decreases |pieces|, |pieces[0]|
  {
    if |pieces| == 1 {
      SplitNoSep(pieces[0], sep);
    } else if |pieces[0]| == 0 {
      var j := Join(pieces[1..], sep);
      assert Join(pieces, sep) == [sep] + j;
      assert ([sep] + j)[1..] == j;
      SplitJoin(pieces[1..], sep);
    } else {
      var p0 := pieces[0];
      var shorter := [p0[1..]] + pieces[1..];
      assert shorter[1..] == pieces[1..];
      assert Join(shorter, sep) == p0[1..] + [sep] + Join(pieces[1..], sep);
      assert Join(pieces, sep)[1..] == Join(shorter, sep);
      assert p0[0] != sep by { assert p0[0] in pieces[0]; }
      SplitJoin(shorter, sep);
      assert [p0[0]] + p0[1..] == p0;
    }
  }

  lemma {:induction false} SplitNoSep(s: string, sep: char)
    requires sep !in s
    ensures Split(s, sep) == [s]
    decreases |s|
  {
    if |s| > 0 {
      assert sep !in s[1..] by { forall i | 0 <= i < |s[1..]| ensures s[1..][i] != sep { assert s[1..][i] == s[i + 1]; } }
      SplitNoSep(s[1..], sep);
      assert [s[0]] + s[1..] == s;
    }
  }

  /** Keeps the pieces that are non-empty after trimming (`.map(trim).filter(Boolean)`). */
  function TrimAndDropEmpty(pieces: seq<string>): (r: seq<string>)
    ensures forall x :: x in r ==> |x| > 0 && NoSpaceAtEnds(x)
    ensures |r| <= |pieces|
  {
    if |pieces| == 0 then []
    else
      var t := Trim(pieces[0]);
      (if |t| > 0 then [t] else []) + TrimAndDropEmpty(pieces[1..])
  }

  /** Some piece trims to `x`. */
  predicate TrimsTo(pieces: seq<string>, x: string) {
    exists i :: 0 <= i < |pieces| && Trim(pieces[i]) == x
  }

  /** A string is kept exactly when it is the non-empty trimmed form of some piece. */
  lemma {:induction false} TrimAndDropEmptyMember(pieces: seq<string>, x: string)
    ensures x in TrimAndDropEmpty(pieces) <==> |x| > 0 && TrimsTo(pieces, x)
    decreases |pieces|
  {
    if |pieces| > 0 {
      TrimAndDropEmptyMember(pieces[1..], x);
      TrimsToCons(pieces, x);
      var t := Trim(pieces[0]);
      assert TrimAndDropEmpty(pieces) == (if |t| > 0 then [t] else []) + TrimAndDropEmpty(pieces[1..]);
    }
  }

  lemma TrimsToCons(pieces: seq<string>, x: string)
    requires |pieces| > 0
    ensures TrimsTo(pieces, x) <==> Trim(pieces[0]) == x || TrimsTo(pieces[1..], x)
  {
    if TrimsTo(pieces, x) {
      var i :| 0 <= i < |pieces| && Trim(pieces[i]) == x;
      if i > 0 {
        assert pieces[1..][i - 1] == pieces[i];
      }
    }
    if TrimsTo(pieces[1..], x) {
      var i :| 0 <= i < |pieces[1..]| && Trim(pieces[1..][i]) == x;
      assert pieces[i + 1] == pieces[1..][i];
    }
  }

  predicate AllTrimmed(pieces: seq<string>) {
    forall i :: 0 <= i < |pieces| ==> |pieces[i]| > 0 && NoSpaceAtEnds(pieces[i])
  }

  /** Pieces that are already trimmed and non-empty pass through unchanged. */
  lemma {:induction false} TrimAndDropEmptyKeeps(pieces: seq<string>)
    requires AllTrimmed(pieces)
    ensures TrimAndDropEmpty(pieces) == pieces
    decreases |pieces|
  {
    if |pieces| > 0 {
      AllTrimmedTail(pieces);
      TrimAndDropEmptyKeeps(pieces[1..]);
      TrimAndDropEmptyCons(pieces);
      HeadAndTail(pieces);
    }
  }

  lemma HeadAndTail<T>(s: seq<T>)
    requires |s| > 0
    ensures [s[0]] + s[1..] == s
  {
  }

  lemma AllTrimmedTail(pieces: seq<string>)
    requires |pieces| > 0 && AllTrimmed(pieces)
    ensures AllTrimmed(pieces[1..])
  {
    forall i | 0 <= i < |pieces| - 1 ensures |pieces[1..][i]| > 0 && NoSpaceAtEnds(pieces[1..][i]) {
      assert pieces[1..][i] == pieces[i + 1];
    }
  }

  lemma TrimAndDropEmptyCons(pieces: seq<string>)
    requires |pieces| > 0 && |pieces[0]| > 0 && NoSpaceAtEnds(pieces[0])
    ensures TrimAndDropEmpty(pieces) == [pieces[0]] + TrimAndDropEmpty(pieces[1..])
  {
    assert Trim(pieces[0]) == pieces[0];
  }

  /** `s.endsWith(p)` */
  predicate EndsWith(s: string, p: string) {
    |p| <= |s| && s[|s| - |p|..] == p
  }

  /** `s.includes(sub)` */
  predicate Contains(s: string, sub: string)
    decreases |s|
  {
    StartsWith(s, sub) || (|s| > 0 && Contains(s[1..], sub))
  }

  /** `n` copies of `c`. */
  function Repeat(c: char, n: nat): (r: string)
    ensures |r| == n && forall i :: 0 <= i < n ==> r[i] == c
  {
    if n == 0 then "" else [c] + Repeat(c, n - 1)
  }

  /** The number of `c`s the string ends with. */
  function TrailingRun(s: string, c: char): (k: nat)
    ensures k <= |s|
    ensures forall i :: |s| - k <= i < |s| ==> s[i] == c
    ensures k < |s| ==> s[|s| - 1 - k] != c
    decreases |s|
  {
    if |s| > 0 && s[|s| - 1] == c then
      var init := s[..|s| - 1];
      var k := TrailingRun(init, c);
      assert forall i :: |init| - k <= i < |init| ==> s[i] == init[i];
      k + 1
    else 0
  }

  /** The number of `c`s the string starts with. */
  function LeadingRun(s: string, c: char): (k: nat)
    ensures k <= |s|
    ensures forall i :: 0 <= i < k ==> s[i] == c
    ensures k < |s| ==> s[k] != c
    decreases |s|
  {
    if |s| > 0 && s[0] == c then
      var k := LeadingRun(s[1..], c);
      assert forall i :: 1 <= i < k + 1 ==> s[i] == s[1..][i - 1];
      k + 1
    else 0
  }

  /** A run length is fixed by where the run stops. */
  lemma TrailingRunIs(s: string, c: char, k: nat)
    requires k <= |s|
    requires forall i :: |s| - k <= i < |s| ==> s[i] == c
    requires k < |s| ==> s[|s| - 1 - k] != c
    ensures TrailingRun(s, c) == k
  {
  }

  lemma LeadingRunIs(s: string, c: char, k: nat)
    requires k <= |s|
    requires forall i :: 0 <= i < k ==> s[i] == c
    requires k < |s| ==> s[k] != c
    ensures LeadingRun(s, c) == k
  {
  }

  /** `s.replace(/c+$/, "")`: the longest prefix that does not end with `c`. */
  function StripTrailing(s: string, c: char): (r: string)
    ensures |r| <= |s| && r == s[..|r|]
    ensures |r| > 0 ==> r[|r| - 1] != c
    ensures forall i :: |r| <= i < |s| ==> s[i] == c
  {
    s[..|s| - TrailingRun(s, c)]
  }

  /** `s.replace(/^c+/, "")`: the longest suffix that does not begin with `c`. */
  function StripLeading(s: string, c: char): (r: string)
    ensures |r| <= |s| && r == s[|s| - |r|..]
    ensures |r| > 0 ==> r[0] != c
    ensures forall i :: 0 <= i < |s| - |r| ==> s[i] == c
  {
    s[LeadingRun(s, c)..]
  }

  /** Any run of `c` at the end is stripped, however long. */
  lemma StripTrailingRun(s: string, c: char, n: nat)
    ensures StripTrailing(s + Repeat(c, n), c) == StripTrailing(s, c)
  {
    var t := s + Repeat(c, n);
    var k := TrailingRun(s, c);
    forall i | |t| - (n + k) <= i < |t| ensures t[i] == c {
      if i < |s| {
        assert t[i] == s[i];
      } else {
        assert t[i] == Repeat(c, n)[i - |s|];
      }
    }
    if n + k < |t| {
      assert t[|t| - 1 - (n + k)] == s[|s| - 1 - k];
    }
    TrailingRunIs(t, c, n + k);
    assert t[..|t| - (n + k)] == s[..|s| - k];
  }

  /** Any run of `c` at the start is stripped, however long. */
  lemma StripLeadingRun(s: string, c: char, n: nat)
    ensures StripLeading(Repeat(c, n) + s, c) == StripLeading(s, c)
  {
    var t := Repeat(c, n) + s;
    var k := LeadingRun(s, c);
    forall i | 0 <= i < n + k ensures t[i] == c {
      if i < n {
        assert t[i] == Repeat(c, n)[i];
      } else {
        assert t[i] == s[i - n];
      }
    }
    if n + k < |t| {
      assert t[n + k] == s[k];
    }
    LeadingRunIs(t, c, n + k);
    assert t[n + k..] == s[k..];
  }
}
