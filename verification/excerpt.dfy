/**
 * `makeExcerpt` of apps/api/src/routes/v1/posts.ts: the listing preview of
 * a post's content, with every run of white space collapsed to one space,
 * the ends trimmed, and text longer than `maxLen` cut and marked with "…".
 */
module Excerpt {
  import opened Wrappers
  import opened Text

  /** The ellipsis appended to a cut excerpt. */
  const Ellipsis: char := '…'

  /** The non-space characters of `s`, in order. */
  function NonSpace(s: string): (r: string)
    ensures |r| <= |s|
  {
    if |s| == 0 then ""
    else (if IsJsSpace(s[0]) then "" else [s[0]]) + NonSpace(s[1..])
  }

  lemma {:induction false} NonSpaceAppend(a: string, b: string)
    ensures NonSpace(a + b) == NonSpace(a) + NonSpace(b)
    decreases |a|
  {
    if |a| > 0 {
      assert (a + b)[1..] == a[1..] + b;
      NonSpaceAppend(a[1..], b);
    } else {
      assert a + b == b;
    }
  }

  lemma {:induction false} NonSpaceOfSpace(s: string)
    requires AllSpace(s)
    ensures NonSpace(s) == ""
    decreases |s|
  {
    if |s| > 0 { NonSpaceOfSpace(s[1..]); }
  }

  /** White space only as single ' ' characters, never two in a row. */
  predicate SingleSpaced(s: string) {
    && (forall i :: 0 <= i < |s| && IsJsSpace(s[i]) ==> s[i] == ' ')
    && (forall i :: 0 <= i < |s| - 1 ==> !(IsJsSpace(s[i]) && IsJsSpace(s[i + 1])))
  }

  lemma SingleSpacedSlice(s: string, i: nat, j: nat)
    requires SingleSpaced(s) && i <= j <= |s|
    ensures SingleSpaced(s[i..j])
  {
    var t := s[i..j];
    forall k | 0 <= k < |t| - 1 ensures !(IsJsSpace(t[k]) && IsJsSpace(t[k + 1])) {
      assert t[k] == s[i + k] && t[k + 1] == s[i + k + 1];
    }
  }

  /** `s.replace(/\s+/g, " ")` */
  function Collapse(s: string): (r: string)
    ensures |r| <= |s|
    ensures |s| > 0 ==> |r| > 0 && (IsJsSpace(s[0]) <==> IsJsSpace(r[0]))
    ensures SingleSpaced(r)
    ensures NonSpace(r) == NonSpace(s)
    decreases |s|
  {
    if |s| == 0 then ""
    else if IsJsSpace(s[0]) then
      var t := TrimStart(s);
      assert |t| < |s|;
      var rest := Collapse(t);
      var r := " " + rest;
      assert r[1..] == rest;
      NonSpaceAppend(s[..|s| - |t|], t);
      NonSpaceOfSpace(s[..|s| - |t|]);
      assert s == s[..|s| - |t|] + t;
      r
    else
      var rest := Collapse(s[1..]);
      var r := [s[0]] + rest;
      assert r[1..] == rest;
      r
  }

  /** Collapsing text that is already single-spaced changes nothing. */
  lemma {:induction false} CollapseSingleSpaced(s: string)
    requires SingleSpaced(s)
    ensures Collapse(s) == s
    decreases |s|
  {
    if |s| > 0 {
      SingleSpacedSlice(s, 1, |s|);
      CollapseSingleSpaced(s[1..]);
      if IsJsSpace(s[0]) {
        OneSpaceTrimmed(s);
        assert s == " " + s[1..];
      } else {
        assert s == [s[0]] + s[1..];
      }
    }
  }

  lemma OneSpaceTrimmed(s: string)
    requires |s| > 0 && IsJsSpace(s[0]) && (|s| > 1 ==> !IsJsSpace(s[1]))
    ensures TrimStart(s) == s[1..]
  {
    assert AllSpace([s[0]]);
    TrimStartSkips([s[0]], s[1..]);
    assert [s[0]] + s[1..] == s;
  }

  /** Collapsing twice is collapsing once. */
  lemma CollapseIdempotent(s: string)
    ensures Collapse(Collapse(s)) == Collapse(s)
  {
    CollapseSingleSpaced(Collapse(s));
  }

  /** Trimming drops only white space. */
  lemma TrimKeepsNonSpace(s: string)
    ensures NonSpace(Trim(s)) == NonSpace(s)
  {
    var t := TrimStart(s);
    var r := TrimEnd(t);
    assert s == s[..|s| - |t|] + t;
    NonSpaceAppend(s[..|s| - |t|], t);
    NonSpaceOfSpace(s[..|s| - |t|]);
    assert t == r + t[|r|..];
    NonSpaceAppend(r, t[|r|..]);
    NonSpaceOfSpace(t[|r|..]);
  }

  lemma TrimEndKeepsNonSpace(s: string)
    ensures NonSpace(TrimEnd(s)) == NonSpace(s)
  {
    var r := TrimEnd(s);
    assert s == r + s[|r|..];
    NonSpaceAppend(r, s[|r|..]);
    NonSpaceOfSpace(s[|r|..]);
  }

  /** The collapsed and trimmed text an excerpt is cut from. */
  function Normalize(s: string): (r: string)
    ensures SingleSpaced(r) && NoSpaceAtEnds(r)
    ensures NonSpace(r) == NonSpace(s)
    ensures |r| == 0 <==> AllSpace(s)
  {
    var c := Collapse(s);
    var r := Trim(c);
    TrimKeepsNonSpace(c);
    TrimKeepsSingleSpaced(c);
    EmptyIffAllSpace(s, r);
    r
  }

  /** Trimming keeps a contiguous slice, so single spacing survives it. */
  lemma TrimKeepsSingleSpaced(s: string)
    requires SingleSpaced(s)
    ensures SingleSpaced(Trim(s))
  {
    var t := TrimStart(s);
    var r := TrimEnd(t);
    var i := |s| - |t|;
    assert t == s[i..];
    assert r == t[..|r|];
    assert s[i..][..|r|] == s[i..i + |r|];
    SingleSpacedSlice(s, i, i + |r|);
  }

  /** Text with the same non-space characters as `s` is empty exactly when `s` is all space. */
  lemma EmptyIffAllSpace(s: string, r: string)
    requires NonSpace(r) == NonSpace(s) && SingleSpaced(r) && NoSpaceAtEnds(r)
    ensures |r| == 0 <==> AllSpace(s)
  {
    NonSpaceEmpty(s);
    if |r| > 0 {
      assert NonSpace(r) == [r[0]] + NonSpace(r[1..]);
    }
  }

  /** Only all-space text has no non-space characters. */
  lemma {:induction false} NonSpaceEmpty(s: string)
    ensures NonSpace(s) == "" <==> AllSpace(s)
    decreases |s|
  {
    if |s| > 0 {
      NonSpaceEmpty(s[1..]);
      assert forall i :: 0 <= i < |s| - 1 ==> s[1..][i] == s[i + 1];
      if AllSpace(s[1..]) && IsJsSpace(s[0]) {
        forall i | 0 <= i < |s| ensures IsJsSpace(s[i]) {
          if i > 0 { assert s[i] == s[1..][i - 1]; }
        }
      }
    }
  }

  predicate IsPrefix(a: string, b: string) {
    |a| <= |b| && b[..|a|] == a
  }

  /**
   * `makeExcerpt(content, maxLen)`: null for null, empty or all-space text;
   * otherwise the normalized text, cut to `maxLen` (trailing space
   * dropped) with an ellipsis when it is longer.
   */
  function MakeExcerpt(content: Option<string>, maxLen: nat): (r: Option<string>)
    ensures r.None? <==> content.None? || AllSpace(content.value)
    ensures r.Some? ==> 0 < |r.value| <= maxLen + 1 && SingleSpaced(r.value) && NoSpaceAtEnds(r.value)
    ensures r.Some? ==>
      || (NonSpace(r.value) == NonSpace(content.value) && |r.value| <= maxLen)
      || (r.value[|r.value| - 1] == Ellipsis
          && IsPrefix(NonSpace(r.value[..|r.value| - 1]), NonSpace(content.value)))
  {
    if content.None? || content.value == "" then None
    else
      var s := Normalize(content.value);
      if s == "" then None
      else if |s| > maxLen then
        var r := TrimEnd(s[..maxLen]) + [Ellipsis];
        CutIsPrefix(s, maxLen);
        CutShape(s, maxLen);
        Some(r)
      else Some(s)
  }

  /** The cut text plus the ellipsis is still single-spaced and trimmed. */
  lemma CutShape(s: string, n: nat)
    requires SingleSpaced(s) && NoSpaceAtEnds(s) && n <= |s|
    ensures var r := TrimEnd(s[..n]) + [Ellipsis];
      SingleSpaced(r) && NoSpaceAtEnds(r) && r[..|r| - 1] == TrimEnd(s[..n])
  {
    var cut := TrimEnd(s[..n]);
    var r := cut + [Ellipsis];
    SingleSpacedSlice(s, 0, n);
    SingleSpacedSlice(s[..n], 0, |cut|);
    assert s[..n][..|cut|] == cut;
    assert r[..|r| - 1] == cut;
    if |cut| > 0 {
      assert cut[0] == s[0];
    }
    forall i | 0 <= i < |r| - 1 ensures !(IsJsSpace(r[i]) && IsJsSpace(r[i + 1])) {
      if i + 1 < |cut| {
        assert r[i] == cut[i] && r[i + 1] == cut[i + 1];
      }
    }
  }

  lemma CutIsPrefix(s: string, n: nat)
    requires n <= |s|
    ensures IsPrefix(NonSpace(TrimEnd(s[..n])), NonSpace(s))
  {
    var r := TrimEnd(s[..n]);
    assert r == s[..|r|];
    NonSpaceOfPrefix(r, s);
  }

  /** The non-space characters of a prefix are a prefix of the non-space characters. */
  lemma NonSpaceOfPrefix(a: string, s: string)
    requires IsPrefix(a, s)
    ensures IsPrefix(NonSpace(a), NonSpace(s))
  {
    assert s == a + s[|a|..];
    NonSpaceAppend(a, s[|a|..]);
    assert (NonSpace(a) + NonSpace(s[|a|..]))[..|NonSpace(a)|] == NonSpace(a);
  }

  /** An excerpt that was not cut is its own excerpt. */
  lemma ExcerptOfExcerpt(content: string, maxLen: nat)
    requires MakeExcerpt(Some(content), maxLen).Some?
    requires |Normalize(content)| <= maxLen
    ensures MakeExcerpt(MakeExcerpt(Some(content), maxLen), maxLen) == MakeExcerpt(Some(content), maxLen)
  {
    var s := Normalize(content);
    CollapseSingleSpaced(s);
  }

  /** The length bound is tight: a long word is cut to exactly `maxLen` characters plus the ellipsis. */
  lemma LongWordIsCut(maxLen: nat)
    ensures var w := seq(maxLen + 1, _ => 'a');
      MakeExcerpt(Some(w), maxLen) == Some(seq(maxLen, _ => 'a') + [Ellipsis])
  {
    var w := seq(maxLen + 1, _ => 'a');
    assert SingleSpaced(w) && NoSpaceAtEnds(w);
    CollapseSingleSpaced(w);
    assert Normalize(w) == w;
    assert w[..maxLen] == seq(maxLen, _ => 'a');
  }
}
