/**
 * String helpers of the tracker: JavaScript's `String.prototype.trim`, which
 * every name and description entered by the user goes through, and
 * `escapeHtml`, which encodes text before it is written into table cells.
 */
module Text {
  import opened Records

  /** JavaScript's `a || b` on strings: the empty string is falsy. */
  function Or(a: string, b: string): (r: string)
    ensures a != "" ==> r == a
    ensures a == "" ==> r == b
  {
    if a != "" then a else b
  }

  /** The characters `trim` removes: ECMAScript WhiteSpace and LineTerminator. */
  predicate IsSpace(c: char)
  {
    c == ' ' || c == '\t' || c == '\n' || c == '\r' || c == '\U{000B}' || c == '\U{000C}'
    || c == '\U{00A0}' || c == '\U{1680}' || ('\U{2000}' <= c <= '\U{200A}')
    || c == '\U{2028}' || c == '\U{2029}' || c == '\U{202F}' || c == '\U{205F}'
    || c == '\U{3000}' || c == '\U{FEFF}'
  }

  predicate AllSpace(s: string)
  {
    forall i :: 0 <= i < |s| ==> IsSpace(s[i])
  }

  /** Drops leading white space: the result is a suffix of `s`, starts with a
      non-space character (or is empty), and only white space was dropped. */
  function TrimStart(s: string): (r: string)
    ensures |r| <= |s| && r == s[|s| - |r|..]
    ensures r == [] || !IsSpace(r[0])
    ensures AllSpace(s[..|s| - |r|])
    decreases |s|
  {
    if s != [] && IsSpace(s[0]) then
      var r := TrimStart(s[1..]);
      assert s[..|s| - |r|] == [s[0]] + s[1..][..|s| - 1 - |r|];
      r
    else s
  }

  /** Drops trailing white space: the result is a prefix of `s`, ends with a
      non-space character (or is empty), and only white space was dropped. */
  function TrimEnd(s: string): (r: string)
    ensures |r| <= |s| && r == s[..|r|]
    ensures r == [] || !IsSpace(r[|r| - 1])
    ensures AllSpace(s[|r|..])
    decreases |s|
  {
    if s != [] && IsSpace(s[|s| - 1]) then
      var r := TrimEnd(s[..|s| - 1]);
      assert s[|r|..] == s[..|s| - 1][|r|..] + [s[|s| - 1]];
      r
    else s
  }

  /** `s.trim()`: white space removed at both ends; blank input gives "". */
  function Trim(s: string): (r: string)
    ensures r == [] || (!IsSpace(r[0]) && !IsSpace(r[|r| - 1]))
    ensures r == [] <==> AllSpace(s)
  {
    var a := TrimStart(s);
    var r := TrimEnd(a);
    assert r == [] ==> AllSpace(s) by {
      if r == [] {
        assert s == s[..|s| - |a|] + a;
      }
    }
    r
  }

  /** Trimming keeps one contiguous slice of the input and drops only white
      space around it. */
  lemma TrimSlice(s: string) returns (i: nat)
    ensures i + |Trim(s)| <= |s| && Trim(s) == s[i..i + |Trim(s)|]
    ensures AllSpace(s[..i]) && AllSpace(s[i + |Trim(s)|..])
  {
    var a := TrimStart(s);
    var r := TrimEnd(a);
    i := |s| - |a|;
    assert s[i..] == a;
    assert r == a[..|r|];
    assert s[i + |r|..] == a[|r|..];
  }

  lemma {:induction false} TrimIdempotent(s: string)
    ensures Trim(Trim(s)) == Trim(s)
  {
    var t := Trim(s);
    assert TrimStart(t) == t;
    assert TrimEnd(t) == t;
  }

  /** The characters `escapeHtml` replaces by entities. */
  predicate IsSpecial(c: char)
  {
    c == '&' || c == '<' || c == '>' || c == '"' || c == '\''
  }

  function EscapeChar(c: char): string
  {
    match c
    case '&' => "&amp;"
    case '<' => "&lt;"
    case '>' => "&gt;"
    case '"' => "&quot;"
    case '\'' => "&#039;"
    case _ => [c]
  }

  /** The replace loop of `escapeHtml`: the output contains none of `< > " '`,
      and every `&` in it starts an entity. */
  function EscapeText(s: string): (r: string)
    ensures |r| >= |s|
    ensures forall i :: 0 <= i < |r| ==> r[i] != '<' && r[i] != '>' && r[i] != '"' && r[i] != '\''
  {
    if s == [] then [] else EscapeChar(s[0]) + EscapeText(s[1..])
  }

  /** `escapeHtml(s)`: `(s || "")` turns null into the empty string first. */
  function EscapeHtml(s: Option<string>): (r: string)
    ensures s == None || s == Some("") ==> r == ""
    ensures s.Some? ==> r == EscapeText(s.value) && Unescape(r) == s.value
  {
    match s
    case None => ""
    case Some(t) => UnescapeEscape(t); EscapeText(t)
  }

  /** Escaping works character by character. */
  lemma {:induction false} EscapeTextAppend(a: string, b: string)
    ensures EscapeText(a + b) == EscapeText(a) + EscapeText(b)
    decreases |a|
  {
    if a != [] {
      assert (a + b)[1..] == a[1..] + b;
      EscapeTextAppend(a[1..], b);
    } else {
      assert a + b == b;
    }
  }

  /** Text with none of the five special characters is copied unchanged. */
  lemma {:induction false} EscapeTextPlain(s: string)
    requires forall i :: 0 <= i < |s| ==> !IsSpecial(s[i])
    ensures EscapeText(s) == s
    decreases |s|
  {
    if s != [] {
      EscapeTextPlain(s[1..]);
    }
  }

  /** Decoding of the five entities `escapeHtml` produces; any other character
      is kept. This is the reference inverse for the round-trip lemma. */
  function Unescape(t: string): string
    decreases |t|
  {
    if t == [] then []
    else if |t| >= 5 && t[..5] == "&amp;" then ['&'] + Unescape(t[5..])
    else if |t| >= 4 && t[..4] == "&lt;" then ['<'] + Unescape(t[4..])
    else if |t| >= 4 && t[..4] == "&gt;" then ['>'] + Unescape(t[4..])
    else if |t| >= 6 && t[..6] == "&quot;" then ['"'] + Unescape(t[6..])
    else if |t| >= 6 && t[..6] == "&#039;" then ['\''] + Unescape(t[6..])
    else [t[0]] + Unescape(t[1..])
  }

  lemma UnescapeChar(c: char, t: string)
    ensures Unescape(EscapeChar(c) + t) == [c] + Unescape(t)
  {
    var x := EscapeChar(c) + t;
    if c == '&' {
      assert x[..5] == "&amp;" && x[5..] == t;
    } else if c == '<' {
      assert x[..4] == "&lt;" && x[4..] == t;
      assert |x| >= 5 ==> x[..5][1] != "&amp;"[1];
    } else if c == '>' {
      assert x[..4] == "&gt;" && x[4..] == t;
      assert |x| >= 5 ==> x[..5][1] != "&amp;"[1];
      assert x[..4][1] != "&lt;"[1];
    } else if c == '"' {
      assert x[..6] == "&quot;" && x[6..] == t;
      assert x[..5][1] != "&amp;"[1];
      assert x[..4][1] != "&lt;"[1];
      assert x[..4][1] != "&gt;"[1];
    } else if c == '\'' {
      assert x[..6] == "&#039;" && x[6..] == t;
      assert x[..5][1] != "&amp;"[1];
      assert x[..4][1] != "&lt;"[1];
      assert x[..4][1] != "&gt;"[1];
      assert x[..6][1] != "&quot;"[1];
    } else {
      assert x[0] == c && x[1..] == t;
      assert |x| >= 5 ==> x[..5][0] != "&amp;"[0];
      assert |x| >= 4 ==> x[..4][0] != "&lt;"[0];
      assert |x| >= 6 ==> x[..6][0] != "&quot;"[0];
    }
  }

  /** Escaping loses nothing: decoding the escaped text gives the text back. */
  lemma {:induction false} UnescapeEscape(s: string)
    ensures Unescape(EscapeText(s)) == s
    decreases |s|
  {
    if s == [] {
    } else {
      UnescapeChar(s[0], EscapeText(s[1..]));
      UnescapeEscape(s[1..]);
      assert [s[0]] + s[1..] == s;
    }
  }
}
