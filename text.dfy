/** Whitespace trimming as JavaScript's String.prototype.trim does it, which the
    blank-row test of the merger applies to every cell value. */
module Text {

  /** The code points ECMAScript counts as WhiteSpace or LineTerminator: tab, line
      feed, vertical tab, form feed, carriage return, space, no-break space, the
      Ogham space mark, the en quad through hair space, the line and paragraph
      separators, the narrow no-break space, the medium mathematical space, the
      ideographic space and the byte-order mark. All of them lie in the Basic
      Multilingual Plane, so each is one UTF-16 code unit. */
  predicate IsWhitespace(c: char)
    ensures IsWhitespace(c) ==> c as int < 0x1_0000
  {
    || c == '\t' || c == '\n' || c == '\U{000B}' || c == '\U{000C}' || c == '\r'
    || c == ' ' || c == '\U{00A0}' || c == '\U{1680}'
    || ('\U{2000}' <= c <= '\U{200A}')
    || c == '\U{2028}' || c == '\U{2029}' || c == '\U{202F}' || c == '\U{205F}'
    || c == '\U{3000}' || c == '\U{FEFF}'
  }

  /** Every character of s is whitespace (the empty string is blank). */
  predicate IsBlank(s: string) {
    forall i :: 0 <= i < |s| ==> IsWhitespace(s[i])
  }

  /** Drops the leading whitespace: the result is the suffix of s that starts at
      its first non-whitespace character. */
  function TrimStart(s: string): (r: string)
    ensures |r| <= |s| && r == s[|s| - |r|..]
    ensures IsBlank(s[..|s| - |r|])
    ensures r == [] || !IsWhitespace(r[0])
  {
    if s != [] && IsWhitespace(s[0]) then TrimStart(s[1..]) else s
  }

  /** Drops the trailing whitespace: the result is the prefix of s that ends at
      its last non-whitespace character. */
  function TrimEnd(s: string): (r: string)
    ensures |r| <= |s| && r == s[..|r|]
    ensures IsBlank(s[|r|..])
    ensures r == [] || !IsWhitespace(r[|r| - 1])
  {
    if s != [] && IsWhitespace(s[|s| - 1]) then TrimEnd(s[..|s| - 1]) else s
  }

  /** `s.trim()`: neither starts nor ends with whitespace, and is empty exactly
      when s is blank. */
  function Trim(s: string): (r: string)
    ensures r == [] <==> IsBlank(s)
    ensures r == [] || (!IsWhitespace(r[0]) && !IsWhitespace(r[|r| - 1]))
  {
    var t := TrimStart(s);
    TrimBlank(s, t);
    TrimEnd(t)
  }

  /** `s.trim()` is a contiguous piece of s with only whitespace before and
      after it. */
  lemma TrimInfix(s: string)
    ensures exists a, b :: 0 <= a <= b <= |s| && Trim(s) == s[a..b] && IsBlank(s[..a]) && IsBlank(s[b..])
  {
    var t := TrimStart(s);
    var a := |s| - |t|;
    var b := a + |TrimEnd(t)|;
    assert Trim(s) == TrimEnd(t) == s[a..b];
    assert s[b..] == t[|TrimEnd(t)|..];
  }

  /** Removing a blank prefix leaves the empty string exactly when the whole
      string was blank. */
  lemma TrimBlank(s: string, t: string)
    requires |t| <= |s| && t == s[|s| - |t|..] && IsBlank(s[..|s| - |t|])
    requires t == [] || !IsWhitespace(t[0])
    ensures t == [] <==> IsBlank(s)
  {
    var k := |s| - |t|;
    if t == [] {
      assert s == s[..k];
    } else {
      assert t[0] == s[k];
    }
  }
}
