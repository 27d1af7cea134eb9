/** The two string operations the goal screens use: trimming whitespace and
    newlines, and lower-casing. */
module Text {

  /** Characters Foundation treats as whitespace or newline: tab, the line
      breaks U+000A through U+000D and U+0085, and the Unicode space, line and
      paragraph separators (general categories Zs, Zl, Zp). */
  predicate IsWhitespaceOrNewline(c: char) {
    || ('\U{0009}' <= c <= '\U{000D}')
    || c == ' ' || c == '\U{0085}' || c == '\U{00A0}' || c == '\U{1680}'
    || ('\U{2000}' <= c <= '\U{200A}')
    || c == '\U{2028}' || c == '\U{2029}' || c == '\U{202F}' || c == '\U{205F}' || c == '\U{3000}'
  }

  function TrimStart(s: string): (r: string)
    ensures |r| <= |s| && r == s[|s| - |r|..]
    ensures forall i :: 0 <= i < |s| - |r| ==> IsWhitespaceOrNewline(s[i])
    ensures r != [] ==> !IsWhitespaceOrNewline(r[0])
  {
    if s != [] && IsWhitespaceOrNewline(s[0]) then TrimStart(s[1..]) else s
  }

  function TrimEnd(s: string): (r: string)
    ensures |r| <= |s| && r == s[..|r|]
    ensures forall i :: |r| <= i < |s| ==> IsWhitespaceOrNewline(s[i])
    ensures r != [] ==> !IsWhitespaceOrNewline(r[|r| - 1])
  {
    if s != [] && IsWhitespaceOrNewline(s[|s| - 1]) then TrimEnd(s[..|s| - 1]) else s
  }

  /** `r` is the part of `s` from index `i` on, with only whitespace and newlines before and after it. */
  predicate StrippedAt(s: string, r: string, i: int) {
    && 0 <= i <= |s| - |r| && r == s[i..i + |r|]
    && (forall k :: 0 <= k < i ==> IsWhitespaceOrNewline(s[k]))
    && (forall k :: i + |r| <= k < |s| ==> IsWhitespaceOrNewline(s[k]))
  }

  /** `s` without its leading and trailing whitespace and newlines. */
  function Trim(s: string): (r: string)
    ensures |r| <= |s|
    ensures exists i :: StrippedAt(s, r, i)
    ensures r != [] ==> !IsWhitespaceOrNewline(r[0]) && !IsWhitespaceOrNewline(r[|r| - 1])
  {
    var a := TrimStart(s);
    var r := TrimEnd(a);
    StrippedBoth(s, a, r);
    r
  }

  /** Stripping the front of `s` to `a` and then the back of `a` to `r` strips `s` to `r` at `|s| - |a|`. */
  lemma StrippedBoth(s: string, a: string, r: string)
    requires |a| <= |s| && a == s[|s| - |a|..]
    requires forall i :: 0 <= i < |s| - |a| ==> IsWhitespaceOrNewline(s[i])
    requires |r| <= |a| && r == a[..|r|]
    requires forall i :: |r| <= i < |a| ==> IsWhitespaceOrNewline(a[i])
    ensures StrippedAt(s, r, |s| - |a|)
  {
    var i := |s| - |a|;
    assert forall k :: i + |r| <= k < |s| ==> s[k] == a[k - i];
  }

  /** Trimming leaves something exactly when some character is neither whitespace nor a newline. */
  lemma TrimEmptyIff(s: string)
    ensures Trim(s) != [] <==> exists i :: 0 <= i < |s| && !IsWhitespaceOrNewline(s[i])
  {
    var a := TrimStart(s);
    var b := TrimEnd(a);
    if Trim(s) != [] {
      assert b[0] == s[|s| - |a|];
    } else {
      assert |a| == 0;
    }
  }

  /** ASCII lower-casing of one character. */
  function LowerChar(c: char): (l: char)
    ensures 'A' <= c <= 'Z' ==> l as int == c as int + 32
    ensures !('A' <= c <= 'Z') ==> l == c
  {
    if 'A' <= c <= 'Z' then (c as int + 32) as char else c
  }

  function Lower(s: string): (r: string)
    ensures |r| == |s|
    ensures forall i :: 0 <= i < |s| ==> r[i] == LowerChar(s[i])
  {
    seq(|s|, i requires 0 <= i < |s| => LowerChar(s[i]))
  }
}
