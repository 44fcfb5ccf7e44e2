/** ECMAScript's `String.prototype.trim`, the test behind the blank-input guard of `sendMessage`.
    Strings are sequences of Unicode scalar values; UTF-16 code units are not modelled. */
module JsString {

  /** A WhiteSpace code point of ECMAScript (section 12.2 of ECMA-262): TAB, VT, FF, ZWNBSP
      and every code point of the Unicode category Zs. */
  predicate IsWhiteSpace(c: char) {
    c == '\t' || c == '\U{000B}' || c == '\U{000C}' || c == '\U{FEFF}' ||
    c == ' ' || c == '\U{00A0}' || c == '\U{1680}' || ('\U{2000}' <= c <= '\U{200A}') ||
    c == '\U{202F}' || c == '\U{205F}' || c == '\U{3000}'
  }

  /** A LineTerminator code point of ECMAScript (section 12.3 of ECMA-262): LF, CR, LS and PS. */
  predicate IsLineTerminator(c: char) {
    c == '\n' || c == '\r' || c == '\U{2028}' || c == '\U{2029}'
  }

  /** What `trim` strips from either end of a string. */
  predicate IsTrimmable(c: char) {
    IsWhiteSpace(c) || IsLineTerminator(c)
  }

  /** `s` with its leading trimmable characters removed: a suffix of `s` that starts with a
      character `trim` keeps, and everything removed is trimmable. */
  function TrimStart(s: string): (r: string)
    ensures |r| <= |s| && r == s[|s| - |r|..]
    ensures forall i :: 0 <= i < |s| - |r| ==> IsTrimmable(s[i])
    ensures r != [] ==> !IsTrimmable(r[0])
  {
    if s != [] && IsTrimmable(s[0]) then TrimStart(s[1..]) else s
  }

  /** `s` with its trailing trimmable characters removed: a prefix of `s` that ends with a
      character `trim` keeps, and everything removed is trimmable. */
  function TrimEnd(s: string): (r: string)
    ensures |r| <= |s| && r == s[..|r|]
    ensures forall i :: |r| <= i < |s| ==> IsTrimmable(s[i])
    ensures r != [] ==> !IsTrimmable(r[|r| - 1])
  {
    if s != [] && IsTrimmable(s[|s| - 1]) then TrimEnd(s[..|s| - 1]) else s
  }

  /** `s.trim()`: `TrimStart(s)` cut before its trailing trimmable characters, so the piece of
      `s` between its leading and its trailing trimmable runs. It is empty exactly when every
      character of `s` is trimmable; otherwise it starts and ends with characters `trim`
      keeps. */
  function Trim(s: string): (r: string)
    ensures r <= TrimStart(s)
    ensures forall j :: |r| <= j < |TrimStart(s)| ==> IsTrimmable(TrimStart(s)[j])
    ensures r == [] <==> forall i :: 0 <= i < |s| ==> IsTrimmable(s[i])
    ensures r != [] ==> !IsTrimmable(r[0]) && !IsTrimmable(r[|r| - 1])
  {
    var t := TrimStart(s);
    var k := |s| - |t|;
    assert forall i :: k <= i < |s| ==> s[i] == t[i - k];
    assert t == [] || !IsTrimmable(s[k]);
    TrimEnd(t)
  }

  /** `!s.trim()`: the trimmed string is empty, and so falsy. */
  predicate IsBlank(s: string)
    ensures IsBlank(s) <==> forall i :: 0 <= i < |s| ==> IsTrimmable(s[i])
  {
    Trim(s) == ""
  }

  /** A string that starts and ends with kept characters is its own trim. */
  lemma TrimKeepsInner(s: string)
    requires s != [] && !IsTrimmable(s[0]) && !IsTrimmable(s[|s| - 1])
    ensures Trim(s) == s
  {
  }

  /** Trimming twice removes nothing more. */
  lemma TrimIdempotent(s: string)
    ensures Trim(Trim(s)) == Trim(s)
  {
    if Trim(s) != [] {
      TrimKeepsInner(Trim(s));
    }
  }
}
