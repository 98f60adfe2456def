/** Character classes of JavaScript regular expressions without the `u`, `i` and `s`
    flags, and the whitespace trimming of `String.prototype.trim`. */
module JsChars {

  /** ECMAScript LineTerminator: the characters `.` refuses when the `s` flag is absent. */
  predicate IsLineTerminator(c: char) {
    c == '\n' || c == '\r' || c == '\U{2028}' || c == '\U{2029}'
  }

  /** `\s`: ECMAScript WhiteSpace (tab, vertical tab, form feed, space, no-break space,
      byte order mark and the Unicode space separators) plus LineTerminator. The same
      set is what `trim` strips, so one predicate serves both. */
  predicate IsSpace(c: char) {
    || c == '\t' || c == '\U{000B}' || c == '\U{000C}' || c == ' '
    || c == '\U{00A0}' || c == '\U{FEFF}' || c == '\U{1680}'
    || ('\U{2000}' <= c <= '\U{200A}')
    || c == '\U{202F}' || c == '\U{205F}' || c == '\U{3000}'
    || IsLineTerminator(c)
  }

  /** `\S` */
  predicate IsNonSpace(c: char) {
    !IsSpace(c)
  }

  /** `.` without the `s` flag */
  predicate IsDotChar(c: char) {
    !IsLineTerminator(c)
  }

  /** `\d` */
  predicate IsDigit(c: char) {
    '0' <= c <= '9'
  }

  /** `[1-9]` */
  predicate IsNonZeroDigit(c: char) {
    '1' <= c <= '9'
  }

  /** `[A-Za-z]` */
  predicate IsAsciiLetter(c: char) {
    ('A' <= c <= 'Z') || ('a' <= c <= 'z')
  }

  /** `\w` without the `u` and `i` flags: ASCII letters, digits and underscore. */
  predicate IsWordChar(c: char) {
    IsAsciiLetter(c) || IsDigit(c) || c == '_'
  }

  /** `\b` at position `i` of `s`: exactly one of the characters on either side is a word character. */
  predicate IsWordBoundary(s: string, i: int)
    requires 0 <= i <= |s|
  {
    (0 < i && IsWordChar(s[i - 1])) != (i < |s| && IsWordChar(s[i]))
  }

  lemma LineTerminatorIsSpace(c: char)
    ensures IsLineTerminator(c) ==> IsSpace(c)
  {
  }

  lemma WordCharIsNotSpace(c: char)
    ensures IsWordChar(c) ==> !IsSpace(c)
  {
  }

  /** Value of a decimal digit. */
  function DigitValue(c: char): (d: nat)
    requires IsDigit(c)
    ensures d < 10
  {
    (c as int) - ('0' as int)
  }

  /** The digit character for `d`; inverse of `DigitValue`. */
  function DigitChar(d: nat): (c: char)
    requires d < 10
    ensures IsDigit(c) && DigitValue(c) == d
  {
    (d + '0' as int) as char
  }

  /** The end of the run of characters satisfying `p` that starts at `from`:
      the first index at or after `from` whose character fails `p`, or `|s|`. */
  function RunEnd(s: string, from: nat, p: char -> bool): (e: nat)
    requires from <= |s|
    ensures from <= e <= |s|
    ensures forall i :: from <= i < e ==> p(s[i])
    ensures e == |s| || !p(s[e])
    decreases |s| - from
  {
    if from == |s| || !p(s[from]) then from else RunEnd(s, from + 1, p)
  }

  /** A run end is determined by where it starts: any `e` with the two properties of
      `RunEnd` is `RunEnd`. */
  lemma RunEndUnique(s: string, from: nat, p: char -> bool, e: nat)
    requires from <= e <= |s|
    requires forall i :: from <= i < e ==> p(s[i])
    requires e == |s| || !p(s[e])
    ensures RunEnd(s, from, p) == e
  {
  }

  /** `s` with leading whitespace removed (the first step of `trim`, and of `parseInt`). */
  function TrimStart(s: string): (r: string)
    ensures |r| <= |s| && r == s[|s| - |r|..]
    ensures forall i :: 0 <= i < |s| - |r| ==> IsSpace(s[i])
    ensures r == [] || !IsSpace(r[0])
  {
    if s != [] && IsSpace(s[0]) then TrimStart(s[1..]) else s
  }

  /** `s` with trailing whitespace removed. */
  function TrimEnd(s: string): (r: string)
    ensures |r| <= |s| && r == s[..|r|]
    ensures forall i :: |r| <= i < |s| ==> IsSpace(s[i])
    ensures r == [] || !IsSpace(r[|r| - 1])
  {
    if s != [] && IsSpace(s[|s| - 1]) then TrimEnd(s[..|s| - 1]) else s
  }

  /** Number of leading whitespace characters. */
  function LeadingSpaces(s: string): nat {
    |s| - |TrimStart(s)|
  }

  /** `String.prototype.trim`: a slice of the input with only whitespace cut away on
      either side, whose own ends are not whitespace. */
  function Trim(s: string): (r: string)
    ensures LeadingSpaces(s) + |r| <= |s|
    ensures r == s[LeadingSpaces(s)..LeadingSpaces(s) + |r|]
    ensures forall i :: 0 <= i < LeadingSpaces(s) ==> IsSpace(s[i])
    ensures forall i :: LeadingSpaces(s) + |r| <= i < |s| ==> IsSpace(s[i])
    ensures r == [] || (IsNonSpace(r[0]) && IsNonSpace(r[|r| - 1]))
  {
    var t := TrimStart(s);
    var r := TrimEnd(t);
    InnerSlice(s, t, r, LeadingSpaces(s));
    assert r != [] ==> r[0] == t[0];
    r
  }

  /** `r`, a prefix of the suffix `t` of `s` followed only by whitespace, is a slice of
      `s` followed only by whitespace. */
  lemma InnerSlice(s: string, t: string, r: string, lead: nat)
    requires lead + |t| == |s| && t == s[lead..]
    requires |r| <= |t| && r == t[..|r|]
    requires forall i :: |r| <= i < |t| ==> IsSpace(t[i])
    ensures lead + |r| <= |s| && r == s[lead..lead + |r|]
    ensures forall i :: lead + |r| <= i < |s| ==> IsSpace(s[i])
  {
    forall i | lead + |r| <= i < |s| ensures IsSpace(s[i]) {
      assert s[i] == t[i - lead];
    }
  }
}
