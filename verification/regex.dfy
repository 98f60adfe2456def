/** The fragment of JavaScript regular expressions that the anchored validation
    patterns use, with its meaning as a language of strings. A pattern written
    `/^…$/` without flags and tested with `RegExp.prototype.test` accepts a string
    exactly when the string is in the language of the part between the anchors
    (without the `m` flag `^` and `$` only match at the ends of the input). */
module Regex {
  import opened Wrappers

  datatype Re =
    | Epsilon                          // the empty string
    | Class(accepts: char -> bool)     // one character of a class: `\d`, `[A-Za-z]`, `.`
    | Cat(first: Re, second: Re)       // juxtaposition
    | Alt(left: Re, right: Re)         // `|`
    | Star(body: Re)                   // `*`

  /** A literal character. */
  function Lit(c: char): Re {
    Class(x => x == c)
  }

  /** `[lo-hi]` */
  function Range(lo: char, hi: char): Re {
    Class(x => lo <= x <= hi)
  }

  /** `r?` */
  function Opt(r: Re): Re {
    Alt(r, Epsilon)
  }

  /** `r+` */
  function Plus(r: Re): Re {
    Cat(r, Star(r))
  }

  /** `r{n}` */
  function Repeat(r: Re, n: nat): Re {
    if n == 0 then Epsilon else Cat(r, Repeat(r, n - 1))
  }

  /** The strings `r` matches in full. Matching with backtracking, as JavaScript does,
      accepts a string exactly when some way of splitting it fits the pattern. */
  ghost predicate Matches(r: Re, s: string)
    decreases r, |s|
  {
    match r
    case Epsilon => s == []
    case Class(p) => |s| == 1 && p(s[0])
    case Cat(a, b) => exists k :: 0 <= k <= |s| && Matches(a, s[..k]) && Matches(b, s[k..])
    case Alt(a, b) => Matches(a, s) || Matches(b, s)
    case Star(a) => s == [] || exists k :: 0 < k <= |s| && Matches(a, s[..k]) && Matches(Star(a), s[k..])
  }

  /** The one length every match of `r` has, when there is one. */
  function Width(r: Re): Option<nat> {
    match r
    case Epsilon => Some(0)
    case Class(_) => Some(1)
    case Cat(a, b) =>
      if Width(a).Some? && Width(b).Some? then Some(Width(a).value + Width(b).value) else None
    case Alt(a, b) => if Width(a) == Width(b) then Width(a) else None
    case Star(_) => None
  }

  lemma {:induction false} WidthSound(r: Re, s: string)
    requires Width(r).Some? && Matches(r, s)
    ensures |s| == Width(r).value
  {
    match r
    case Epsilon =>
    case Class(_) =>
    case Cat(a, b) =>
      var k :| 0 <= k <= |s| && Matches(a, s[..k]) && Matches(b, s[k..]);
      WidthSound(a, s[..k]);
      WidthSound(b, s[k..]);
    case Alt(a, b) =>
      if Matches(a, s) { WidthSound(a, s); } else { WidthSound(b, s); }
  }

  /** Concatenation after a fixed-width pattern splits at that width. */
  lemma CatFixed(a: Re, b: Re, s: string)
    requires Width(a).Some?
    ensures Matches(Cat(a, b), s) <==>
      |s| >= Width(a).value && Matches(a, s[..Width(a).value]) && Matches(b, s[Width(a).value..])
  {
    var n := Width(a).value;
    if Matches(Cat(a, b), s) {
      var k :| 0 <= k <= |s| && Matches(a, s[..k]) && Matches(b, s[k..]);
      WidthSound(a, s[..k]);
    }
  }

  /** A one-character class followed by anything. */
  lemma CatClass(p: char -> bool, b: Re, s: string)
    ensures Matches(Cat(Class(p), b), s) <==> |s| >= 1 && p(s[0]) && Matches(b, s[1..])
  {
    CatFixed(Class(p), b, s);
  }

  /** Anything followed by a one-character class. */
  lemma CatClassLast(a: Re, p: char -> bool, s: string)
    ensures Matches(Cat(a, Class(p)), s) <==> |s| >= 1 && p(s[|s| - 1]) && Matches(a, s[..|s| - 1])
  {
    if |s| >= 1 && p(s[|s| - 1]) && Matches(a, s[..|s| - 1]) {
      assert Matches(Class(p), s[|s| - 1..]);
    }
  }

  /** A starred class matches exactly the strings all of whose characters are in the class. */
  lemma {:induction false} StarClass(p: char -> bool, s: string)
    ensures Matches(Star(Class(p)), s) <==> forall i :: 0 <= i < |s| ==> p(s[i])
    decreases |s|
  {
    if s != [] {
      StarClass(p, s[1..]);
      if Matches(Star(Class(p)), s) {
        var k :| 0 < k <= |s| && Matches(Class(p), s[..k]) && Matches(Star(Class(p)), s[k..]);
        assert k == 1;
        assert forall i :: 1 <= i < |s| ==> s[i] == s[1..][i - 1];
      } else {
        assert !(Matches(Class(p), s[..1]) && Matches(Star(Class(p)), s[1..]));
      }
    }
  }

  /** `[class]+` matches the non-empty strings of characters in the class. */
  lemma PlusClass(p: char -> bool, s: string)
    ensures Matches(Plus(Class(p)), s) <==> |s| >= 1 && forall i :: 0 <= i < |s| ==> p(s[i])
  {
    CatClass(p, Star(Class(p)), s);
    if |s| >= 1 {
      StarClass(p, s[1..]);
      assert forall i :: 1 <= i < |s| ==> s[i] == s[1..][i - 1];
    }
  }

  /** `[class]{n}` matches the strings of exactly `n` characters in the class. */
  lemma {:induction false} RepeatClass(p: char -> bool, n: nat, s: string)
    ensures Matches(Repeat(Class(p), n), s) <==> |s| == n && forall i :: 0 <= i < |s| ==> p(s[i])
    decreases n
  {
    if n > 0 {
      CatClass(p, Repeat(Class(p), n - 1), s);
      if |s| >= 1 {
        RepeatClass(p, n - 1, s[1..]);
        assert forall i :: 1 <= i < |s| ==> s[i] == s[1..][i - 1];
      }
    }
  }

  lemma {:induction false} RepeatWidth(r: Re, n: nat)
    requires Width(r) == Some(1)
    ensures Width(Repeat(r, n)) == Some(n)
  {
    if n > 0 {
      RepeatWidth(r, n - 1);
    }
  }
}
