/** Numbers as JavaScript writes and reads them in this program: `String(n)` for
    integers, `parseInt` without a radix, and `padStart`. */
module Decimal {
  import opened Wrappers
  import opened JsChars

  /** `[0-9a-fA-F]` */
  predicate IsHexDigit(c: char) {
    IsDigit(c) || ('a' <= c <= 'f') || ('A' <= c <= 'F')
  }

  /** A digit of radix 10, or of radix 16. */
  predicate IsRadixDigit(c: char, radix: nat) {
    if radix == 16 then IsHexDigit(c) else IsDigit(c)
  }

  predicate AllRadixDigits(s: string, radix: nat) {
    forall i :: 0 <= i < |s| ==> IsRadixDigit(s[i], radix)
  }

  function RadixDigitValue(c: char, radix: nat): (d: nat)
    requires radix == 10 || radix == 16
    requires IsRadixDigit(c, radix)
    ensures d < radix
  {
    if IsDigit(c) then DigitValue(c)
    else if 'a' <= c <= 'f' then (c as int) - ('a' as int) + 10
    else (c as int) - ('A' as int) + 10
  }

  /** The value of a string of digits, most significant first. */
  function Value(s: string, radix: nat): nat
    requires radix == 10 || radix == 16
    requires AllRadixDigits(s, radix)
  {
    if s == [] then 0 else radix * Value(s[..|s| - 1], radix) + RadixDigitValue(s[|s| - 1], radix)
  }

  /** Decimal digits of `n` without leading zeros. */
  function NatDigits(n: nat): (r: string)
    ensures |r| >= 1 && AllRadixDigits(r, 10)
    ensures Value(r, 10) == n
    ensures (r[0] == '0') == (n == 0)
    ensures n == 0 ==> r == "0"
  {
    if n < 10 then [DigitChar(n)]
    else
      var prefix := NatDigits(n / 10);
      var r := prefix + [DigitChar(n % 10)];
      assert r[..|r| - 1] == prefix;
      r
  }

  /** `String(n)` for an integer `n` below 10^21 in magnitude. */
  function ToDecimal(n: int): (r: string)
    ensures |r| >= 1
    ensures forall i :: 0 <= i < |r| ==> IsDigit(r[i]) || r[i] == '-'
    ensures (r[0] == '-') == (n < 0)
  {
    if n < 0 then "-" + NatDigits(-n) else NatDigits(n)
  }

  /** Reads back what `ToDecimal` writes: an optional minus sign and one or more digits. */
  function ParseDecimal(s: string): Option<int> {
    if |s| >= 2 && s[0] == '-' && AllRadixDigits(s[1..], 10) then Some(-(Value(s[1..], 10) as int))
    else if |s| >= 1 && AllRadixDigits(s, 10) then Some(Value(s, 10))
    else None
  }

  lemma DecimalRoundTrip(n: int)
    ensures ParseDecimal(ToDecimal(n)) == Some(n)
  {
    if n < 0 {
      assert ToDecimal(n)[1..] == NatDigits(-n);
    }
  }

  /** Distinct integers are written differently. */
  lemma ToDecimalInjective(m: int, n: int)
    ensures ToDecimal(m) == ToDecimal(n) ==> m == n
  {
    DecimalRoundTrip(m);
    DecimalRoundTrip(n);
  }

  /** Leading zeros do not change the value of a digit string. */
  lemma {:induction false} LeadingZerosValue(z: string, s: string)
    requires forall i :: 0 <= i < |z| ==> z[i] == '0'
    requires AllRadixDigits(s, 10)
    ensures AllRadixDigits(z + s, 10)
    ensures Value(z + s, 10) == Value(s, 10)
    decreases |z| + |s|
  {
    var zs := z + s;
    if s == [] {
      assert zs == z;
      if z != [] {
        assert zs[..|zs| - 1] == z[..|z| - 1] + [];
        LeadingZerosValue(z[..|z| - 1], []);
      }
    } else {
      assert zs[..|zs| - 1] == z + s[..|s| - 1];
      LeadingZerosValue(z, s[..|s| - 1]);
    }
  }

  /** Splitting off the last two digits: the value is a hundred times the head plus the tail. */
  lemma ValueSplitTwo(a: string, b: string)
    requires |b| == 2 && AllRadixDigits(a, 10) && AllRadixDigits(b, 10)
    ensures AllRadixDigits(a + b, 10)
    ensures Value(a + b, 10) == 100 * Value(a, 10) + Value(b, 10)
  {
    var ab := a + b;
    var a0 := a + [b[0]];
    assert ab[..|ab| - 1] == a0;
    assert a0[..|a0| - 1] == a;
    assert b[..1] == [b[0]];
    assert [b[0]][..0] == [];
    var d0 := RadixDigitValue(b[0], 10);
    var d1 := RadixDigitValue(b[1], 10);
    assert Value([b[0]], 10) == d0;
    assert Value(b, 10) == 10 * d0 + d1;
    assert Value(a0, 10) == 10 * Value(a, 10) + d0;
    assert Value(ab, 10) == 10 * Value(a0, 10) + d1;
  }

  /** `s.padStart(len, fill)`: `s` preceded by as many copies of `fill` as make it
      `len` long; a string already that long is returned unchanged. */
  function PadStart(s: string, len: nat, fill: char): (r: string)
    ensures |r| == if |s| >= len then |s| else len
    ensures r[|r| - |s|..] == s
    ensures forall i :: 0 <= i < |r| - |s| ==> r[i] == fill
  {
    if |s| >= len then s else seq(len - |s|, _ => fill) + s
  }

  /** A JavaScript number as this program produces them: an integer or `NaN`. */
  datatype Num = Int(value: int) | NaN

  /** `String(x)`. */
  function NumberToString(x: Num): string {
    match x
    case Int(n) => ToDecimal(n)
    case NaN => "NaN"
  }

  /** The longest run of radix digits at the start of `s`, read as a number; `None`
      when `s` does not start with a digit. */
  function ReadDigits(s: string, radix: nat): Option<nat>
    requires radix == 10 || radix == 16
  {
    var end := RunEnd(s, 0, if radix == 16 then IsHexDigit else IsDigit);
    if end == 0 then None else Some(Value(s[..end], radix))
  }

  /** The unsigned part of `parseInt`: radix 16 after a `0x` or `0X` prefix, else radix 10. */
  function ReadMagnitude(u: string): Option<nat> {
    if |u| >= 2 && u[0] == '0' && (u[1] == 'x' || u[1] == 'X') then ReadDigits(u[2..], 16)
    else ReadDigits(u, 10)
  }

  /** `parseInt(s)` with no radix argument: skip leading whitespace, take an optional
      sign, then read the magnitude; no digits at all gives `NaN`. `-0` is represented
      by 0, which `String` writes the same way. */
  function ParseInt(s: string): Num {
    var t := TrimStart(s);
    var negative := t != [] && t[0] == '-';
    var u := if t != [] && (t[0] == '-' || t[0] == '+') then t[1..] else t;
    match ReadMagnitude(u)
    case None => NaN
    case Some(m) => Int(if negative then -(m as int) else m)
  }

  lemma ReadDigitsStops(d: string, rest: string)
    requires |d| >= 1 && AllRadixDigits(d, 10)
    requires rest == [] || !IsDigit(rest[0])
    ensures ReadDigits(d + rest, 10) == Some(Value(d, 10))
  {
    var u := d + rest;
    assert u[..|d|] == d;
    RunEndUnique(u, 0, IsDigit, |d|);
  }

  /** `parseInt` reads back `String(n)`, and stops at the first character that cannot
      continue the number; the one exception is `0` followed by `x`, which `parseInt`
      reads as the start of a hexadecimal literal. */
  lemma ParseIntOfDecimal(n: int, rest: string)
    requires rest == [] || !IsDigit(rest[0])
    requires n == 0 ==> rest == [] || (rest[0] != 'x' && rest[0] != 'X')
    ensures ParseInt(ToDecimal(n) + rest) == Int(n)
  {
    var m: nat := if n < 0 then -n else n;
    var d := NatDigits(m);
    MagnitudeOfDigits(d, rest);
    if n < 0 {
      ParseIntOfMinus(ToDecimal(n) + rest, d + rest, m);
    } else {
      ParseIntOfPlain(ToDecimal(n) + rest, m);
    }
  }

  /** A run of decimal digits, then a tail that neither continues the digits nor turns
      a lone `0` into a hexadecimal prefix, is read as the digits' value. */
  lemma MagnitudeOfDigits(d: string, rest: string)
    requires |d| >= 1 && AllRadixDigits(d, 10)
    requires rest == [] || !IsDigit(rest[0])
    requires d[0] == '0' ==> |d| > 1 || rest == [] || (rest[0] != 'x' && rest[0] != 'X')
    ensures (d + rest) != [] && IsDigit((d + rest)[0])
    ensures ReadMagnitude(d + rest) == Some(Value(d, 10))
  {
    var u := d + rest;
    assert IsRadixDigit(d[0], 10);
    assert u[0] == d[0];
    assert !(|u| >= 2 && u[0] == '0' && (u[1] == 'x' || u[1] == 'X')) by {
      if |u| >= 2 && u[0] == '0' {
        if |d| > 1 {
          assert u[1] == d[1] && IsRadixDigit(d[1], 10);
        } else {
          assert u[1] == rest[0];
        }
      }
    }
    ReadDigitsStops(d, rest);
  }

  lemma ParseIntOfMinus(s: string, u: string, m: nat)
    requires s == "-" + u
    requires ReadMagnitude(u) == Some(m)
    ensures ParseInt(s) == Int(-(m as int))
  {
    assert s[0] == '-' && !IsSpace(s[0]);
    assert TrimStart(s) == s;
    assert s[1..] == u;
  }

  lemma ParseIntOfPlain(u: string, m: nat)
    requires u != [] && IsDigit(u[0])
    requires ReadMagnitude(u) == Some(m)
    ensures ParseInt(u) == Int(m)
  {
    assert !IsSpace(u[0]);
    assert TrimStart(u) == u;
  }
}
