/** The Python string built-ins the modelled code relies on: `str()` of an integer,
    the zero-padded format `f"{i:0{width}d}"`, `int()` of a digit string, `str.strip`
    and `str.lower`. */
module PyStr {

  predicate IsDigit(c: char) {
    '0' <= c <= '9'
  }

  predicate AllDigits(s: string) {
    forall i :: 0 <= i < |s| ==> IsDigit(s[i])
  }

  function DigitChar(d: nat): (c: char)
    requires d < 10
    ensures IsDigit(c)
  {
    ('0' as int + d) as char
  }

  function DigitValue(c: char): (d: nat)
    requires IsDigit(c)
    ensures d < 10
  {
    c as int - '0' as int
  }

  /** `str(n)` for a non-negative integer: decimal digits, no leading zero. */
  function NatToString(n: nat): (s: string)
    ensures |s| >= 1 && AllDigits(s)
    ensures s[0] == '0' ==> n == 0
  {
    if n < 10 then [DigitChar(n)] else NatToString(n / 10) + [DigitChar(n % 10)]
  }

  /** `str(i)` for any integer: a minus sign before the digits of a negative number. */
  function IntToString(i: int): (s: string)
    ensures |s| >= 1
    ensures i >= 0 ==> AllDigits(s)
    ensures i < 0 ==> s[0] == '-'
  {
    if i < 0 then "-" + NatToString(-i) else NatToString(i)
  }

  /** `int(s)` for a non-empty string of decimal digits (and 0 for the empty string). */
  function DigitsValue(s: string): nat
    requires AllDigits(s)
  {
    if s == [] then 0 else DigitsValue(s[..|s| - 1]) * 10 + DigitValue(s[|s| - 1])
  }

  /** `int(str(n)) == n`. */
  lemma {:induction false} DigitsValueOfNatToString(n: nat)
    ensures DigitsValue(NatToString(n)) == n
  {
    if n >= 10 {
      var s := NatToString(n);
      assert s[..|s| - 1] == NatToString(n / 10);
      DigitsValueOfNatToString(n / 10);
    }
  }

  function Zeros(k: nat): (s: string)
    ensures |s| == k && AllDigits(s)
  {
    seq(k, _ => '0')
  }

  /** Leading zeros do not change the value of a digit string. */
  lemma {:induction false} DigitsValueLeadingZeros(k: nat, s: string)
    requires AllDigits(s)
    ensures DigitsValue(Zeros(k) + s) == DigitsValue(s)
    decreases |s|
  {
    if s == [] {
      ZerosValue(k);
      assert Zeros(k) + s == Zeros(k);
    } else {
      var t := Zeros(k) + s;
      assert t[..|t| - 1] == Zeros(k) + s[..|s| - 1];
      DigitsValueLeadingZeros(k, s[..|s| - 1]);
    }
  }

  lemma {:induction false} ZerosValue(k: nat)
    ensures DigitsValue(Zeros(k)) == 0
  {
    if k > 0 {
      assert Zeros(k)[..k - 1] == Zeros(k - 1);
      ZerosValue(k - 1);
    }
  }

  /** `f"{i:0{width}d}"` for a non-negative `i`: its digits, left-padded with zeros to at
      least `width` characters. */
  function ZeroPad(i: nat, width: nat): (s: string)
    ensures AllDigits(s)
    ensures |s| == if |NatToString(i)| >= width then |NatToString(i)| else width
  {
    var digits := NatToString(i);
    if |digits| >= width then digits else Zeros(width - |digits|) + digits
  }

  /** Reading a zero-padded number back gives the number: `int(f"{i:0{w}d}") == i`. */
  lemma ZeroPadValue(i: nat, width: nat)
    ensures DigitsValue(ZeroPad(i, width)) == i
  {
    var digits := NatToString(i);
    DigitsValueOfNatToString(i);
    if |digits| < width {
      DigitsValueLeadingZeros(width - |digits|, digits);
    }
  }

  /** Different numbers padded to the same width give different strings. */
  lemma ZeroPadInjective(i: nat, j: nat, width: nat)
    requires ZeroPad(i, width) == ZeroPad(j, width)
    ensures i == j
  {
    ZeroPadValue(i, width);
    ZeroPadValue(j, width);
  }

  /** `len(str(n))`: the digit width of a count. */
  function Width(n: nat): (w: nat)
    ensures w >= 1
  {
    |NatToString(n)|
  }

  /** The characters for which Python's `str.isspace()` holds. */
  predicate IsSpace(c: char) {
    || c == ' '
    || '\t' <= c <= '\r'
    || '\U{1C}' <= c <= '\U{1F}'
    || c == '\U{85}' || c == '\U{A0}' || c == '\U{1680}'
    || '\U{2000}' <= c <= '\U{200A}'
    || c == '\U{2028}' || c == '\U{2029}' || c == '\U{202F}' || c == '\U{205F}'
    || c == '\U{3000}'
  }

  /** Drops the leading characters that satisfy `drop`. */
  function TrimLeft(s: string, drop: char -> bool): (r: string)
    ensures |r| <= |s| && r == s[|s| - |r|..]
    ensures r != [] ==> !drop(r[0])
    ensures forall i :: 0 <= i < |s| - |r| ==> drop(s[i])
  {
    if s != [] && drop(s[0]) then TrimLeft(s[1..], drop) else s
  }

  /** Drops the trailing characters that satisfy `drop`. */
  function TrimRight(s: string, drop: char -> bool): (r: string)
    ensures |r| <= |s| && r == s[..|r|]
    ensures r != [] ==> !drop(r[|r| - 1])
    ensures forall i :: |r| <= i < |s| ==> drop(s[i])
  {
    if s != [] && drop(s[|s| - 1]) then TrimRight(s[..|s| - 1], drop) else s
  }

  /** `s.strip(chars)`: `s` without its leading and trailing characters in `drop`. */
  function StripBy(s: string, drop: char -> bool): (r: string)
  {
    TrimRight(TrimLeft(s, drop), drop)
  }

  /** Every character of `s` outside `s[a..b]` is one that `drop` holds for. */
  predicate DroppedOutside(s: string, a: nat, b: nat, drop: char -> bool)
    requires a <= b <= |s|
  {
    && (forall i :: 0 <= i < a ==> drop(s[i]))
    && (forall i :: b <= i < |s| ==> drop(s[i]))
  }

  /** What `StripBy` removes is a prefix and a suffix made only of dropped characters. */
  lemma StripByShape(s: string, drop: char -> bool)
    ensures exists a, b :: 0 <= a <= b <= |s| && StripBy(s, drop) == s[a..b] && DroppedOutside(s, a, b, drop)
  {
    var l := TrimLeft(s, drop);
    var a := |s| - |l|;
    assert l == s[a..];
    assert forall i :: 0 <= i < a ==> drop(s[i]);
    var r := TrimRight(l, drop);
    var b := a + |r|;
    assert r == l[..|r|];
    assert forall j :: |r| <= j < |l| ==> drop(l[j]);
    assert r == s[a..b];
    forall i | b <= i < |s|
      ensures drop(s[i])
    {
      assert s[i] == l[i - a];
    }
    assert DroppedOutside(s, a, b, drop);
  }

  /** What `StripBy` keeps neither starts nor ends with a dropped character. */
  lemma StripByEnds(s: string, drop: char -> bool)
    ensures var r := StripBy(s, drop);
            r != [] ==> !drop(r[0]) && !drop(r[|r| - 1])
  {
    var l := TrimLeft(s, drop);
    var r := TrimRight(l, drop);
    if r != [] {
      assert r[0] == l[0];
    }
  }

  /** `s.strip()`: whitespace removed from both ends. */
  function Strip(s: string): string {
    StripBy(s, IsSpace)
  }

  /** `c.lower()` for ASCII letters. */
  function LowerChar(c: char): char {
    if 'A' <= c <= 'Z' then (c as int + 32) as char else c
  }

  /** `s.lower()`, ASCII letters only. */
  function Lower(s: string): (r: string)
    ensures |r| == |s|
  {
    seq(|s|, i requires 0 <= i < |s| => LowerChar(s[i]))
  }

  /** Lexicographic order of Python strings: by code point, a proper prefix first. */
  predicate StrLe(a: string, b: string)
    decreases |a|
  {
    a == [] || (b != [] && (a[0] < b[0] || (a[0] == b[0] && StrLe(a[1..], b[1..]))))
  }

  lemma {:induction false} StrLeTotal(a: string, b: string)
    ensures StrLe(a, b) || StrLe(b, a)
    decreases |a|
  {
    if a != [] && b != [] && a[0] == b[0] {
      StrLeTotal(a[1..], b[1..]);
    }
  }

  lemma {:induction false} StrLeTransitive(a: string, b: string, c: string)
    requires StrLe(a, b) && StrLe(b, c)
    ensures StrLe(a, c)
    decreases |a|
  {
    if a != [] && a[0] == b[0] && b[0] == c[0] {
      StrLeTransitive(a[1..], b[1..], c[1..]);
    }
  }

  lemma {:induction false} StrLeAntisymmetric(a: string, b: string)
    requires StrLe(a, b) && StrLe(b, a)
    ensures a == b
    decreases |a|
  {
    if a != [] {
      StrLeAntisymmetric(a[1..], b[1..]);
      assert a == [a[0]] + a[1..] && b == [b[0]] + b[1..];
    }
  }
}
