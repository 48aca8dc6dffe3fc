/**
 Decimal rendering of integers, as JavaScript's `Number.prototype.toString`
 and template-literal interpolation produce it for integers below 10^21 in
 magnitude (which covers every year `Date` returns; larger numbers switch to
 exponent notation), and a parser that reads such a rendering back.
 */
module Decimal {
  import opened Wrappers

  predicate IsDigit(c: char) {
    '0' <= c <= '9'
  }

  predicate AllDigits(s: string) {
    forall i :: 0 <= i < |s| ==> IsDigit(s[i])
  }

  function DigitChar(d: nat): (c: char)
    requires d < 10
    ensures IsDigit(c)
  {
    ('0' as int + d) as char
  }

  function DigitValue(c: char): (d: nat)
    requires IsDigit(c)
    ensures d < 10
  {
    c as int - '0' as int
  }

  /** Shortest decimal rendering of a natural number (no leading zeros). */
  function NatToString(n: nat): (s: string)
    ensures |s| > 0 && AllDigits(s)
    ensures |s| > 1 ==> s[0] != '0'
    decreases n
  {
    if n < 10 then [DigitChar(n)] else NatToString(n / 10) + [DigitChar(n % 10)]
  }

  /** Value of a string of decimal digits, most significant first. */
  function DigitsValue(s: string): nat
    requires AllDigits(s)
    decreases |s|
  {
    if |s| == 0 then 0 else DigitsValue(s[..|s| - 1]) * 10 + DigitValue(s[|s| - 1])
  }

  /** Digits only, and no leading zero unless the number is zero itself. */
  predicate NoLeadingZero(s: string) {
    |s| > 0 && AllDigits(s) && (|s| > 1 ==> s[0] != '0')
  }

  /** The form `String(i)` gives an integer: shortest digits, a minus sign only in front of a non-zero value. */
  predicate Canonical(s: string) {
    || NoLeadingZero(s)
    || (|s| > 1 && s[0] == '-' && NoLeadingZero(s[1..]) && s[1] != '0')
  }

  /** `String(i)` for an integer `i`: a minus sign in front of negative numbers. */
  function IntToString(i: int): (s: string)
    ensures Canonical(s)
    ensures s[0] == '-' <==> i < 0
    ensures forall k :: 0 < k < |s| ==> IsDigit(s[k])
  {
    if i < 0 then "-" + NatToString(-i) else NatToString(i)
  }

  /** Reads back an optionally signed decimal integer; `None` for anything else. */
  function ParseInt(s: string): Option<int> {
    if |s| > 1 && s[0] == '-' && AllDigits(s[1..]) then Some(-(DigitsValue(s[1..]) as int))
    else if |s| > 0 && AllDigits(s) then Some(DigitsValue(s))
    else None
  }

  lemma {:induction false} DigitsValueOfNatToString(n: nat)
    ensures DigitsValue(NatToString(n)) == n
    decreases n
  {
    var s := NatToString(n);
    if n >= 10 {
      DigitsValueOfNatToString(n / 10);
      assert s[..|s| - 1] == NatToString(n / 10);
    }
  }

  /** Parsing the rendering of an integer gives the integer back. */
  lemma ParseIntToString(i: int)
    ensures ParseInt(IntToString(i)) == Some(i)
  {
    var s := IntToString(i);
    if i < 0 {
      assert s[1..] == NatToString(-i);
      DigitsValueOfNatToString(-i);
    } else {
      DigitsValueOfNatToString(i);
    }
  }

  /** Rendering the value of digits without a leading zero gives the digits back. */
  lemma {:induction false} NatToStringOfDigitsValue(s: string)
    requires NoLeadingZero(s)
    ensures NatToString(DigitsValue(s)) == s
    decreases |s|
  {
    var n := DigitsValue(s);
    if |s| == 1 {
      assert s[..|s| - 1] == [];
      assert DigitsValue(s[..|s| - 1]) == 0;
      assert n == DigitValue(s[0]);
      assert s == [DigitChar(n)];
    } else {
      var init := s[..|s| - 1];
      assert init[0] == s[0];
      NatToStringOfDigitsValue(init);
      var m := DigitsValue(init);
      assert n / 10 == m && n % 10 == DigitValue(s[|s| - 1]);
      assert s == init + [DigitChar(n % 10)];
    }
  }

  /**
   Canonical renderings and integers correspond one to one: a canonical
   string parses, and rendering its value gives the same string back.
   */
  lemma CanonicalRoundTrip(s: string)
    requires Canonical(s)
    ensures ParseInt(s).Some? && IntToString(ParseInt(s).value) == s
  {
    if NoLeadingZero(s) {
      NatToStringOfDigitsValue(s);
      assert !(|s| > 1 && s[0] == '-');
    } else {
      var t := s[1..];
      NatToStringOfDigitsValue(t);
      assert s == "-" + t;
    }
  }
}
