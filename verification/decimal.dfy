/**
 Strict decimal literals: the digit strings the supply endpoint sends for its
 arbitrary-precision quantities, read and printed with exact integers.
 */
module Decimal {
  import opened Wrappers

  predicate IsDigit(c: char) {
    '0' <= c <= '9'
  }

  function DigitValue(c: char): (d: nat)
    requires IsDigit(c)
    ensures d < 10
  {
    (c as int) - ('0' as int)
  }

  function DigitChar(d: nat): (c: char)
    requires d < 10
    ensures IsDigit(c) && DigitValue(c) == d
  {
    (('0' as int) + d) as char
  }

  /** A non-empty string of ASCII decimal digits (leading zeros allowed). */
  predicate IsDecimal(s: string) {
    |s| > 0 && forall i :: 0 <= i < |s| ==> IsDigit(s[i])
  }

  /** The number a digit string denotes, read most significant digit first. */
  function Value(s: string): nat
    requires forall i :: 0 <= i < |s| ==> IsDigit(s[i])
  {
    if |s| == 0 then 0
    else Value(s[..|s| - 1]) * 10 + DigitValue(s[|s| - 1])
  }

  /** Strict parse: every non-empty digit string succeeds, anything else fails. */
  function Parse(s: string): (r: Option<nat>)
    ensures r.Some? <==> IsDecimal(s)
  {
    if IsDecimal(s) then Some(Value(s)) else None
  }

  /** The canonical decimal spelling of `n`: no leading zeros. */
  function Print(n: nat): (s: string)
    ensures IsDecimal(s)
    ensures |s| > 1 ==> s[0] != '0'
    decreases n
  {
    if n < 10 then [DigitChar(n)]
    else Print(n / 10) + [DigitChar(n % 10)]
  }

  /** Printing and then parsing gives the number back. */
  lemma {:induction false} ParsePrint(n: nat)
    ensures Parse(Print(n)) == Some(n)
    decreases n
  {
    var s := Print(n);
    if n < 10 {
      assert Value(s) == Value(s[..0]) * 10 + n;
    } else {
      ParsePrint(n / 10);
      assert s[..|s| - 1] == Print(n / 10);
      assert Value(s) == (n / 10) * 10 + n % 10;
    }
  }

  /** Leading zeros do not change the value, as for any place-value reading. */
  lemma {:induction false} LeadingZero(s: string)
    requires IsDecimal(s)
    ensures Parse("0" + s) == Parse(s)
    decreases |s|
  {
    var t := "0" + s;
    if |s| == 1 {
      assert t[..|t| - 1] == "0";
      assert Value("0") == Value("") * 10 + 0;
      assert Value(s) == Value(s[..0]) * 10 + DigitValue(s[0]);
    } else {
      var p := s[..|s| - 1];
      LeadingZero(p);
      assert t[..|t| - 1] == "0" + p;
    }
  }

  /** Parsing a canonical spelling and printing it again gives the same string. */
  lemma {:induction false} PrintParse(s: string)
    requires IsDecimal(s)
    requires |s| > 1 ==> s[0] != '0'
    ensures Print(Value(s)) == s
    decreases |s|
  {
    var p := s[..|s| - 1];
    var d := DigitValue(s[|s| - 1]);
    if |s| == 1 {
      assert Value(s) == d;
    } else {
      assert p[0] == s[0];
      PrintParse(p);
      ValuePositive(p);
      assert Value(s) == Value(p) * 10 + d;
      assert Value(s) / 10 == Value(p) && Value(s) % 10 == d;
      assert s == p + [s[|s| - 1]];
    }
  }

  /** A canonical spelling of two or more digits denotes a number of at least 10^(len-1) > 0. */
  lemma {:induction false} ValuePositive(s: string)
    requires IsDecimal(s)
    requires s[0] != '0'
    ensures Value(s) > 0
    decreases |s|
  {
    if |s| > 1 {
      var p := s[..|s| - 1];
      assert p[0] == s[0];
      ValuePositive(p);
    }
  }

  /** The left-to-right accumulation a big-integer constructor performs on a digit string. */
  method ParseDigits(s: string) returns (r: Option<nat>)
    ensures r == Parse(s)
  {
    if |s| == 0 {
      return None;
    }
    var acc: nat := 0;
    var i := 0;
    while i < |s|
      invariant 0 <= i <= |s|
      invariant forall k :: 0 <= k < i ==> IsDigit(s[k])
      invariant acc == Value(s[..i])
    {
      if !IsDigit(s[i]) {
        assert !IsDecimal(s);
        return None;
      }
      assert s[..i + 1][..i] == s[..i];
      acc := acc * 10 + DigitValue(s[i]);
      i := i + 1;
    }
    assert s[..i] == s;
    return Some(acc);
  }
}
