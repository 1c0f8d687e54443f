/** Decimal text of a 32-bit Java `int`: the reading done by
    `Integer.parseInt(String)` and, as its partner, the writing done by
    `Integer.toString(int)`. Only the ASCII digits '0'..'9' are digits here. */
module JavaInteger {
  import opened Wrappers

  const MinValue: int := -0x8000_0000
  const MaxValue: int := 0x7FFF_FFFF

  /** The value fits in a Java `int`. */
  predicate InRange(n: int) {
    MinValue <= n <= MaxValue
  }

  predicate IsDigit(c: char) {
    '0' <= c <= '9'
  }

  predicate IsDigits(s: string) {
    forall i :: 0 <= i < |s| ==> IsDigit(s[i])
  }

  function DigitValue(c: char): (d: nat)
    requires IsDigit(c)
    ensures d < 10
  {
    c as int - '0' as int
  }

  function DigitChar(d: nat): (c: char)
    requires d < 10
    ensures IsDigit(c) && DigitValue(c) == d
  {
    ('0' as int + d) as char
  }

  /** The value of a run of decimal digits, most significant digit first
      (leading zeros allowed). */
  function DigitsValue(s: string): nat
    requires IsDigits(s)
  {
    if |s| == 0 then 0 else 10 * DigitsValue(s[..|s| - 1]) + DigitValue(s[|s| - 1])
  }

  /** `Integer.parseInt(s)` as in Java 6: an optional leading '-', then at
      least one digit, and the value must fit in an `int`; anything else,
      a leading '+' included, is a NumberFormatException, modelled as `None`. */
  function ParseInt(s: string): (r: Option<int>)
    ensures r.Some? ==> InRange(r.value)
    ensures r.Some? ==> |s| > 0 && IsDigits(if s[0] == '-' then s[1..] else s)
    ensures (|s| == 0 || s == "-" || s[0] == '+') ==> r.None?
    ensures r.Some? ==>
              if s[0] == '-' then
                IsDigits(s[1..]) && r.value == -(DigitsValue(s[1..]) as int)
              else
                IsDigits(s) && r.value == DigitsValue(s) as int
    ensures |s| > 1 && s[0] == '-' && IsDigits(s[1..]) && InRange(-(DigitsValue(s[1..]) as int)) ==>
              r == Some(-(DigitsValue(s[1..]) as int))
    ensures |s| > 0 && IsDigits(s) && InRange(DigitsValue(s)) ==> r == Some(DigitsValue(s))
  {
    if |s| == 0 then None
    else
      var negative := s[0] == '-';
      var digits := if negative then s[1..] else s;
      if |digits| == 0 || !IsDigits(digits) then None
      else
        var magnitude: int := DigitsValue(digits);
        var v: int := if negative then -magnitude else magnitude;
        if InRange(v) then Some(v) else None
  }

  /** Shortest decimal digits of a natural number (no leading zeros). */
  function NatToDigits(n: nat): (s: string)
    ensures |s| > 0 && IsDigits(s)
    ensures DigitsValue(s) == n
    ensures |s| > 1 ==> s[0] != '0'
  {
    if n < 10 then
      [DigitChar(n)]
    else
      var prefix := NatToDigits(n / 10);
      var s := prefix + [DigitChar(n % 10)];
      assert s[..|s| - 1] == prefix;
      s
  }

  /** `Integer.toString(n)`: a '-' for negative values, then the digits of
      the magnitude. */
  function ToDecimal(n: int): (s: string)
    ensures |s| > 0
    ensures (n < 0) <==> s[0] == '-'
    ensures IsDigits(if n < 0 then s[1..] else s)
  {
    if n < 0 then "-" + NatToDigits(-n) else NatToDigits(n)
  }

  /** Every `int` survives a trip through its decimal text. */
  lemma ParseIntInvertsToDecimal(n: int)
    requires InRange(n)
    ensures ParseInt(ToDecimal(n)) == Some(n)
  {
    var s := ToDecimal(n);
    if n < 0 {
      assert s[1..] == NatToDigits(-n);
    } else {
      assert s == NatToDigits(n);
    }
  }

  /** Leading zeros do not change a run of digits' value. */
  lemma {:induction false} LeadingZeroKeepsValue(s: string)
    requires IsDigits(s)
    ensures IsDigits("0" + s) && DigitsValue("0" + s) == DigitsValue(s)
    decreases |s|
  {
    var t := "0" + s;
    assert forall i :: 0 <= i < |t| ==> t[i] == if i == 0 then '0' else s[i - 1];
    if |s| > 0 {
      assert t[..|t| - 1] == "0" + s[..|s| - 1];
      LeadingZeroKeepsValue(s[..|s| - 1]);
    }
  }

  /** `Integer.parseInt` ignores a leading zero: "007" reads as "07" and so as "7". */
  lemma ParseIntIgnoresLeadingZero(s: string)
    requires |s| > 0 && IsDigits(s)
    ensures ParseInt("0" + s) == ParseInt(s)
  {
    LeadingZeroKeepsValue(s);
    assert ("0" + s)[0] == '0';
  }

  /** Java 6's `Integer.parseInt` takes no '+' sign: "+5" is rejected
      although "5" reads as 5. */
  lemma ParseIntRejectsPlusSign(s: string)
    requires |s| > 0 && IsDigits(s)
    ensures ParseInt("+" + s).None?
    ensures InRange(DigitsValue(s)) ==> ParseInt(s) == Some(DigitsValue(s))
  {
  }

  /** "-0" reads as 0, like "0". */
  lemma ParseIntOfNegativeZero()
    ensures ParseInt("-0") == Some(0)
  {
    assert "-0"[1..] == "0";
    assert "0"[..0] == "";
    assert DigitsValue("0") == 0;
  }

  /** A run of digits too large for an `int` does not parse, with or
      without a '-': `Integer.parseInt` throws for it. */
  lemma ParseIntRejectsOverflow(s: string)
    requires |s| > 0 && IsDigits(s)
    ensures !InRange(DigitsValue(s)) ==> ParseInt(s).None?
    ensures !InRange(-(DigitsValue(s) as int)) ==> ParseInt("-" + s).None?
  {
    assert ("-" + s)[1..] == s;
  }
}
