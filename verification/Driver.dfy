/** The decimal parsing the command-line driver uses for numeric option
    values (the maximum depth of the control-flow graph exploration). */
module Driver {

  import opened MiscTypes

  function Pow10(k: nat): (r: nat)
    ensures r >= 1
  {
    if k == 0 then 1 else 10 * Pow10(k - 1)
  }

  predicate IsDigit(c: char)
  {
    '0' <= c <= '9'
  }

  /** The value of a decimal digit, or None for any other character. */
  function CharToDigit(c: char): (r: Option<nat>)
    ensures r.Some? <==> IsDigit(c)
    ensures r.Some? ==> r.v < 10 && r.v == c as int - '0' as int
  {
    if c == '0' then Some(0)
    else if c == '1' then Some(1)
    else if c == '2' then Some(2)
    else if c == '3' then Some(3)
    else if c == '4' then Some(4)
    else if c == '5' then Some(5)
    else if c == '6' then Some(6)
    else if c == '7' then Some(7)
    else if c == '8' then Some(8)
    else if c == '9' then Some(9)
    else None
  }

  /** Whether a non-empty string consists of decimal digits, checked one
      character at a time from the front. */
  predicate IsNatNumber(s: string)
    requires |s| > 0
    decreases |s|
  {
    if |s| == 1 then CharToDigit(s[0]).Some?
    else match CharToDigit(s[0])
      case None => false
      case Some(_) => IsNatNumber(s[1..])
  }

  lemma {:induction false} IsNatNumberIff(s: string)
    requires |s| > 0
    ensures IsNatNumber(s) <==> forall i :: 0 <= i < |s| ==> IsDigit(s[i])
    decreases |s|
  {
    if |s| > 1 {
      IsNatNumberIff(s[1..]);
      assert forall i :: 1 <= i < |s| ==> s[i] == s[1..][i - 1];
    }
  }

  /** Every non-empty prefix of a decimal string is a decimal string. */
  lemma IsNatNumberPrefix(s: string, k: nat)
    requires 0 < k <= |s| && IsNatNumber(s)
    ensures IsNatNumber(s[..k])
  {
    IsNatNumberIff(s);
    IsNatNumberIff(s[..k]);
  }

  /** The value of a decimal string, read from the last digit backwards.
      `lastVal` is carried along by callers and plays no part. */
  function StringToNat(s: string, lastVal: nat): (r: nat)
    requires |s| > 0 && IsNatNumber(s)
    ensures r < Pow10(|s|)
    decreases |s|
  {
    IsNatNumberIff(s);
    if |s| == 1 then CharToDigit(s[0]).v
    else
      IsNatNumberPrefix(s, |s| - 1);
      var v := CharToDigit(s[|s| - 1]).v;
      v + 10 * StringToNat(s[..|s| - 1], 0)
  }

  function DigitValue(c: char): nat
    requires IsDigit(c)
  {
    c as int - '0' as int
  }

  /** Reference reading of a decimal string, from the most significant
      digit: the first digit weighs 10^(|s|-1). */
  function DecimalValue(s: string): nat
    requires forall i :: 0 <= i < |s| ==> IsDigit(s[i])
  {
    if |s| == 0 then 0
    else
      assert forall i :: 1 <= i < |s| ==> s[1..][i - 1] == s[i];
      DigitValue(s[0]) * Pow10(|s| - 1) + DecimalValue(s[1..])
  }

  lemma {:induction false} DecimalValueSnoc(s: string, c: char)
    requires forall i :: 0 <= i < |s| ==> IsDigit(s[i])
    requires IsDigit(c)
    ensures DecimalValue(s + [c]) == 10 * DecimalValue(s) + DigitValue(c)
    decreases |s|
  {
    if |s| == 0 {
      assert [c][1..] == [];
    } else {
      var t := s + [c];
      assert t[1..] == s[1..] + [c];
      DecimalValueSnoc(s[1..], c);
      var d, p := DigitValue(s[0]), Pow10(|s| - 1);
      assert Pow10(|t| - 1) == 10 * p;
      assert DecimalValue(t) == d * (10 * p) + DecimalValue(s[1..] + [c]);
      assert DecimalValue(s) == d * p + DecimalValue(s[1..]);
      ShiftDigit(d, p, DecimalValue(s[1..]), DigitValue(c));
    }
  }

  lemma ShiftDigit(d: nat, p: nat, x: nat, y: nat)
    ensures d * (10 * p) + (10 * x + y) == 10 * (d * p + x) + y
  {
    assert d * (10 * p) == 10 * (d * p);
  }

  /** Reading from the back agrees with the positional value, whatever
      `lastVal` is. */
  lemma {:induction false} StringToNatValue(s: string, lastVal: nat)
    requires |s| > 0 && IsNatNumber(s)
    requires forall i :: 0 <= i < |s| ==> IsDigit(s[i])
    ensures StringToNat(s, lastVal) == DecimalValue(s)
    decreases |s|
  {
    IsNatNumberIff(s);
    if |s| == 1 {
      assert s[1..] == [];
    } else {
      var p := s[..|s| - 1];
      IsNatNumberPrefix(s, |s| - 1);
      StringToNatValue(p, 0);
      assert s == p + [s[|s| - 1]];
      DecimalValueSnoc(p, s[|s| - 1]);
    }
  }

  /** The decimal digits of `n`, most significant first, without leading
      zeros. */
  function NatToDecimal(n: nat): (r: string)
    ensures |r| > 0 && forall i :: 0 <= i < |r| ==> IsDigit(r[i])
    ensures n < 10 <==> |r| == 1
  {
    var d := ['0' + (n % 10) as char];
    if n < 10 then d else NatToDecimal(n / 10) + d
  }

  /** Parsing the decimal digits of a number gives the number back. */
  lemma {:induction false} StringToNatRoundTrip(n: nat)
    ensures |NatToDecimal(n)| > 0 && IsNatNumber(NatToDecimal(n))
    ensures StringToNat(NatToDecimal(n), 0) == n
  {
    var s := NatToDecimal(n);
    IsNatNumberIff(s);
    if n >= 10 {
      var p := NatToDecimal(n / 10);
      StringToNatRoundTrip(n / 10);
      assert s[..|s| - 1] == p;
    }
  }
}
