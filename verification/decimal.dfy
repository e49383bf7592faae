/** Decimal text of integers: what Python's `str(int)` emits and the subset of
    `int(str)` that reads it back. */
module Decimal {
  import opened Results

  predicate IsDigit(c: char) {
    '0' <= c <= '9'
  }

  function DigitValue(c: char): (d: nat)
    requires IsDigit(c)
    ensures d < 10
  {
    (c as int) - ('0' as int)
  }

  function DigitChar(d: nat): (c: char)
    requires d < 10
    ensures IsDigit(c) && DigitValue(c) == d
  {
    (('0' as int) + d) as char
  }

  /** A non-empty run of ASCII digits. */
  predicate AllDigits(s: string) {
    |s| > 0 && forall i :: 0 <= i < |s| ==> IsDigit(s[i])
  }

  /** The texts the decoder accepts: an optional minus sign, then digits. */
  predicate IsDecimalText(s: string) {
    AllDigits(s) || (|s| > 0 && s[0] == '-' && AllDigits(s[1..]))
  }

  /** The texts `str(int)` can produce: no leading zero, and no "-0". */
  predicate IsCanonical(s: string) {
    || (AllDigits(s) && (|s| == 1 || s[0] != '0'))
    || (|s| > 1 && s[0] == '-' && AllDigits(s[1..]) && s[1] != '0')
  }

  /** The value of a run of digits, most significant first. */
  function DigitsValue(s: string): nat
    requires forall i :: 0 <= i < |s| ==> IsDigit(s[i])
  {
    if |s| == 0 then 0 else DigitsValue(s[..|s| - 1]) * 10 + DigitValue(s[|s| - 1])
  }

  /** `str(n)` for a non-negative `n`. */
  function NatText(n: nat): (s: string)
    ensures AllDigits(s)
    ensures |s| == 1 || s[0] != '0'
    decreases n
  {
    if n < 10 then [DigitChar(n)] else NatText(n / 10) + [DigitChar(n % 10)]
  }

  /** `str(n)`: the minus sign for a negative value, then the digits of its
      magnitude. */
  function Text(n: int): (s: string)
    ensures IsCanonical(s)
    ensures n < 0 <==> s[0] == '-'
  {
    if n < 0 then "-" + NatText(-n) else NatText(n)
  }

  /** `int(s)` restricted to an optional minus sign followed by ASCII digits;
      `None` stands for the `ValueError` Python raises on anything else. Leading
      zeros and "-0" are accepted, as Python accepts them. */
  function Parse(s: string): (r: Option<int>)
    ensures r.Some? <==> IsDecimalText(s)
    ensures r.Some? && r.value < 0 ==> s[0] == '-'
  {
    if |s| > 0 && s[0] == '-' then
      if AllDigits(s[1..]) then Some(-(DigitsValue(s[1..]) as int)) else None
    else if AllDigits(s) then Some(DigitsValue(s))
    else None
  }

  lemma {:induction false} NatTextValue(n: nat)
    ensures DigitsValue(NatText(n)) == n
    decreases n
  {
    var s := NatText(n);
    if n < 10 {
      assert s[..|s| - 1] == [];
    } else {
      NatTextValue(n / 10);
      assert s[..|s| - 1] == NatText(n / 10);
    }
  }

  /** Round trip: reading back the text of any integer yields that integer. */
  lemma ParseText(n: int)
    ensures Parse(Text(n)) == Some(n)
  {
    var s := Text(n);
    if n < 0 {
      assert s[1..] == NatText(-n);
      NatTextValue(-n);
    } else {
      NatTextValue(n);
    }
  }

  lemma {:induction false} LeadingDigitValue(s: string)
    requires AllDigits(s) && s[0] != '0'
    ensures DigitsValue(s) >= 1
    decreases |s|
  {
    if |s| > 1 {
      var p := s[..|s| - 1];
      assert p[0] == s[0];
      LeadingDigitValue(p);
    }
  }

  lemma {:induction false} NatTextOfValue(s: string)
    requires AllDigits(s) && (|s| == 1 || s[0] != '0')
    ensures NatText(DigitsValue(s)) == s
    decreases |s|
  {
    var v := DigitsValue(s);
    if |s| == 1 {
      assert s[..0] == [];
    } else {
      var p := s[..|s| - 1];
      assert p[0] == s[0];
      LeadingDigitValue(p);
      NatTextOfValue(p);
      assert v / 10 == DigitsValue(p);
      assert s == p + [s[|s| - 1]];
    }
  }

  /** The other direction of the round trip: every text `str(int)` can
      produce is parsed to the value whose text it is. */
  lemma TextParse(s: string)
    requires IsCanonical(s)
    ensures Parse(s).Some? && Text(Parse(s).value) == s
  {
    if s[0] == '-' {
      var t := s[1..];
      LeadingDigitValue(t);
      NatTextOfValue(t);
      assert s == "-" + t;
    } else {
      NatTextOfValue(s);
    }
  }

  lemma {:induction false} LeadingZeroValue(d: string)
    requires forall i :: 0 <= i < |d| ==> IsDigit(d[i])
    ensures DigitsValue("0" + d) == DigitsValue(d)
    decreases |d|
  {
    var z := "0" + d;
    if |d| == 0 {
      assert z[..0] == [];
    } else {
      var p := d[..|d| - 1];
      assert z[..|z| - 1] == "0" + p;
      LeadingZeroValue(p);
    }
  }

  /** Leading zeros do not change the value `int()` reads, with or without a
      minus sign; together with `TextParse` this fixes the value of every
      accepted text. */
  lemma ParseLeadingZero(d: string)
    requires AllDigits(d)
    ensures Parse("0" + d) == Parse(d)
    ensures Parse("-0" + d) == Parse("-" + d)
  {
    LeadingZeroValue(d);
    assert ("-0" + d)[1..] == "0" + d;
    assert ("-" + d)[1..] == d;
  }

  /** `int("-0")` is zero. */
  lemma ParseMinusZero()
    ensures Parse("-0") == Some(0)
  {
    assert "-0"[1..] == "0";
    assert "0"[..0] == [];
  }

  /** Distinct integers have distinct texts. */
  lemma TextInjective(a: int, b: int)
    requires Text(a) == Text(b)
    ensures a == b
  {
    ParseText(a);
    ParseText(b);
  }
}
