/**
  Decimal text of an integer, as sprintf's `%d` (and PHP's string
  conversion of an int) writes it: an optional minus sign and the digits,
  most significant first, without leading zeros. ParseInt reads such text
  back.
 */
module Decimal {

  import opened Options

  predicate IsDigit(c: char) {
    '0' <= c <= '9'
  }

  predicate AllDigits(s: string) {
    forall i :: 0 <= i < |s| ==> IsDigit(s[i])
  }

  function DigitChar(d: nat): (c: char)
    requires d < 10
    ensures IsDigit(c)
  {
    "0123456789"[d]
  }

  function DigitValue(c: char): nat
    requires IsDigit(c)
  {
    (c as int - '0' as int) as nat
  }

  /** The digits of a natural number. */
  function NatDigits(n: nat): (s: string)
    ensures s != [] && AllDigits(s)
    decreases n
  {
    if n < 10 then [DigitChar(n)] else NatDigits(n / 10) + [DigitChar(n % 10)]
  }

  /** `sprintf('%d', i)`. */
  function FormatInt(i: int): (s: string)
    ensures s != []
    ensures forall k :: 0 <= k < |s| ==> IsDigit(s[k]) || (k == 0 && s[k] == '-')
  {
    if i < 0 then "-" + NatDigits(-i) else NatDigits(i)
  }

  /** The digits of a natural number have no leading zero: only 0 itself starts with '0'. */
  lemma {:induction false} NatDigitsCanonical(n: nat)
    ensures NatDigits(n)[0] == '0' <==> n == 0
    ensures NatDigits(n)[0] == '0' ==> NatDigits(n) == "0"
    decreases n
  {
    if n >= 10 {
      NatDigitsCanonical(n / 10);
      assert NatDigits(n)[0] == NatDigits(n / 10)[0];
    }
  }

  /**
    The text `%d` writes is canonical: a minus sign exactly for a negative
    number, no leading zero, and "0" is the only text that starts with '0'
    (so there is no "-0" and no "07").
   */
  lemma FormatIntCanonical(i: int)
    ensures var s := FormatInt(i);
      && (s[0] == '-' <==> i < 0)
      && (s[0] == '0' ==> s == "0")
      && (s[0] == '-' ==> |s| > 1 && s[1] != '0')
  {
    if i < 0 {
      NatDigitsCanonical(-i);
      assert FormatInt(i)[1] == NatDigits(-i)[0];
    } else {
      NatDigitsCanonical(i);
    }
  }

  /** The number a run of digits denotes; the empty run denotes 0. */
  function DigitsValue(s: string): nat
    requires AllDigits(s)
  {
    if s == [] then 0 else DigitsValue(s[..|s| - 1]) * 10 + DigitValue(s[|s| - 1])
  }

  /** Reads an optional minus sign and a non-empty run of digits. */
  function ParseInt(s: string): Option<int> {
    if s != [] && s[0] == '-' && |s| > 1 && AllDigits(s[1..]) then Some(-(DigitsValue(s[1..]) as int))
    else if s != [] && AllDigits(s) then Some(DigitsValue(s) as int)
    else None
  }

  lemma {:induction false} NatDigitsValue(n: nat)
    ensures DigitsValue(NatDigits(n)) == n
    decreases n
  {
    var s := NatDigits(n);
    if n >= 10 {
      NatDigitsValue(n / 10);
      assert s[..|s| - 1] == NatDigits(n / 10);
    }
    assert DigitValue(DigitChar(n % 10)) == n % 10;
  }

  lemma ParseNatDigits(n: nat)
    ensures ParseInt(NatDigits(n)) == Some(n)
  {
    var s := NatDigits(n);
    assert IsDigit(s[0]);
    NatDigitsValue(n);
  }

  lemma ParseNegatedNatDigits(n: nat)
    requires n > 0
    ensures ParseInt("-" + NatDigits(n)) == Some(-(n as int))
  {
    var s := "-" + NatDigits(n);
    assert s[1..] == NatDigits(n);
    NatDigitsValue(n);
  }

  /** Round trip: the text `%d` writes reads back as the same integer. */
  lemma ParseFormatInt(i: int)
    ensures ParseInt(FormatInt(i)) == Some(i)
  {
    if i < 0 {
      ParseNegatedNatDigits(-i);
    } else {
      ParseNatDigits(i);
    }
  }
}
