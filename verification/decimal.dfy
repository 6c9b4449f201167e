/**
  Exact base-10 rendering of integers, which is what
  `Number.prototype.toString(10)` prints for integers up to 2^53 in magnitude,
  together with the parser that reads such a rendering back.
  The parser is the partner of the printer: the two are proved to be inverse
  to each other on canonical digit strings.
 */
module Decimal {

  predicate IsDigit(c: char) {
    '0' <= c <= '9'
  }

  predicate AllDigits(s: string) {
    forall i :: 0 <= i < |s| ==> IsDigit(s[i])
  }

  /** A canonical natural-number rendering: non-empty, only digits, and no
      leading zero unless the whole string is "0". */
  predicate IsCanonical(s: string) {
    |s| > 0 && AllDigits(s) && (s[0] == '0' ==> |s| == 1)
  }

  function DigitValue(c: char): (d: nat)
    requires IsDigit(c)
    ensures d < 10
  {
    c as int - '0' as int
  }

  function DigitChar(d: nat): (c: char)
    requires d < 10
    ensures IsDigit(c) && DigitValue(c) == d
    ensures c == '0' <==> d == 0
  {
    ('0' as int + d) as char
  }

  function Pow10(k: nat): (p: nat)
    ensures p >= 1
  {
    if k == 0 then 1 else 10 * Pow10(k - 1)
  }

  /** The decimal string of a natural number, most significant digit first. */
  function NatToString(n: nat): (s: string)
    ensures IsCanonical(s)
  {
    if n < 10 then [DigitChar(n)] else NatToString(n / 10) + [DigitChar(n % 10)]
  }

  /** The decimal string of an integer: a minus sign in front of the
      magnitude for negative numbers. */
  function IntToString(i: int): (s: string)
    ensures |s| > 0
    ensures i < 0 <==> s[0] == '-'
    ensures i >= 0 ==> IsCanonical(s)
    ensures i < 0 ==> IsCanonical(s[1..])
  {
    if i < 0 then "-" + NatToString(-i) else NatToString(i)
  }

  /** The value of a string of digits; leading zeros are allowed. */
  function ParseNat(s: string): nat
    requires AllDigits(s)
  {
    if |s| == 0 then 0 else ParseNat(s[..|s| - 1]) * 10 + DigitValue(s[|s| - 1])
  }

  /** A string `IntToString` can produce: a canonical magnitude, optionally
      after a minus sign (but never "-0"). */
  predicate IsIntString(s: string) {
    if |s| > 0 && s[0] == '-' then IsCanonical(s[1..]) && s[1..] != "0" else IsCanonical(s)
  }

  function ParseInt(s: string): (v: int)
    requires IsIntString(s)
  {
    if |s| > 0 && s[0] == '-' then 0 - ParseNat(s[1..]) else ParseNat(s)
  }

  /** Reading back a printed natural number gives the number. */
  lemma {:induction false} ParseNatToString(n: nat)
    ensures ParseNat(NatToString(n)) == n
  {
    var s := NatToString(n);
    if n >= 10 {
      assert s[..|s| - 1] == NatToString(n / 10);
      ParseNatToString(n / 10);
    }
  }

  /** Printing the value of a canonical string gives the string back, so a
      canonical string is the rendering of exactly one number. */
  lemma {:induction false} NatToStringParse(s: string)
    requires IsCanonical(s)
    ensures NatToString(ParseNat(s)) == s
  {
    if |s| > 1 {
      var init := s[..|s| - 1];
      assert IsCanonical(init);
      NatToStringParse(init);
      ParseNatPositive(init);
      var n := ParseNat(s);
      assert n / 10 == ParseNat(init) && n % 10 == DigitValue(s[|s| - 1]);
      assert DigitChar(n % 10) == s[|s| - 1];
      assert s == init + [s[|s| - 1]];
    }
  }

  /** A canonical string that does not start with a zero denotes a positive number. */
  lemma {:induction false} ParseNatPositive(s: string)
    requires IsCanonical(s) && s[0] != '0'
    ensures ParseNat(s) > 0
  {
    if |s| > 1 {
      ParseNatPositive(s[..|s| - 1]);
    }
  }

  lemma IntToStringIsIntString(i: int)
    ensures IsIntString(IntToString(i))
  {
  }

  /** Reading back a printed integer gives the integer. */
  lemma ParseIntToString(i: int)
    ensures IsIntString(IntToString(i))
    ensures ParseInt(IntToString(i)) == i
  {
    IntToStringIsIntString(i);
    if i < 0 {
      assert IntToString(i)[1..] == NatToString(-i);
      ParseNatToString(-i);
    } else {
      ParseNatToString(i);
    }
  }

  /** The number of digits printed for `n` is at most `k` exactly when
      `n < 10^k`. */
  lemma {:induction false} NatToStringLength(n: nat, k: nat)
    requires k >= 1
    ensures |NatToString(n)| <= k <==> n < Pow10(k)
  {
    if n >= 10 {
      if k == 1 {
        assert Pow10(1) == 10;
      } else {
        NatToStringLength(n / 10, k - 1);
      }
    } else {
      PowMonotone(1, k);
      assert Pow10(1) == 10;
    }
  }

  lemma {:induction false} PowMonotone(j: nat, k: nat)
    requires j <= k
    ensures Pow10(j) <= Pow10(k)
  {
    if j < k {
      PowMonotone(j, k - 1);
    }
  }

  /** Zeros in front of a digit string do not change its value. */
  lemma {:induction false} ParseNatLeadingZero(s: string)
    requires AllDigits(s)
    ensures ParseNat("0" + s) == ParseNat(s)
  {
    if |s| > 0 {
      var t := "0" + s;
      assert t[..|t| - 1] == "0" + s[..|s| - 1];
      ParseNatLeadingZero(s[..|s| - 1]);
    }
  }
}
