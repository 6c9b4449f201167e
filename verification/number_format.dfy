/**
  `formatNumber(n, pad, fill = '0')` from src/utils/formatNumber.ts: the
  decimal string of `n`, with copies of `fill` put in front of it until it is
  at least `pad` characters long.
 */
module NumberFormat {
  import opened Decimal

  /** `k` copies of `fill`, one after the other. */
  function Repeat(fill: string, k: nat): string {
    if k == 0 then [] else Repeat(fill, k - 1) + fill
  }

  /** How many copies of a `width`-character fill the padding loop adds in
      front of a `len`-character string: none when it is already `pad`
      long, otherwise the rounded-up quotient of the shortfall by `width`. */
  function PadCount(len: nat, pad: int, width: nat): nat
    requires width > 0 || len >= pad
  {
    if len >= pad then 0 else (pad - len + width - 1) / width
  }

  /** The number of copies is the least `k` with `len + k * width >= pad`. */
  lemma PadCountLeast(len: nat, pad: int, width: nat)
    requires width > 0 || len >= pad
    ensures var k := PadCount(len, pad, width);
            && len + k * width >= pad
            && (k > 0 ==> len + k * width - width < pad)
  {
  }

  /** The number of UTF-16 code units of one character: two for a
      character outside the Basic Multilingual Plane, one otherwise. */
  function CodeUnits(c: char): (u: nat)
    ensures u == 1 || u == 2
  {
    if c as int >= 0x1_0000 then 2 else 1
  }

  /** JavaScript's `.length` of a string, which counts UTF-16 code units. */
  function JsLength(s: string): (n: nat)
    ensures |s| <= n <= 2 * |s|
  {
    if |s| == 0 then 0 else CodeUnits(s[0]) + JsLength(s[1..])
  }

  lemma {:induction false} JsLengthConcat(a: string, b: string)
    ensures JsLength(a + b) == JsLength(a) + JsLength(b)
  {
    if |a| > 0 {
      assert (a + b)[0] == a[0] && (a + b)[1..] == a[1..] + b;
      JsLengthConcat(a[1..], b);
    } else {
      assert a + b == b;
    }
  }

  /** A string of decimal digits has one code unit per character. */
  lemma {:induction false} JsLengthDigits(s: string)
    requires AllDigits(s)
    ensures JsLength(s) == |s|
  {
    if |s| > 0 {
      JsLengthDigits(s[1..]);
    }
  }

  lemma {:induction false} JsLengthRepeat(fill: string, k: nat)
    ensures JsLength(Repeat(fill, k)) == k * JsLength(fill)
  {
    if k > 0 {
      JsLengthRepeat(fill, k - 1);
      JsLengthConcat(Repeat(fill, k - 1), fill);
      assert k * JsLength(fill) == (k - 1) * JsLength(fill) + JsLength(fill);
    }
  }

  /** The padding loop: while the string's JavaScript length is below
      `pad`, put `fill` in front of it.  With an empty fill and a short
      string the loop would never end, which the precondition excludes. */
  function PadLeft(s: string, pad: int, fill: string): (r: string)
    requires |fill| > 0 || JsLength(s) >= pad
    ensures r == Repeat(fill, PadCount(JsLength(s), pad, JsLength(fill))) + s
    decreases pad - JsLength(s)
  {
    if JsLength(s) < pad then
      JsLengthConcat(fill, s);
      var r := PadLeft(fill + s, pad, fill);
      PadCountStep(JsLength(s), pad, JsLength(fill));
      assert Repeat(fill, PadCount(JsLength(s), pad, JsLength(fill)))
          == Repeat(fill, PadCount(JsLength(fill + s), pad, JsLength(fill))) + fill;
      r
    else s
  }

  /** One more fill in front leaves one fewer copy to add. */
  lemma PadCountStep(len: nat, pad: int, width: nat)
    requires width > 0 && len < pad
    ensures PadCount(len, pad, width) == PadCount(len + width, pad, width) + 1
  {
    var k := PadCount(len, pad, width);
    var k' := PadCount(len + width, pad, width);
    PadCountLeast(len, pad, width);
    PadCountLeast(len + width, pad, width);
    if k' + 1 < k {
      MulMonotone(k' + 1, k - 1, width);
    } else if k' + 1 > k {
      MulMonotone(k, k' - 1, width);
    }
  }

  lemma MulMonotone(a: nat, b: nat, w: nat)
    requires a <= b
    ensures a * w <= b * w
  {
  }

  /** `formatNumber(n, pad, fill)`, the fill defaulting to "0".  Lengths
      are JavaScript lengths; the printed number, made of digits, has one
      code unit per character. */
  function FormatNumber(n: nat, pad: int, fill: string := "0"): (r: string)
    requires |fill| > 0 || |NatToString(n)| >= pad
    ensures r == Repeat(fill, PadCount(|NatToString(n)|, pad, JsLength(fill))) + NatToString(n)
    ensures |r| >= |NatToString(n)| && r[|r| - |NatToString(n)|..] == NatToString(n)
    ensures |NatToString(n)| >= pad ==> r == NatToString(n)
    ensures JsLength(r) >= pad
    ensures |NatToString(n)| < pad ==> JsLength(r) < pad + JsLength(fill)
    ensures JsLength(fill) == 1 ==> JsLength(r) == Max(|NatToString(n)|, pad)
  {
    var d := NatToString(n);
    JsLengthDigits(d);
    var k := PadCount(|d|, pad, JsLength(fill));
    JsLengthRepeat(fill, k);
    JsLengthConcat(Repeat(fill, k), d);
    PadCountLeast(|d|, pad, JsLength(fill));
    PadLeft(d, pad, fill)
  }

  function Max(a: int, b: int): int {
    if a >= b then a else b
  }

  /** The loop of formatNumber.ts as written, computing what `FormatNumber`
      describes. */
  method FormatNumberLoop(n: nat, pad: int, fill: string := "0") returns (nStr: string)
    requires |fill| > 0 || |NatToString(n)| >= pad
    ensures nStr == FormatNumber(n, pad, fill)
  {
    nStr := NatToString(n);
    JsLengthDigits(nStr);
    while JsLength(nStr) < pad
      invariant |fill| > 0 || JsLength(nStr) >= pad
      invariant PadLeft(nStr, pad, fill) == PadLeft(NatToString(n), pad, fill)
      decreases pad - JsLength(nStr)
    {
      JsLengthConcat(fill, nStr);
      nStr := fill + nStr;
    }
  }

  /** A fill outside the Basic Multilingual Plane counts two towards the
      length: padding 5 to length 4 with an emoji adds two copies, not
      three. */
  lemma AstralFillExample()
    ensures FormatNumber(5, 4, "\U{1F600}") == "\U{1F600}\U{1F600}5"
  {
  }

  /** With the default fill, a number below 100 padded to two characters is
      exactly two digits whose value is the number. */
  lemma TwoDigits(v: nat)
    requires v < 100
    ensures |FormatNumber(v, 2)| == 2
    ensures AllDigits(FormatNumber(v, 2))
    ensures ParseNat(FormatNumber(v, 2)) == v
  {
    NatToStringLength(v, 2);
    assert Pow10(2) == 100;
    ParseNatToString(v);
    if |NatToString(v)| < 2 {
      assert FormatNumber(v, 2) == "0" + NatToString(v);
      ParseNatLeadingZero(NatToString(v));
    }
  }
}
