/** The "%d" conversion of sprintf, which renders the CO2 and PM readings for
    telemetry and the display labels: an optional minus sign followed by the
    decimal digits of the magnitude, with no leading zeros. */
module Decimal {
  import opened Results

  predicate IsDigit(c: char) {
    '0' <= c <= '9'
  }

  function DigitChar(v: int): (c: char)
    requires 0 <= v < 10
    ensures IsDigit(c)
  {
    ('0' as int + v) as char
  }

  /** The decimal digits of a natural number, most significant first. */
  function Digits(n: nat): (s: string)
    ensures |s| >= 1
    ensures forall k :: 0 <= k < |s| ==> IsDigit(s[k])
    ensures s[0] == '0' <==> n == 0
    decreases n
  {
    if n < 10 then [DigitChar(n)] else Digits(n / 10) + [DigitChar(n % 10)]
  }

  /** "%d": the sign, then the digits of the magnitude. */
  function Render(x: int): (s: string)
  {
    if x < 0 then "-" + Digits(-x) else Digits(x)
  }

  /** The value of a string of decimal digits. */
  function DigitsValue(s: string): nat
    requires forall k :: 0 <= k < |s| ==> IsDigit(s[k])
  {
    if |s| == 0 then 0
    else
      assert IsDigit(s[|s| - 1]);
      10 * DigitsValue(s[..|s| - 1]) + (s[|s| - 1] as int - '0' as int)
  }

  /** Reads back an optionally signed decimal numeral; None for the empty
      string, a lone sign or a non-digit character. */
  function Parse(s: string): (r: Option<int>)
  {
    if |s| > 0 && s[0] == '-' then
      var t := s[1..];
      if |t| > 0 && forall k :: 0 <= k < |t| ==> IsDigit(t[k]) then Some(0 - DigitsValue(t) as int) else None
    else if |s| > 0 && forall k :: 0 <= k < |s| ==> IsDigit(s[k]) then Some(DigitsValue(s))
    else None
  }

  lemma {:induction false} DigitsRoundTrip(n: nat)
    ensures DigitsValue(Digits(n)) == n
    decreases n
  {
    if n >= 10 {
      var s := Digits(n);
      assert s[..|s| - 1] == Digits(n / 10);
      DigitsRoundTrip(n / 10);
    }
  }

  /** The rendering loses nothing: parsing it returns the number. */
  lemma RenderRoundTrip(x: int)
    ensures Parse(Render(x)) == Some(x)
  {
    if x < 0 {
      DigitsRoundTrip(-x);
      assert Render(x)[1..] == Digits(-x);
    } else {
      DigitsRoundTrip(x);
    }
  }

  /** Different numbers render differently. */
  lemma RenderInjective(x: int, y: int)
    requires Render(x) == Render(y)
    ensures x == y
  {
    RenderRoundTrip(x);
    RenderRoundTrip(y);
  }

  /** The number of digits of n: one below 10, one more per factor of ten. */
  lemma {:induction false} DigitsLength(n: nat)
    ensures n < 10 ==> |Digits(n)| == 1
    ensures 10 <= n < 100 ==> |Digits(n)| == 2
    ensures 100 <= n < 1000 ==> |Digits(n)| == 3
    ensures 1000 <= n < 10000 ==> |Digits(n)| == 4
    ensures 10000 <= n ==> |Digits(n)| >= 5
    decreases n
  {
    if n >= 10 {
      DigitsLength(n / 10);
    }
  }

  function Pow10(k: nat): (p: nat)
    ensures p >= 1
  {
    if k == 0 then 1 else 10 * Pow10(k - 1)
  }

  /** A number has at most k digits exactly when it is below 10^k. */
  lemma {:induction false} DigitsFit(n: nat, k: nat)
    requires k >= 1
    ensures |Digits(n)| <= k <==> n < Pow10(k)
    decreases n
  {
    if n >= 10 {
      assert |Digits(n)| == |Digits(n / 10)| + 1;
      if k == 1 {
        assert |Digits(n / 10)| >= 1;
      } else {
        DigitsFit(n / 10, k - 1);
        assert n / 10 < Pow10(k - 1) <==> n < 10 * Pow10(k - 1);
      }
    } else {
      assert Pow10(k) == 10 * Pow10(k - 1);
    }
  }
}
