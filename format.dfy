/** Decimal formatting of integers as printf's "%d" and "%02d" produce it,
    with a parser that reads the text back. */
module Format {

  function DigitChar(d: int): (c: char)
    requires 0 <= d <= 9
    ensures '0' <= c <= '9'
  {
    ('0' as int + d) as char
  }

  function DigitValue(c: char): int {
    c as int - '0' as int
  }

  predicate AllDigits(s: string) {
    forall i :: 0 <= i < |s| ==> '0' <= s[i] <= '9'
  }

  /** The decimal digits of n, most significant first, without leading zeros. */
  function Decimal(n: nat): (s: string)
    ensures 1 <= |s| && AllDigits(s)
    ensures (|s| == 1) == (n < 10)
    ensures n < 100 ==> |s| <= 2
  {
    if n < 10 then [DigitChar(n)] else Decimal(n / 10) + [DigitChar(n % 10)]
  }

  function Pow10(k: nat): nat {
    if k == 0 then 1 else 10 * Pow10(k - 1)
  }

  /** A number below 10^k has at most k digits. */
  lemma {:induction false} DecimalLength(n: nat, k: nat)
    requires 1 <= k && n < Pow10(k)
    ensures |Decimal(n)| <= k
  {
    if n >= 10 {
      DecimalLength(n / 10, k - 1);
    }
  }

  /** printf "%d". */
  function FormatInt(v: int): (s: string)
    ensures 1 <= |s|
    ensures forall i :: 0 <= i < |s| ==> s[i] == '-' || '0' <= s[i] <= '9'
    ensures 0 <= v < 10 ==> |s| == 1
  {
    if v < 0 then "-" + Decimal(-v) else Decimal(v)
  }

  /** printf "%02d": at least two characters, padded with a leading zero;
      the sign counts towards the width. */
  function FormatPadded2(v: int): (s: string)
    ensures 2 <= |s|
    ensures forall i :: 0 <= i < |s| ==> s[i] == '-' || '0' <= s[i] <= '9'
    ensures 0 <= v <= 99 ==> |s| == 2 && AllDigits(s)
  {
    if 0 <= v < 10 then "0" + Decimal(v) else FormatInt(v)
  }

  /** The value of a string of decimal digits. */
  function DigitsValue(s: string): int {
    if s == [] then 0 else DigitsValue(s[..|s| - 1]) * 10 + DigitValue(s[|s| - 1])
  }

  /** The value of "%d"-style text: an optional minus sign, then digits. */
  function ParseInt(s: string): int {
    if |s| > 0 && s[0] == '-' then -DigitsValue(s[1..]) else DigitsValue(s)
  }

  lemma {:induction false} DecimalRoundTrip(n: nat)
    ensures DigitsValue(Decimal(n)) == n
  {
    if n >= 10 {
      DecimalRoundTrip(n / 10);
      var s := Decimal(n);
      assert s[..|s| - 1] == Decimal(n / 10);
    }
  }

  lemma LeadingZero(s: string)
    requires 1 <= |s|
    ensures DigitsValue("0" + s) == DigitsValue(s)
    decreases |s|
  {
    var t := "0" + s;
    if |s| > 1 {
      assert t[..|t| - 1] == "0" + s[..|s| - 1];
      LeadingZero(s[..|s| - 1]);
    } else {
      assert t[..|t| - 1] == "0";
    }
  }

  /** Reading back what "%d" and "%02d" print gives the printed value. */
  lemma FormatRoundTrip(v: int)
    ensures ParseInt(FormatInt(v)) == v
    ensures ParseInt(FormatPadded2(v)) == v
  {
    if v < 0 {
      DecimalRoundTrip(-v);
      assert FormatInt(v)[1..] == Decimal(-v);
    } else {
      DecimalRoundTrip(v);
      if v < 10 {
        LeadingZero(Decimal(v));
      }
    }
  }
}
