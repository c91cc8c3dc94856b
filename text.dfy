/** Decimal rendering of numbers, for the messages the ledger returns. */
module Text {

  function DigitChar(d: nat): (c: char)
    requires d < 10
    ensures '0' <= c <= '9' && c as int - '0' as int == d
  {
    "0123456789"[d]
  }

  predicate AllDigits(s: string) {
    forall i :: 0 <= i < |s| ==> '0' <= s[i] <= '9'
  }

  /** The number a string of decimal digits denotes, most significant digit first. */
  function DigitsValue(s: string): nat
    requires AllDigits(s)
  {
    if s == [] then 0 else DigitsValue(s[..|s| - 1]) * 10 + (s[|s| - 1] as int - '0' as int)
  }

  /** The decimal numeral of `n`, with no leading zeros. */
  function NatToString(n: nat): (s: string)
    ensures |s| >= 1 && AllDigits(s)
    ensures |s| == 1 || s[0] != '0'
    decreases n
  {
    if n < 10 then [DigitChar(n)] else NatToString(n / 10) + [DigitChar(n % 10)]
  }

  /** The numeral `NatToString` writes denotes the number it was given. */
  lemma {:induction false} NatToStringValue(n: nat)
    ensures DigitsValue(NatToString(n)) == n
    decreases n
  {
    if n >= 10 {
      var s := NatToString(n);
      NatToStringValue(n / 10);
      assert s[..|s| - 1] == NatToString(n / 10);
    }
  }

  /**
   * An amount held in centavos, written in reais with two decimals, the way
   * `amount.toFixed(2)` writes the same amount held in reais.
   */
  function CentsToString(cents: int): string {
    var magnitude: nat := if cents < 0 then -cents else cents;
    var fraction := magnitude % 100;
    (if cents < 0 then "-" else "") + NatToString(magnitude / 100) + "."
      + [DigitChar(fraction / 10), DigitChar(fraction % 10)]
  }

  lemma TwoDigitsValue(f: nat)
    requires f < 100
    ensures AllDigits([DigitChar(f / 10), DigitChar(f % 10)])
    ensures DigitsValue([DigitChar(f / 10), DigitChar(f % 10)]) == f
  {
    var cs := [DigitChar(f / 10), DigitChar(f % 10)];
    assert cs[..|cs| - 1] == [DigitChar(f / 10)];
    assert cs[..|cs| - 1][..0] == [];
    assert DigitsValue(cs[..|cs| - 1]) == f / 10;
  }

  /**
   * What `CentsToString` writes reads back as the amount: a '-' exactly for
   * a negative amount, the reais without leading zeros, a '.', and exactly
   * two digits of centavos.
   */
  lemma CentsToStringValue(cents: int) returns (whole: string, fraction: string)
    ensures CentsToString(cents) == (if cents < 0 then "-" else "") + whole + "." + fraction
    ensures |whole| >= 1 && AllDigits(whole) && (|whole| == 1 || whole[0] != '0')
    ensures |fraction| == 2 && AllDigits(fraction)
    ensures (if cents < 0 then -1 else 1) * (DigitsValue(whole) * 100 + DigitsValue(fraction)) == cents
  {
    var magnitude: nat := if cents < 0 then -cents else cents;
    var f := magnitude % 100;
    whole := NatToString(magnitude / 100);
    fraction := [DigitChar(f / 10), DigitChar(f % 10)];
    NatToStringValue(magnitude / 100);
    TwoDigitsValue(f);
  }
}
