// Decimal rendering of a non-negative integer, as Python's str(n) produces it
// inside an f-string such as f'{name} ({count}){extension}'.

module Decimal {

  /** True if every character of s is an ASCII decimal digit. */
  predicate IsDigits(s: string) {
    forall i :: 0 <= i < |s| ==> '0' <= s[i] <= '9'
  }

  /** The canonical numerals: non-empty, digits only, no leading zero except "0" itself. */
  predicate IsCanonical(s: string) {
    |s| >= 1 && IsDigits(s) && (s[0] == '0' ==> |s| == 1)
  }

  function DigitChar(d: nat): (c: char)
    requires d < 10
    ensures '0' <= c <= '9'
    ensures c as int - '0' as int == d
  {
    ('0' as int + d) as char
  }

  function DigitValue(c: char): (d: nat)
    requires '0' <= c <= '9'
    ensures d < 10
    ensures DigitChar(d) == c
  {
    c as int - '0' as int
  }

  /** str(n) for n >= 0: the shortest decimal numeral of n. */
  function ToDecimal(n: nat): (s: string)
    ensures IsCanonical(s)
  {
    if n < 10 then [DigitChar(n)] else ToDecimal(n / 10) + [DigitChar(n % 10)]
  }

  /** int(s) for a string of decimal digits; the inverse of ToDecimal. */
  function ParseDecimal(s: string): (n: nat)
    requires IsDigits(s)
  {
    if s == [] then 0 else 10 * ParseDecimal(s[..|s| - 1]) + DigitValue(s[|s| - 1])
  }

  /** Reading back a rendered numeral gives the number. */
  lemma {:induction false} ParseToDecimal(n: nat)
    ensures ParseDecimal(ToDecimal(n)) == n
  {
    if n >= 10 {
      var s := ToDecimal(n);
      assert s[..|s| - 1] == ToDecimal(n / 10);
      ParseToDecimal(n / 10);
    }
  }

  /** A canonical numeral with a leading non-zero digit denotes a positive number. */
  lemma {:induction false} ParsePositive(s: string)
    requires IsDigits(s) && |s| >= 1 && s[0] != '0'
    ensures ParseDecimal(s) >= 1
  {
    if |s| > 1 {
      ParsePositive(s[..|s| - 1]);
    }
  }

  /** Rendering a parsed canonical numeral gives the numeral back. */
  lemma {:induction false} ToDecimalOfParse(s: string)
    requires IsCanonical(s)
    ensures ToDecimal(ParseDecimal(s)) == s
  {
    if |s| > 1 {
      var init := s[..|s| - 1];
      ParsePositive(init);
      ToDecimalOfParse(init);
      assert init + [s[|s| - 1]] == s;
    }
  }

  /** Distinct counters give distinct numerals. */
  lemma ToDecimalInjective(a: nat, b: nat)
    requires ToDecimal(a) == ToDecimal(b)
    ensures a == b
  {
    ParseToDecimal(a);
    ParseToDecimal(b);
  }
}
