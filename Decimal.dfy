/** The decimal rendering JavaScript gives a non-negative integer inside a
    template literal (`${width}`), and the reading that recovers the number. */
module Decimal {
  import opened Types

  predicate IsDigit(c: char) {
    '0' <= c <= '9'
  }

  predicate AllDigits(s: string) {
    forall i :: 0 <= i < |s| ==> IsDigit(s[i])
  }

  function DigitChar(d: nat): (c: char)
    requires d < 10
    ensures IsDigit(c) && (c as int) - ('0' as int) == d
  {
    (('0' as int) + d) as char
  }

  /** `${n}` for a natural number: shortest decimal digits, no sign. */
  function NatToString(n: nat): (s: string)
    ensures |s| >= 1 && AllDigits(s)
    ensures |s| > 1 ==> s[0] != '0'
    decreases n
  {
    if n < 10 then [DigitChar(n)]
    else NatToString(n / 10) + [DigitChar(n % 10)]
  }

  /** The value of a string of decimal digits. */
  function DigitsValue(s: string): nat
    requires AllDigits(s)
    decreases |s|
  {
    if |s| == 0 then 0
    else 10 * DigitsValue(s[..|s| - 1]) + ((s[|s| - 1] as int) - ('0' as int))
  }

  /** Reads a canonical decimal numeral: non-empty, digits only, no leading zero. */
  function ParseNat(s: string): (r: Option<nat>)
    ensures r.Some? <==> |s| >= 1 && AllDigits(s) && (|s| > 1 ==> s[0] != '0')
  {
    if |s| >= 1 && AllDigits(s) && (|s| > 1 ==> s[0] != '0') then Some(DigitsValue(s))
    else None
  }

  /** Reading back what `NatToString` wrote gives the number. */
  lemma {:induction false} ParseNatToString(n: nat)
    ensures ParseNat(NatToString(n)) == Some(n)
    decreases n
  {
    var s := NatToString(n);
    if n < 10 {
      assert s[..0] == [];
    } else {
      ParseNatToString(n / 10);
      assert s[..|s| - 1] == NatToString(n / 10);
      assert DigitsValue(s) == 10 * (n / 10) + n % 10;
    }
  }

  /** A canonical numeral is exactly what `NatToString` writes for its value. */
  lemma {:induction false} NatToStringParse(s: string)
    requires ParseNat(s).Some?
    ensures NatToString(ParseNat(s).value) == s
    decreases |s|
  {
    var n := DigitsValue(s);
    if |s| == 1 {
      assert s[..|s| - 1] == [];
      assert DigitsValue(s[..|s| - 1]) == 0;
      assert n == (s[0] as int) - ('0' as int) < 10;
      assert [DigitChar(n)] == s;
    } else {
      var init := s[..|s| - 1];
      assert init[0] == s[0];
      assert ParseNat(init).Some?;
      NatToStringParse(init);
      var d := (s[|s| - 1] as int) - ('0' as int);
      assert n / 10 == DigitsValue(init) && n % 10 == d;
      DigitsValuePositive(init);
      assert s == init + [s[|s| - 1]];
    }
  }

  /** A canonical numeral of two or more digits has value at least 10. */
  lemma {:induction false} DigitsValuePositive(s: string)
    requires |s| >= 1 && AllDigits(s) && s[0] != '0'
    ensures DigitsValue(s) >= 1
    decreases |s|
  {
    if |s| > 1 {
      assert s[..|s| - 1][0] == s[0];
      DigitsValuePositive(s[..|s| - 1]);
    }
  }
}
