/** Decimal rendering of non-negative integers, as a JavaScript template literal `${n}` prints them,
    together with the reading that undoes it. Sheet ids (`sheet-${index}`) and default sheet names
    (`Sheet${n}`) are built from it. */
module Decimal {

  predicate IsDigit(c: char) {
    '0' <= c <= '9'
  }

  predicate AllDigits(s: string) {
    forall i :: 0 <= i < |s| ==> IsDigit(s[i])
  }

  function DigitChar(d: nat): (c: char)
    requires d < 10
    ensures IsDigit(c)
    ensures (c as int) - ('0' as int) == d
  {
    (48 + d) as char
  }

  /** The shortest decimal numeral of `n`: never empty, digits only, no leading zero. */
  function NatToString(n: nat): (s: string)
    ensures |s| >= 1
    ensures AllDigits(s)
    ensures |s| > 1 ==> s[0] != '0'
    decreases n
  {
    if n < 10 then [DigitChar(n)] else NatToString(n / 10) + [DigitChar(n % 10)]
  }

  /** Reads a string of decimal digits, most significant first. */
  function ParseDecimal(s: string): nat
    requires AllDigits(s)
  {
    if |s| == 0 then 0
    else ParseDecimal(s[..|s| - 1]) * 10 + ((s[|s| - 1] as int) - ('0' as int))
  }

  /** Reading the rendering of `n` gives back `n`. */
  lemma {:induction false} ParseNatToString(n: nat)
    ensures ParseDecimal(NatToString(n)) == n
    decreases n
  {
    var s := NatToString(n);
    if n >= 10 {
      ParseNatToString(n / 10);
      assert s[..|s| - 1] == NatToString(n / 10);
    }
  }

  /** Distinct numbers render as distinct numerals. */
  lemma NatToStringInjective(m: nat, n: nat)
    ensures NatToString(m) == NatToString(n) <==> m == n
  {
    ParseNatToString(m);
    ParseNatToString(n);
  }

  /** Prefixing a fixed text keeps numerals distinct: `p${m}` and `p${n}` differ when `m != n`. */
  lemma PrefixedInjective(p: string, m: nat, n: nat)
    ensures p + NatToString(m) == p + NatToString(n) <==> m == n
  {
    if p + NatToString(m) == p + NatToString(n) {
      assert NatToString(m) == (p + NatToString(m))[|p|..];
      assert NatToString(n) == (p + NatToString(n))[|p|..];
    }
    NatToStringInjective(m, n);
  }
}
