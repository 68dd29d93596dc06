/** Spreadsheet column letters: a zero-based column index written in bijective base 26,
    with the digits 'A' (one) to 'Z' (twenty-six) and no digit for zero, so that
    0 is "A", 25 is "Z", 26 is "AA" and 701 is "ZZ". */
module ColumnLabel {

  /** A digit of a column label. */
  predicate IsLetter(c: char) {
    'A' <= c <= 'Z'
  }

  /** A well-formed column label: one or more capital letters. */
  predicate IsLabel(s: string) {
    |s| >= 1 && forall i :: 0 <= i < |s| ==> IsLetter(s[i])
  }

  /** The letter for remainder `d`, as `String.fromCharCode(65 + d)` produces it. */
  function Letter(d: nat): (c: char)
    requires d < 26
    ensures IsLetter(c)
    ensures (c as int) - ('A' as int) == d
  {
    (65 + d) as char
  }

  /** The value of one letter as a bijective base-26 digit: 'A' is 1, 'Z' is 26. */
  function DigitValue(c: char): (v: nat)
    requires IsLetter(c)
    ensures 1 <= v <= 26
  {
    (c as int) - ('A' as int) + 1
  }

  /** The decoder: reads a label as a bijective base-26 numeral, most significant letter first.
      The empty label reads as 0. */
  function Value(s: string): nat
    requires forall i :: 0 <= i < |s| ==> IsLetter(s[i])
  {
    if |s| == 0 then 0
    else Value(s[..|s| - 1]) * 26 + DigitValue(s[|s| - 1])
  }

  /** The label of column `index`, one letter per round of the loop in `getColumnLabel`: the last letter is
      `index % 26` and the rest is the label of `floor(index / 26) - 1`. A negative index gives the
      empty string, as the loop then never runs. */
  function Label(index: int): string
    decreases index + 1
  {
    if index < 0 then ""
    else Label(index / 26 - 1) + [Letter(index % 26)]
  }

  /** The encoder is correct: the label of a column index `i >= 0` is a well-formed label that
      reads back as `i + 1`. */
  lemma {:induction false} LabelValue(i: int)
    requires i >= 0
    ensures IsLabel(Label(i))
    ensures Value(Label(i)) == i + 1
    decreases i
  {
    var q := i / 26 - 1;
    var s := Label(i);
    if q >= 0 {
      LabelValue(q);
    }
    assert s[..|s| - 1] == Label(q);
  }

  /** The encoder is onto: every well-formed label is the label of exactly the column its value
      names, so decoding then encoding is the identity. */
  lemma {:induction false} ValueLabel(s: string)
    requires IsLabel(s)
    ensures Label(Value(s) - 1) == s
    decreases |s|
  {
    var p := s[..|s| - 1];
    var d := DigitValue(s[|s| - 1]) - 1;
    var i := Value(s) - 1;
    assert i == Value(p) * 26 + d;
    assert i / 26 - 1 == Value(p) - 1 && i % 26 == d;
    if |p| > 0 {
      ValueLabel(p);
    }
    assert s == p + [s[|s| - 1]];
  }

  /** Distinct columns get distinct labels. */
  lemma LabelInjective(i: int, j: int)
    requires i >= 0 && j >= 0
    ensures Label(i) == Label(j) <==> i == j
  {
    LabelValue(i);
    LabelValue(j);
  }

  /** A label has one letter for the first 26 columns and two letters for the next 26 * 26. */
  lemma LabelLength(i: int)
    requires 0 <= i < 702
    ensures |Label(i)| == (if i < 26 then 1 else 2)
  {
  }

  /** The examples the grid's header row relies on, up to its last column (index 79). */
  lemma LabelExamples()
    ensures Label(0) == "A"
    ensures Label(25) == "Z"
    ensures Label(26) == "AA"
    ensures Label(79) == "CB"
    ensures Label(701) == "ZZ"
    ensures Label(702) == "AAA"
  {
  }

  /** `getColumnLabel` as written, a loop: prepend the letter of `num % 26`, then continue with
      `floor(num / 26) - 1` until the number drops below zero. */
  method GetColumnLabel(index: int) returns (text: string)
    ensures index < 0 ==> text == ""
    ensures index >= 0 ==> IsLabel(text) && Value(text) == index + 1
    ensures text == Label(index)
  {
    text := "";
    var num := index;
    while num >= 0
      invariant Label(num) + text == Label(index)
      decreases num + 1
    {
      text := [Letter(num % 26)] + text;
      num := num / 26 - 1;
    }
    assert text == Label(index);
    if index >= 0 {
      LabelValue(index);
    }
  }
}
