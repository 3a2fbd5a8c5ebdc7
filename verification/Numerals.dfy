/** Decimal numerals, as the lexer reads them and the binder writes them. */
module Numerals {

  predicate Digit(c: char) { '0' <= c <= '9' }

  function DigitValue(c: char): nat
    requires Digit(c)
  {
    c as int - '0' as int
  }

  predicate AllDigits(s: string) { forall i :: 0 <= i < |s| ==> Digit(s[i]) }

  function DecimalValue(s: string): nat
    requires AllDigits(s)
  {
    if s == [] then 0 else 10 * DecimalValue(s[..|s| - 1]) + DigitValue(s[|s| - 1])
  }

  function Digits(n: nat): string
  {
    var d := ((n % 10) + '0' as int) as char;
    if n < 10 then [d] else Digits(n / 10) + [d]
  }

  /** The text is a way to write the number: digits, and no leading zero but for zero itself. */
  predicate Numeral(s: string, n: nat)
  {
    s != [] && AllDigits(s) && DecimalValue(s) == n && (|s| > 1 ==> s[0] != '0')
  }

  /** The text writes the number, with a sign if it is negative. */
  predicate SignedNumeral(s: string, n: int)
  {
    if n >= 0 then Numeral(s, n) else s != [] && s[0] == '-' && Numeral(s[1..], -n)
  }

  lemma {:induction false} DigitsRead(n: nat)
    ensures Numeral(Digits(n), n)
  {
    var s := Digits(n);
    if n >= 10 {
      DigitsRead(n / 10);
      assert s[..|s| - 1] == Digits(n / 10);
      if |Digits(n / 10)| == 1 { assert Digits(n / 10)[..0] == []; }
    } else {
      assert s[..0] == [];
    }
  }

  /** A text that does not start with a zero does not write zero. */
  lemma {:induction false} Positive(s: string)
    requires s != [] && AllDigits(s) && s[0] != '0'
    ensures DecimalValue(s) > 0
    decreases |s|
  {
    if |s| == 1 {
      assert s[..0] == [];
    } else {
      Positive(s[..|s| - 1]);
    }
  }

  /** There is only one such text. */
  lemma {:induction false} NumeralUnique(s: string, t: string, n: nat)
    requires Numeral(s, n) && Numeral(t, n)
    ensures s == t
    decreases |s|
  {
    var a, b := s[..|s| - 1], t[..|t| - 1];
    if |s| > 1 { Positive(a); }
    if |t| > 1 { Positive(b); }
    assert s == a + [s[|s| - 1]] && t == b + [t[|t| - 1]];
    if |s| > 1 && |t| > 1 { NumeralUnique(a, b, n / 10); }
  }
}
