/** Decimal digits and the two conversions the viewer relies on: reading a run
    of ASCII digits as a number (Python's int() of a digit string) and writing a
    natural number in decimal (Python's str() of an int). */
module Decimal {

  predicate IsDigit(c: char) {
    '0' <= c <= '9'
  }

  predicate AllDigits(s: string) {
    forall i :: 0 <= i < |s| ==> IsDigit(s[i])
  }

  predicate NoDigits(s: string) {
    forall i :: 0 <= i < |s| ==> !IsDigit(s[i])
  }

  function DigitValue(c: char): (d: nat)
    requires IsDigit(c)
    ensures d < 10
  {
    c as int - '0' as int
  }

  function DigitChar(d: nat): (c: char)
    requires d < 10
    ensures IsDigit(c) && DigitValue(c) == d
  {
    ('0' as int + d) as char
  }

  function Pow10(k: nat): (p: nat)
    ensures p >= 1
  {
    if k == 0 then 1 else 10 * Pow10(k - 1)
  }

  /** The number denoted by a string of digits, most significant digit first.
      Leading zeros are allowed and the empty string denotes 0. */
  function Value(ds: string): (n: nat)
    requires AllDigits(ds)
    ensures n < Pow10(|ds|)
  {
    if ds == [] then 0 else Value(ds[..|ds| - 1]) * 10 + DigitValue(ds[|ds| - 1])
  }

  /** The shortest decimal numeral of n: at least one digit, no leading zero
      unless n is 0. */
  function Show(n: nat): (s: string)
    ensures AllDigits(s) && |s| >= 1
    ensures |s| == 1 || s[0] != '0'
  {
    if n < 10 then [DigitChar(n)] else Show(n / 10) + [DigitChar(n % 10)]
  }

  /** Reading back what Show wrote gives the number again. */
  lemma {:induction false} ValueOfShow(n: nat)
    ensures Value(Show(n)) == n
  {
    if n >= 10 {
      ValueOfShow(n / 10);
      var s := Show(n);
      assert s[..|s| - 1] == Show(n / 10);
    }
  }

  lemma ShowInjective(m: nat, n: nat)
    requires Show(m) == Show(n)
    ensures m == n
  {
    ValueOfShow(m);
    ValueOfShow(n);
  }

  /** A numeral without a leading zero is at least 10^(length - 1). */
  lemma {:induction false} ValueLowerBound(ds: string)
    requires AllDigits(ds) && |ds| >= 1 && ds[0] != '0'
    ensures Value(ds) >= Pow10(|ds| - 1)
  {
    if |ds| > 1 {
      ValueLowerBound(ds[..|ds| - 1]);
    }
  }

  /** The other direction of the round trip: writing the value of a numeral
      without a leading zero gives back the numeral. */
  lemma {:induction false} ShowOfValue(ds: string)
    requires AllDigits(ds) && |ds| >= 1 && (|ds| == 1 || ds[0] != '0')
    ensures Show(Value(ds)) == ds
  {
    if |ds| > 1 {
      var init, c := ds[..|ds| - 1], ds[|ds| - 1];
      assert ds == init + [c];
      ValueLowerBound(init);
      ShowOfValue(init);
      var v, d := Value(init), DigitValue(c);
      assert Value(ds) == v * 10 + d;
      DivModDigit(v, d);
      assert DigitChar(d) == c;
    }
  }

  lemma DivModDigit(v: nat, d: nat)
    requires v >= 1 && d < 10
    ensures Show(v * 10 + d) == Show(v) + [DigitChar(d)]
  {
    var n := v * 10 + d;
    assert n / 10 == v && n % 10 == d;
  }

  lemma AllDigitsAppend(x: string, y: string)
    requires AllDigits(x) && AllDigits(y)
    ensures AllDigits(x + y)
  {
    forall i | 0 <= i < |x + y| ensures IsDigit((x + y)[i]) {
      if i < |x| {
        assert (x + y)[i] == x[i];
      } else {
        assert (x + y)[i] == y[i - |x|];
      }
    }
  }

  /** One digit more on the right: the definition of Value, read as a lemma. */
  lemma ValueSnoc(s: string, c: char)
    requires AllDigits(s) && IsDigit(c)
    ensures AllDigits(s + [c]) && Value(s + [c]) == Value(s) * 10 + DigitValue(c)
  {
    AllDigitsAppend(s, [c]);
    assert (s + [c])[..|s|] == s;
  }

  /** Value of a concatenation: the left part is shifted by the length of the right. */
  lemma {:induction false} ValueAppend(x: string, y: string)
    requires AllDigits(x) && AllDigits(y)
    ensures AllDigits(x + y)
    ensures Value(x + y) == Value(x) * Pow10(|y|) + Value(y)
  {
    AllDigitsAppend(x, y);
    if y == [] {
      assert x + y == x;
    } else {
      var y' := y[..|y| - 1];
      var c := y[|y| - 1];
      assert y == y' + [c];
      assert x + y == (x + y') + [c];
      ValueAppend(x, y');
      ValueSnoc(x + y', c);
      ValueSnoc(y', c);
      var a, p, v, d := Value(x), Pow10(|y'|), Value(y'), DigitValue(c);
      assert Pow10(|y|) == 10 * p;
      ShiftDigit(a, p, v, d);
    }
  }

  lemma ShiftDigit(a: int, p: int, v: int, d: int)
    ensures (a * p + v) * 10 + d == a * (10 * p) + (v * 10 + d)
  {
  }

  /** Leading zeros do not change the value: "007" and "7" denote the same number. */
  lemma LeadingZeros(ds: string)
    requires AllDigits(ds)
    ensures AllDigits("0" + ds) && Value("0" + ds) == Value(ds)
  {
    ValueAppend("0", ds);
    assert Value("0") == Value("0"[..0]) * 10 + DigitValue('0');
  }
}
