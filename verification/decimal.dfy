/**
  Decimal rendering of natural numbers, as `format!("{}", n)` produces it for
  an unsigned integer: the shortest string of ASCII digits, most significant
  first, with no leading zero except for the number zero itself.

  `Value` is the reading direction, used to state that an id string handed
  out by the store denotes the number it was made from.
 */
module Decimal {

  predicate IsDigit(c: char) {
    '0' <= c <= '9'
  }

  predicate IsDigits(r: string) {
    forall i :: 0 <= i < |r| ==> IsDigit(r[i])
  }

  /** A digit string as `{}` formats it: non-empty, and "0" is the only one starting with '0'. */
  predicate IsCanonical(r: string) {
    && |r| >= 1
    && IsDigits(r)
    && (r[0] == '0' ==> |r| == 1)
  }

  function DigitChar(d: nat): char
    requires d < 10
  {
    (48 + d) as char
  }

  function DigitValue(c: char): nat
    requires IsDigit(c)
  {
    c as int - 48
  }

  /** `format!("{}", n)` */
  function Show(n: nat): (r: string)
    ensures IsCanonical(r)
    ensures r[0] == '0' <==> n == 0
    decreases n
  {
    if n < 10 then [DigitChar(n)] else Show(n / 10) + [DigitChar(n % 10)]
  }

  /** The number a digit string denotes. */
  function Value(r: string): nat
    requires IsDigits(r)
  {
    if |r| == 0 then 0 else Value(r[..|r| - 1]) * 10 + DigitValue(r[|r| - 1])
  }

  /** Reading back a rendered number gives the number. */
  lemma {:induction false} ValueOfShow(n: nat)
    ensures Value(Show(n)) == n
    decreases n
  {
    var r := Show(n);
    if n < 10 {
      assert r[..|r| - 1] == [];
    } else {
      ValueOfShow(n / 10);
      assert r[..|r| - 1] == Show(n / 10);
    }
  }

  /** A digit string that does not start with '0' denotes a positive number. */
  lemma {:induction false} ValuePositive(r: string)
    requires |r| >= 1 && IsDigits(r) && r[0] != '0'
    ensures Value(r) >= 1
    decreases |r|
  {
    if |r| > 1 {
      var init := r[..|r| - 1];
      assert init[0] == r[0];
      ValuePositive(init);
    }
  }

  /** Rendering the value of a canonical digit string gives the string back. */
  lemma {:induction false} ShowOfValue(r: string)
    requires IsCanonical(r)
    ensures Show(Value(r)) == r
    decreases |r|
  {
    var n := Value(r);
    if |r| == 1 {
      assert r[..0] == [] && Value(r[..0]) == 0;
      assert n == DigitValue(r[0]) < 10;
      assert Show(n) == [DigitChar(n)];
    } else {
      var init := r[..|r| - 1];
      var d := DigitValue(r[|r| - 1]);
      assert init[0] == r[0] != '0';
      assert IsCanonical(init);
      ValuePositive(init);
      ShowOfValue(init);
      assert n == Value(init) * 10 + d && d < 10;
      assert n >= 10 && n / 10 == Value(init) && n % 10 == d;
      assert DigitChar(d) == r[|r| - 1];
      assert r == init + [r[|r| - 1]];
    }
  }

  /** Distinct numbers render as distinct strings. */
  lemma ShowInjective(m: nat, n: nat)
    ensures Show(m) == Show(n) <==> m == n
  {
    ValueOfShow(m);
    ValueOfShow(n);
  }
}
