/** Positional numerals: the digits of a natural number in a base from 2 to
    36, their value, and their spelling with the digit characters
    `0-9a-z` that `Fixnum#to_s` and `Integer()` share. */
module Numerals {
  import opened Wrappers
  import opened Bytes

  /** The digits of `n` in `base`, most significant first; zero is `[0]`. */
  function Digits(n: nat, base: nat): (r: seq<nat>)
    requires 2 <= base
    ensures 1 <= |r|
    ensures forall i :: 0 <= i < |r| ==> r[i] < base
    ensures n > 0 ==> r[0] != 0
    ensures n == 0 ==> r == [0]
    decreases n
  {
    if n < base then [n]
    else
      assert 1 <= n / base < n by {
        QuotientSmaller(n, base);
      }
      Digits(n / base, base) + [n % base]
  }

  /** The number a digit string denotes, read most significant first. */
  function Value(ds: seq<nat>, base: nat): nat
  {
    if ds == [] then 0 else Value(ds[..|ds| - 1], base) * base + ds[|ds| - 1]
  }

  /** Reading the digits back gives the number. */
  lemma {:induction false} ValueOfDigits(n: nat, base: nat)
    requires 2 <= base
    ensures Value(Digits(n, base), base) == n
    decreases n
  {
    if n >= base {
      var q := n / base;
      LastDigit(n, base);
      QuotientSmaller(n, base);
      ValueOfDigits(q, base);
      ValueSnoc(Digits(q, base), n % base, base);
      Recompose(n, base, q);
    }
  }

  lemma {:induction false} LastDigit(n: nat, base: nat)
    requires 2 <= base <= n
    ensures Digits(n, base) == Digits(n / base, base) + [n % base]
  {
  }

  lemma {:induction false} QuotientSmaller(n: nat, base: nat)
    requires 2 <= base <= n
    ensures 1 <= n / base < n
  {
    var q := n / base;
    assert n == q * base + n % base;
    assert q * base == q + q * (base - 1);
  }

  lemma {:induction false} ValueSnoc(ds: seq<nat>, d: nat, base: nat)
    ensures Value(ds + [d], base) == Value(ds, base) * base + d
  {
    assert (ds + [d])[..|ds|] == ds;
  }

  lemma {:induction false} Recompose(n: nat, base: nat, q: nat)
    requires 2 <= base && q == n / base
    ensures q * base + n % base == n
  {
  }

  /** Two numbers with the same digits are equal. */
  lemma {:induction false} DigitsInjective(m: nat, n: nat, base: nat)
    requires 2 <= base
    requires Digits(m, base) == Digits(n, base)
    ensures m == n
  {
    ValueOfDigits(m, base);
    ValueOfDigits(n, base);
  }

  const Zero: Byte := 48  // '0'
  const LowerA: Byte := 97  // 'a'
  const UpperA: Byte := 65  // 'A'
  const Minus: Byte := 45  // '-'
  const Plus: Byte := 43  // '+'

  /** `digitmap[d]`: `0`-`9`, then `a`-`z`. */
  function DigitChar(d: nat): (r: Byte)
    requires d < 36
  {
    if d < 10 then Zero + d else LowerA + (d - 10)
  }

  /** The digit a character stands for, in either letter case, if any. */
  function DigitOf(c: Byte): (r: Option<nat>)
    ensures r.Some? ==> r.value < 36
  {
    if Zero <= c < Zero + 10 then Some(c - Zero)
    else if LowerA <= c < LowerA + 26 then Some(c - LowerA + 10)
    else if UpperA <= c < UpperA + 26 then Some(c - UpperA + 10)
    else None
  }

  lemma {:induction false} DigitOfDigitChar(d: nat)
    requires d < 36
    ensures DigitOf(DigitChar(d)) == Some(d)
  {
  }

  /** The characters of a digit string. */
  function Spell(ds: seq<nat>): (r: seq<Byte>)
    requires forall i :: 0 <= i < |ds| ==> ds[i] < 36
    ensures |r| == |ds|
    ensures forall i :: 0 <= i < |ds| ==> r[i] == DigitChar(ds[i])
  {
    seq(|ds|, i requires 0 <= i < |ds| => DigitChar(ds[i]))
  }

  /** `n` written in `base` without a sign. */
  function Numeral(n: nat, base: nat): (r: seq<Byte>)
    requires 2 <= base <= 36
  {
    Spell(Digits(n, base))
  }

  /** The digit values of a digit string in `base`, or `None` when some
      character is not a digit below `base` (or the string is empty). */
  function ReadDigits(s: seq<Byte>, base: nat): (r: Option<seq<nat>>)
    ensures r.Some? ==> |r.value| == |s| && 1 <= |s|
    ensures r.Some? ==> forall i :: 0 <= i < |s| ==> DigitOf(s[i]) == Some(r.value[i]) && r.value[i] < base
  {
    if s == [] then None
    else if forall i :: 0 <= i < |s| ==> DigitOf(s[i]).Some? && DigitOf(s[i]).value < base then
      Some(seq(|s|, i requires 0 <= i < |s| => DigitOf(s[i]).value))
    else None
  }

  /** Every spelled digit string reads back as itself. */
  lemma {:induction false} ReadSpelledDigits(ds: seq<nat>, base: nat)
    requires 1 <= |ds|
    requires base <= 36
    requires forall i :: 0 <= i < |ds| ==> ds[i] < base
    ensures ReadDigits(Spell(ds), base) == Some(ds)
  {
    var s := Spell(ds);
    forall i | 0 <= i < |s| ensures DigitOf(s[i]) == Some(ds[i]) {
      DigitOfDigitChar(ds[i]);
    }
    assert ReadDigits(s, base).Some?;
    assert ReadDigits(s, base).value == ds;
  }

  /** Reading `Numeral(n, base)` back gives `n`. */
  lemma {:induction false} ReadNumeral(n: nat, base: nat)
    requires 2 <= base <= 36
    ensures ReadDigits(Numeral(n, base), base) == Some(Digits(n, base))
    ensures Value(Digits(n, base), base) == n
  {
    ReadSpelledDigits(Digits(n, base), base);
    ValueOfDigits(n, base);
  }

  /** An integer in `base`, with a leading `-` when it is negative. */
  function Signed(i: int, base: nat): (r: seq<Byte>)
    requires 2 <= base <= 36
  {
    if i < 0 then [Minus] + Numeral(-i, base) else Numeral(i, base)
  }

  /** A numeral has no sign character and starts with `0` only when it is
      `0` itself. */
  lemma {:induction false} NumeralShape(n: nat, base: nat)
    requires 2 <= base <= 36
    ensures 1 <= |Numeral(n, base)|
    ensures Minus !in Numeral(n, base) && Plus !in Numeral(n, base)
    ensures Numeral(n, base)[0] == Zero <==> n == 0
  {
    var ds := Digits(n, base);
    assert Numeral(n, base)[0] == DigitChar(ds[0]);
  }
}
