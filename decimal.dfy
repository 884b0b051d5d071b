/** Decimal rendering of integers, as Rust's `{}` formatting of an integer
    produces it (no padding, a leading '-' for negatives), together with the
    reference reading of a digit string that the renderings are proved
    against. */
module Decimal {

  predicate IsDigit(c: char) {
    '0' <= c <= '9'
  }

  predicate AllDigits(s: string) {
    forall i :: 0 <= i < |s| ==> IsDigit(s[i])
  }

  function DigitValue(c: char): (d: nat)
    requires IsDigit(c)
    ensures d < 10
  {
    c as int - '0' as int
  }

  function DigitChar(d: nat): (c: char)
    requires d < 10
    ensures IsDigit(c) && DigitValue(c) == d
  {
    ('0' as int + d) as char
  }

  /** The number a string of digits denotes, most significant digit first. */
  function Value(s: string): nat
    requires AllDigits(s)
  {
    if s == [] then 0 else 10 * Value(s[..|s| - 1]) + DigitValue(s[|s| - 1])
  }

  function Pow10(k: nat): (p: nat)
    ensures p >= 1
  {
    if k == 0 then 1 else 10 * Pow10(k - 1)
  }

  /** A digit string is canonical when it is non-empty and has no leading zero,
      except for "0" itself. */
  predicate IsCanonical(s: string) {
    |s| > 0 && AllDigits(s) && (s[0] == '0' ==> |s| == 1)
  }

  /** The decimal rendering of a natural number. */
  function NatToString(n: nat): (s: string)
    ensures IsCanonical(s)
    ensures Value(s) == n
    ensures s[0] == '0' <==> n == 0
  {
    if n < 10 then [DigitChar(n)]
    else
      var s := NatToString(n / 10) + [DigitChar(n % 10)];
      assert s[..|s| - 1] == NatToString(n / 10);
      s
  }

  lemma {:induction false} ValueAppend(s: string, c: char)
    requires AllDigits(s) && IsDigit(c)
    ensures AllDigits(s + [c]) && Value(s + [c]) == 10 * Value(s) + DigitValue(c)
  {
    assert (s + [c])[..|s|] == s;
  }

  /** Reading a digit string from the left: the first digit weighs 10^(rest). */
  lemma {:induction false} ValueCons(c: char, s: string)
    requires IsDigit(c) && AllDigits(s)
    ensures AllDigits([c] + s)
    ensures Value([c] + s) == DigitValue(c) * Pow10(|s|) + Value(s)
  {
    if s == [] {
      assert [c] + s == [c];
      assert [c][..0] == [];
    } else {
      var init, last := s[..|s| - 1], s[|s| - 1];
      var ci := [c] + init;
      assert s == init + [last];
      assert [c] + s == ci + [last];
      ValueCons(c, init);
      ValueAppend(ci, last);
      ValueAppend(init, last);
      ShiftDigit(DigitValue(c), Pow10(|init|), Value(init), DigitValue(last));
    }
  }

  lemma ShiftDigit(d: nat, p: nat, v: nat, e: nat)
    ensures 10 * (d * p + v) + e == d * (10 * p) + (10 * v + e)
  {
  }

  /** Horner's reading, left to right, continuing from an accumulated `acc`:
      the way a parser consumes digits. */
  function ValueFrom(acc: nat, s: string): nat
    requires AllDigits(s)
    decreases |s|
  {
    if s == [] then acc else ValueFrom(10 * acc + DigitValue(s[0]), s[1..])
  }

  /** Horner's reading agrees with `Value`: the accumulator is shifted left by
      the number of digits that follow. */
  lemma {:induction false} ValueFromIsValue(acc: nat, s: string)
    requires AllDigits(s)
    ensures ValueFrom(acc, s) == acc * Pow10(|s|) + Value(s)
    decreases |s|
  {
    if s != [] {
      var c, rest := s[0], s[1..];
      assert s == [c] + rest;
      var dv, p, v := DigitValue(c), Pow10(|rest|), Value(rest);
      ValueFromIsValue(10 * acc + dv, rest);
      ValueCons(c, rest);
      assert Pow10(|s|) == 10 * p;
      HornerStep(acc, dv, p, v);
    }
  }

  lemma HornerStep(acc: nat, dv: nat, p: nat, v: nat)
    ensures (10 * acc + dv) * p + v == acc * (10 * p) + (dv * p + v)
  {
  }

  /** The accumulator never shrinks. */
  lemma {:induction false} ValueFromAtLeast(acc: nat, s: string)
    requires AllDigits(s)
    ensures ValueFrom(acc, s) >= acc
    decreases |s|
  {
    if s != [] {
      ValueFromAtLeast(10 * acc + DigitValue(s[0]), s[1..]);
    }
  }

  /** A canonical string with a non-zero first digit denotes a positive number. */
  lemma {:induction false} LeadingDigitPositive(s: string)
    requires |s| > 0 && AllDigits(s) && s[0] != '0'
    ensures Value(s) > 0
  {
    if |s| > 1 {
      var init := s[..|s| - 1];
      assert init[0] == s[0];
      LeadingDigitPositive(init);
    }
  }

  /** NatToString is onto the canonical strings: reading a canonical string and
      rendering the number gives the string back. */
  lemma {:induction false} NatToStringOfValue(s: string)
    requires IsCanonical(s)
    ensures NatToString(Value(s)) == s
  {
    if |s| == 1 {
      assert s[..0] == [];
      assert s == [DigitChar(DigitValue(s[0]))];
    } else {
      var init := s[..|s| - 1];
      assert init[0] == s[0];
      LeadingDigitPositive(init);
      NatToStringOfValue(init);
      var n := Value(s);
      assert n / 10 == Value(init) && n % 10 == DigitValue(s[|s| - 1]);
      assert s == init + [s[|s| - 1]];
    }
  }

  /** The strings Rust's integer formatting produces: a canonical digit string,
      preceded by '-' when the number is negative. */
  predicate IsIntLiteral(s: string) {
    IsCanonical(s) || (|s| > 1 && s[0] == '-' && IsCanonical(s[1..]) && s[1] != '0')
  }

  function IntValue(s: string): int
    requires IsIntLiteral(s)
  {
    if s[0] == '-' then 0 - Value(s[1..]) as int else Value(s)
  }

  /** The decimal rendering of an integer. */
  function IntToString(n: int): (s: string)
    ensures IsIntLiteral(s)
    ensures IntValue(s) == n
    ensures s[0] == '-' <==> n < 0
  {
    if n < 0 then
      var s := "-" + NatToString(-n);
      assert s[1..] == NatToString(-n);
      s
    else NatToString(n)
  }

  /** IntToString is a bijection between the integers and the literals. */
  lemma IntToStringOfValue(s: string)
    requires IsIntLiteral(s)
    ensures IntToString(IntValue(s)) == s
  {
    if s[0] == '-' {
      LeadingDigitPositive(s[1..]);
      NatToStringOfValue(s[1..]);
      assert s == "-" + s[1..];
    } else {
      NatToStringOfValue(s);
    }
  }

  lemma IntToStringInjective(a: int, b: int)
    requires IntToString(a) == IntToString(b)
    ensures a == b
  {
  }

  /** Every character of an integer literal is a digit or '-'. */
  lemma IntLiteralChars(s: string, i: int)
    requires IsIntLiteral(s) && 0 <= i < |s|
    ensures IsDigit(s[i]) || s[i] == '-'
  {
    if s[0] == '-' && i > 0 {
      assert s[i] == s[1..][i - 1];
    }
  }

  /** The position of the first occurrence of `c` in `s`, or |s| when absent. */
  function FirstIndex(s: string, c: char): (k: nat)
    ensures k <= |s|
  {
    if s == [] || s[0] == c then 0 else 1 + FirstIndex(s[1..], c)
  }

  lemma {:induction false} FirstIndexOfSplit(a: string, b: string, c: char)
    requires c !in a
    ensures FirstIndex(a + [c] + b, c) == |a|
  {
    if a != [] {
      assert (a + [c] + b)[1..] == a[1..] + [c] + b;
      FirstIndexOfSplit(a[1..], b, c);
    }
  }
}
