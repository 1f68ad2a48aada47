/** Octal size fields, decoded in 32-bit signed arithmetic. */
module Octal {
  import opened Bits
  import opened Numbers

  /** Wrap-around of a 32-bit signed integer. */
  function ToInt32(x: int): int { (x + 0x8000_0000) % 0x1_0000_0000 - 0x8000_0000 }

  /** The value of a `char`, which is signed. */
  function Code(c: char): int {
    var k := c as int % 256;
    if k < 128 then k else k - 256
  }

  /** The number that octal digits spell; other characters count as their distance from '0'. */
  function Sum(s: seq<char>): int {
    if s == [] then 0 else 8 * Sum(s[..|s| - 1]) + Code(s[|s| - 1]) - 0x30
  }

  function Pow8(k: nat): nat { if k == 0 then 1 else 8 * Pow8(k - 1) }

  lemma WrapShift(x: int, k: int)
    ensures ToInt32(x + 0x1_0000_0000 * k) == ToInt32(x)
  {}

  lemma WrapIsShift(x: int) returns (k: int)
    ensures ToInt32(x) == x + 0x1_0000_0000 * k
  {
    k := -((x + 0x8000_0000) / 0x1_0000_0000);
  }

  lemma {:induction false} SumCons(c: char, d: int, s: seq<char>)
    requires d == Code(c) - 0x30
    ensures Sum([c] + s) == d * Pow8(|s|) + Sum(s)
    decreases |s|
  {
    if s == [] {
      SumAppend([], c);
      assert [c] + s == [] + [c];
    } else {
      var front, last := s[..|s| - 1], s[|s| - 1];
      assert [c] + s == ([c] + front) + [last] && s == front + [last];
      SumCons(c, d, front);
      SumAppend([c] + front, last);
      SumAppend(front, last);
      Regroup(d, Pow8(|front|), Sum(front));
    }
  }

  lemma SumAppend(s: seq<char>, c: char)
    ensures Sum(s + [c]) == 8 * Sum(s) + Code(c) - 0x30
  {
    assert (s + [c])[..|s|] == s;
  }

  lemma Regroup(d: int, p: int, x: int)
    ensures 8 * (d * p + x) == d * (8 * p) + 8 * x
  {}

  /** A wrapped sum of wrapped terms differs from the exact sum by a multiple of 2^32. */
  lemma WrapSum(a: int, k: int, d: int, p: int, j: int, x: int) returns (m: int)
    requires x == (a + 0x1_0000_0000 * k) + d * (p + 0x1_0000_0000 * j)
    ensures ToInt32(x) == d * p + a + 0x1_0000_0000 * m
  {
    var w := WrapIsShift(x);
    m := k + d * j + w;
    assert d * (p + 0x1_0000_0000 * j) == d * p + 0x1_0000_0000 * (d * j);
  }

  /** Wrapping the terms of a sum first does not change its wrapped value. */
  lemma WrapTerms(a: int, d: int, p: int)
    ensures ToInt32(ToInt32(a) + d * ToInt32(p)) == ToInt32(d * p + a)
  {
    var k := WrapIsShift(a);
    var j := WrapIsShift(p);
    var m := WrapSum(a, k, d, p, j, ToInt32(a) + d * ToInt32(p));
    WrapTwice(ToInt32(a) + d * ToInt32(p), d * p + a, m);
  }

  lemma WrapTwice(x: int, y: int, m: int)
    requires ToInt32(x) == y + 0x1_0000_0000 * m
    ensures ToInt32(x) == ToInt32(y)
  {
    WrapShift(y, m);
    WrapOfWrapped(x);
  }

  lemma WrapOfWrapped(x: int)
    ensures ToInt32(ToInt32(x)) == ToInt32(x)
  {}

  lemma WrapEight(p: int)
    ensures ToInt32(8 * ToInt32(p)) == ToInt32(8 * p)
  {
    WrapTerms(0, 8, p);
  }

  /** One digit more. */
  lemma DigitStep(c: char, rest: seq<char>)
    ensures ToInt32(ToInt32(Sum(rest)) + (Code(c) - 0x30) * ToInt32(Pow8(|rest|))) == ToInt32(Sum([c] + rest))
    ensures ToInt32(8 * ToInt32(Pow8(|rest|))) == ToInt32(Pow8(|[c] + rest|))
  {
    SumCons(c, Code(c) - 0x30, rest);
    WrapTerms(Sum(rest), Code(c) - 0x30, Pow8(|rest|));
    WrapEight(Pow8(|rest|));
  }

  /** The body of the loop of `octascii_to_dec`, with the digits that are done. */
  method AddDigit(c: char, converted: int, n: int, ghost rest: seq<char>) returns (converted1: int, n1: int)
    requires converted == ToInt32(Sum(rest)) && n == ToInt32(Pow8(|rest|))
    ensures converted1 == ToInt32(Sum([c] + rest)) && n1 == ToInt32(Pow8(|rest| + 1))
  {
    DigitStep(c, rest);
    converted1 := ToInt32(converted + (Code(c) - 0x30) * n);
    n1 := ToInt32(8 * n);
  }

  /** `octascii_to_dec`: the value of the digits, wrapped to 32 bits. */
  method OctasciiToDec(number: seq<char>, size: int) returns (converted: int)
    requires size <= |number| + 1
    ensures converted == ToInt32(Sum(number[..if size < 1 then 0 else size - 1]))
  {
    var n := 1;
    converted := 0;
    var i := size - 2;
    ghost var len := if size < 1 then 0 else size - 1;
    ghost var rest: seq<char> := [];
    while i >= 0
      invariant i < len && |rest| == (if i < 0 then len else len - 1 - i)
      invariant rest == number[len - |rest|..len]
      invariant converted == ToInt32(Sum(rest)) && n == ToInt32(Pow8(|rest|))
    {
      converted, n := AddDigit(number[i], converted, n, rest);
      rest := [number[i]] + rest;
      i := i - 1;
    }
    assert number[0..len] == number[..len];
  }

  /** k octal digits, with leading zeros. */
  function Padded(v: nat, k: nat): (s: seq<char>)
    ensures |s| == k
    decreases k
  {
    if k == 0 then [] else Padded(v / 8, k - 1) + ['0' + (v % 8) as char]
  }

  lemma {:induction false} SumOfPadded(v: nat, k: nat)
    requires v < Pow8(k)
    ensures Sum(Padded(v, k)) == v
    decreases k
  {
    if k > 0 {
      BelowPow8(v, k);
      SumOfPadded(v / 8, k - 1);
      SumAppend(Padded(v / 8, k - 1), '0' + (v % 8) as char);
      OctalDigitCode(v % 8);
    }
  }

  lemma BelowPow8(v: nat, k: nat)
    requires k > 0 && v < Pow8(k)
    ensures v / 8 < Pow8(k - 1)
  {}

  lemma OctalDigitCode(d: nat)
    requires d < 8
    ensures Code('0' + d as char) - 0x30 == d
  {}

  lemma Pow8At11()
    ensures Pow8(11) == 0x2_0000_0000
  {
    assert Pow8(4) == 0x1000;
    assert Pow8(8) == 0x100_0000;
  }

  lemma WrapExactIff(v: nat)
    requires v < 0x2_0000_0000
    ensures ToInt32(v) == v <==> v < 0x8000_0000
  {}

  /** Decoding the eleven digits of a size gives the size exactly if it is below 2 GiB. */
  lemma FieldDecodesIff(v: nat)
    requires v < Pow8(11)
    ensures ToInt32(Sum(Padded(v, 11))) == v <==> v < 0x8000_0000
  {
    Pow8At11();
    SumOfPadded(v, 11);
    WrapExactIff(v);
  }

  function ZeroDigits(n: nat): seq<char> { seq(n, _ => '0') }

  lemma {:induction false} PaddedZero(k: nat)
    ensures Padded(0, k) == ZeroDigits(k)
    decreases k
  {
    if k > 0 { PaddedZero(k - 1); }
  }

  /** The padded digits are what the number printer gives in base 8, filled up with zeros. */
  lemma {:induction false} PaddedIsNumeral(v: nat, k: nat, capital: bool)
    requires k > 0 && v < Pow8(k)
    ensures var s := Numeral(v, 8, capital); |s| <= k && Padded(v, k) == ZeroDigits(k - |s|) + s
    decreases k
  {
    var s := Numeral(v, 8, capital);
    if v < 8 {
      PaddedZero(k - 1);
    } else {
      PaddedIsNumeral(v / 8, k - 1, capital);
      var q := Numeral(v / 8, 8, capital);
      assert s == q + [Digit(v % 8, capital)];
      assert ZeroDigits(k - |s|) + s == (ZeroDigits(k - |s|) + q) + [Digit(v % 8, capital)];
    }
  }

  /** Printing in base 8, padding to eleven digits and decoding gives the number back exactly if it is
      below 2^31. */
  lemma PrintedOctalDecodesIff(v: nat, capital: bool)
    requires v < Pow8(11)
    ensures var s := Numeral(v, 8, capital);
      |s| <= 11 && (ToInt32(Sum(ZeroDigits(11 - |s|) + s)) == v <==> v < 0x8000_0000)
  {
    PaddedIsNumeral(v, 11, capital);
    FieldDecodesIff(v);
  }
}
