/** Printing numbers into a character buffer, and reading octal fields back. */
module Numbers {
  import opened Bits

  // ----- numerals -----

  function Digit(d: nat, capital: bool): char
    requires d < 36
  {
    if d < 10 then '0' + d as char
    else if capital then 'A' + (d - 10) as char
    else 'a' + (d - 10) as char
  }

  function DigitValue(c: char): nat {
    if '0' <= c <= '9' then (c - '0') as nat
    else if 'a' <= c <= 'z' then (c - 'a') as nat + 10
    else if 'A' <= c <= 'Z' then (c - 'A') as nat + 10
    else 36
  }

  /** The number that a string of digits spells, most significant digit first. */
  function Value(s: seq<char>, base: nat): nat {
    if s == [] then 0 else base * Value(s[..|s| - 1], base) + DigitValue(s[|s| - 1])
  }

  /** The numeral of a number. */
  function Numeral(n: nat, base: nat, capital: bool): (s: seq<char>)
    requires 2 <= base <= 36
    ensures |s| > 0
    decreases n
  {
    if n < base then [Digit(n, capital)] else Numeral(Quotient(n, base), base, capital) + [Digit(n % base, capital)]
  }

  /** Dividing by the base makes progress exactly because the base is not 1. */
  function Quotient(n: nat, base: nat): (q: nat)
    requires base >= 2
    ensures n > 0 ==> q < n
    ensures n >= base ==> q > 0
    ensures n < base ==> q == 0
    ensures n == base * q + n % base
  {
    n / base
  }

  lemma DigitRoundTrip(d: nat, capital: bool)
    requires d < 36
    ensures DigitValue(Digit(d, capital)) == d
    ensures Digit(d, capital) == '0' <==> d == 0
  {}

  /** A numeral reads back as its number and has no leading zero. */
  lemma {:induction false} NumeralReadsBack(n: nat, base: nat, capital: bool)
    requires 2 <= base <= 36
    ensures Value(Numeral(n, base, capital), base) == n
    ensures n > 0 ==> Numeral(n, base, capital)[0] != '0'
    decreases n
  {
    if n < base {
      ValueAppend([], Digit(n, capital), base);
      assert [Digit(n, capital)] == [] + [Digit(n, capital)];
      DigitRoundTrip(n, capital);
    } else {
      var q := Quotient(n, base);
      NumeralReadsBack(q, base, capital);
      ValueAppend(Numeral(q, base, capital), Digit(n % base, capital), base);
      DigitRoundTrip(n % base, capital);
    }
  }

  lemma ValueAppend(s: seq<char>, c: char, base: nat)
    ensures Value(s + [c], base) == base * Value(s, base) + DigitValue(c)
  {
    assert (s + [c])[..|s|] == s;
  }

  ghost predicate IsDigit(c: char, base: nat, capital: bool) {
    DigitValue(c) < base <= 36 && c == Digit(DigitValue(c), capital)
  }

  /** Digits of one case in one base, without a leading zero. */
  ghost predicate IsNumeral(s: seq<char>, base: nat, capital: bool) {
    s != [] && (|s| > 1 ==> s[0] != '0') && forall i :: 0 <= i < |s| ==> IsDigit(s[i], base, capital)
  }

  lemma FrontIsNumeral(s: seq<char>, base: nat, capital: bool)
    requires IsNumeral(s, base, capital) && |s| > 1
    ensures IsNumeral(s[..|s| - 1], base, capital)
  {
    var front := s[..|s| - 1];
    assert forall i :: 0 <= i < |front| ==> front[i] == s[i];
  }

  lemma SingleDigit(s: seq<char>, base: nat, capital: bool)
    requires 2 <= base <= 36 && IsNumeral(s, base, capital) && |s| == 1
    ensures Numeral(Value(s, base), base, capital) == s
  {
    assert s == [] + [s[0]] && Value([], base) == 0;
    ValueAppend([], s[0], base);
  }

  /** A string of digits without a leading zero is the numeral of the number it spells. */
  lemma {:induction false} NumeralUnique(s: seq<char>, base: nat, capital: bool)
    requires 2 <= base <= 36 && IsNumeral(s, base, capital)
    ensures Numeral(Value(s, base), base, capital) == s
    decreases |s|
  {
    if |s| == 1 {
      SingleDigit(s, base, capital);
    } else {
      FrontIsNumeral(s, base, capital);
      NumeralUnique(s[..|s| - 1], base, capital);
      AppendUnique(s, base, capital);
    }
  }

  lemma AppendUnique(s: seq<char>, base: nat, capital: bool)
    requires 2 <= base <= 36 && |s| > 1 && s[0] != '0' && IsDigit(s[|s| - 1], base, capital)
    requires Numeral(Value(s[..|s| - 1], base), base, capital) == s[..|s| - 1]
    ensures Numeral(Value(s, base), base, capital) == s
  {
    var front, c := s[..|s| - 1], s[|s| - 1];
    assert s == front + [c];
    ValueAppend(front, c, base);
    PositiveValue(front, base, capital);
    NumeralStep(Value(front, base), DigitValue(c), base, capital);
  }

  lemma NumeralStep(v: nat, d: nat, base: nat, capital: bool)
    requires 2 <= base <= 36 && v > 0 && d < base
    ensures Numeral(base * v + d, base, capital) == Numeral(v, base, capital) + [Digit(d, capital)]
  {
    MulMono(base, 1, v);
    DivUnique(base * v + d, base, v, d);
  }

  lemma PositiveValue(s: seq<char>, base: nat, capital: bool)
    requires 2 <= base <= 36 && s != [] && s[0] != '0'
    requires Numeral(Value(s, base), base, capital) == s
    ensures Value(s, base) > 0
  {}

  function Power(base: nat, k: nat): nat { if k == 0 then 1 else base * Power(base, k - 1) }

  lemma {:induction false} PowerPositive(base: nat, k: nat)
    requires base > 0
    ensures Power(base, k) > 0
    decreases k
  {
    if k > 0 { PowerPositive(base, k - 1); }
  }

  lemma DivPower(n: nat, base: nat, k: nat)
    requires base > 0 && k > 0
    ensures Power(base, k) > 0 && Power(base, k - 1) > 0
    ensures n / Power(base, k) == n / base / Power(base, k - 1)
  {
    PowerPositive(base, k);
    PowerPositive(base, k - 1);
    DivDiv(n, base, Power(base, k - 1));
  }

  /** Digit k from the right, by division; and how many digits there are. */
  lemma {:induction false} NumeralDigit(n: nat, base: nat, capital: bool, k: nat)
    requires 2 <= base <= 36 && k < |Numeral(n, base, capital)|
    ensures Power(base, k) > 0
    ensures var s := Numeral(n, base, capital); s[|s| - 1 - k] == Digit(n / Power(base, k) % base, capital)
    ensures k == |Numeral(n, base, capital)| - 1 <==> n / Power(base, k) < base
    decreases n
  {
    PowerPositive(base, k);
    var q := Quotient(n, base);
    if n < base {
      assert Power(base, 0) == 1;
    } else if k == 0 {
      assert n / Power(base, 0) == n;
    } else {
      NumeralDigit(q, base, capital, k - 1);
      DivPower(n, base, k);
    }
  }

  // ----- in-place reversal -----

  function Reversed(s: seq<char>): (r: seq<char>)
    ensures |r| == |s|
    ensures forall i :: 0 <= i < |s| ==> r[i] == s[|s| - 1 - i]
  {
    if s == [] then [] else [s[|s| - 1]] + Reversed(s[..|s| - 1])
  }

  /** Where the character at index i of the buffer goes. */
  function Mirror(start: nat, n: nat, i: int): int { 2 * start + n - 1 - i }

  lemma MirroredIsReversed(was: seq<char>, now: seq<char>, start: nat, n: nat)
    requires start + n <= |was| == |now|
    requires forall i :: start <= i < start + n ==> now[i] == was[Mirror(start, n, i)]
    ensures now[start..start + n] == Reversed(was[start..start + n])
  {
    var s, r := now[start..start + n], Reversed(was[start..start + n]);
    forall k | 0 <= k < n ensures s[k] == r[k] {
      assert now[start + k] == was[Mirror(start, n, start + k)];
    }
  }

  /** The swapping loop at the end of the digit printers. */
  method SwapEnds(buffer: array<char>, start: nat, n: nat, ghost was: seq<char>)
    requires start + n <= buffer.Length && was == buffer[..]
    modifies buffer
    ensures forall i :: start <= i < start + n ==> buffer[i] == was[Mirror(start, n, i)]
    ensures forall i :: 0 <= i < start || start + n <= i < buffer.Length ==> buffer[i] == was[i]
  {
    var lo, hi := start, start + n - 1;
    while hi > lo
      invariant start <= lo <= start + n && start - 1 <= hi < start + n && hi == Mirror(start, n, lo)
      invariant forall i :: start <= i < lo || hi < i < start + n ==> buffer[i] == was[Mirror(start, n, i)]
      invariant forall i :: lo <= i <= hi ==> buffer[i] == was[i]
      invariant forall i :: 0 <= i < start || start + n <= i < buffer.Length ==> buffer[i] == was[i]
      decreases hi - lo
    {
      buffer[lo], buffer[hi] := buffer[hi], buffer[lo];
      lo, hi := lo + 1, hi - 1;
    }
  }

  /** It reverses the digits in place. */
  method ReverseInPlace(buffer: array<char>, start: nat, n: nat)
    requires start + n <= buffer.Length
    modifies buffer
    ensures buffer[start..start + n] == Reversed(old(buffer[start..start + n]))
    ensures forall i :: 0 <= i < start || start + n <= i < buffer.Length ==> buffer[i] == old(buffer[i])
  {
    ghost var was := buffer[..];
    SwapEnds(buffer, start, n, was);
    MirroredIsReversed(was, buffer[..], start, n);
    assert buffer[..][start..start + n] == buffer[start..start + n];
    assert was[start..start + n] == old(buffer[start..start + n]);
  }

  // ----- the printers -----

  /** What the digits still to come and those already written (in reverse) add up to. */
  ghost predicate Printing(n: nat, base: nat, capital: bool, rest: nat, written: seq<char>)
    requires 2 <= base <= 36
  {
    Numeral(n, base, capital) == (if rest == 0 then [] else Numeral(rest, base, capital)) + Reversed(written)
  }

  lemma PrintDigit(n: nat, base: nat, capital: bool, rest: nat, written: seq<char>)
    requires 2 <= base <= 36 && rest > 0 && Printing(n, base, capital, rest, written)
    ensures Printing(n, base, capital, Quotient(rest, base), written + [Digit(rest % base, capital)])
    ensures |written| < |Numeral(n, base, capital)|
  {
    NumeralUnfold(rest, base, capital);
    var q := Quotient(rest, base);
    ShiftDigit(Numeral(n, base, capital), if q == 0 then [] else Numeral(q, base, capital),
      Digit(rest % base, capital), written);
  }

  lemma ShiftDigit(whole: seq<char>, rest: seq<char>, d: char, written: seq<char>)
    requires whole == (rest + [d]) + Reversed(written)
    ensures whole == rest + Reversed(written + [d]) && |written| < |whole|
  {
    ReversedAppend(written, d);
    Reassociate(rest, d, Reversed(written));
  }

  lemma Reassociate(x: seq<char>, d: char, y: seq<char>)
    ensures (x + [d]) + y == x + ([d] + y)
  {}

  lemma NumeralUnfold(n: nat, base: nat, capital: bool)
    requires 2 <= base <= 36 && n > 0
    ensures var q := Quotient(n, base);
      Numeral(n, base, capital) == (if q == 0 then [] else Numeral(q, base, capital)) + [Digit(n % base, capital)]
  {}

  lemma ReversedAppend(s: seq<char>, c: char)
    ensures Reversed(s + [c]) == [c] + Reversed(s)
  {
    assert (s + [c])[..|s|] == s;
  }

  /** The digit loop comes closer to its end exactly from base 2 on; in base 1, which the code accepts, it
      never ends for a number above 0. */
  lemma QuotientShrinksIff(n: nat, base: nat)
    requires n > 0 && base >= 1
    ensures n / base < n <==> base >= 2
  {
    assert n == base * (n / base) + n % base;
    if base >= 2 && n / base >= n { MulMono(n, 2, base); }
  }

  /** `_getNumericString`. */
  method GetNumericString(buffer: array<char>, number: nat, base: int, capital: bool) returns (size: nat)
    requires number < TWO_64 && (base == 1 ==> number == 0)
    requires 2 <= base <= 36 ==> |Numeral(number, base, capital)| < buffer.Length
    requires buffer.Length > 0
    modifies buffer
    ensures base == 1 ==> size == 1 && buffer[0] == '0'
    ensures base < 1 || base > 36 ==> size == 0 && buffer[..] == old(buffer[..])
    ensures 2 <= base <= 36 ==>
      size == |Numeral(number, base, capital)| && buffer[..size] == Numeral(number, base, capital)
    ensures 2 <= base <= 36 && number > 0 ==> buffer[size] == '\0'
    ensures number == 0 ==> buffer[1..] == old(buffer[1..])
  {
    if base < 1 || base > 36 {
      return 0;
    }
    if number == 0 {
      buffer[0] := '0';
      return 1;
    }
    size := PutDigits(buffer, number, base, capital);
    buffer[size] := '\0';
    assert buffer[..size] == buffer[0..size];
    ReverseInPlace(buffer, 0, size);
    assert buffer[..size] == buffer[0..size];
  }

  /** The digit loop of `_getNumericString`, least significant digit first. */
  method PutDigits(buffer: array<char>, number: nat, base: nat, capital: bool) returns (size: nat)
    requires 2 <= base <= 36 && number > 0 && |Numeral(number, base, capital)| < buffer.Length
    modifies buffer
    ensures size == |Numeral(number, base, capital)| && Reversed(buffer[..size]) == Numeral(number, base, capital)
  {
    size := 0;
    var rest: nat := number;
    ghost var written: seq<char> := [];
    while rest > 0
      invariant size == |written| <= |Numeral(number, base, capital)| && buffer[..size] == written
      invariant Printing(number, base, capital, rest, written)
    {
      PrintDigit(number, base, capital, rest, written);
      var mod := rest % base;
      if mod < 10 {
        buffer[size] := '0' + mod as char;
      } else {
        buffer[size] := (if capital then 'A' else 'a') + (mod - 10) as char;
      }
      written := written + [Digit(mod, capital)];
      rest := Quotient(rest, base);
      size := size + 1;
    }
  }

  /** `_getUnsignedDecString`, writing from `start` on. */
  method GetUnsignedDecString(buffer: array<char>, start: nat, number: nat) returns (size: nat)
    requires number < TWO_64 && start + |Numeral(number, 10, false)| < buffer.Length
    modifies buffer
    ensures size == |Numeral(number, 10, false)| && buffer[start..start + size] == Numeral(number, 10, false)
    ensures number > 0 ==> buffer[start + size] == '\0'
    ensures buffer[..start] == old(buffer[..start]) && (number == 0 ==> buffer[start + 1..] == old(buffer[start + 1..]))
  {
    if number == 0 {
      buffer[start] := '0';
      return 1;
    }
    size := PutDecDigits(buffer, start, number);
    ghost var digits, before := buffer[start..start + size], buffer[..start];
    buffer[start + size] := '\0';
    assert buffer[start..start + size] == digits && buffer[..start] == before;
    ReverseInPlace(buffer, start, size);
    assert buffer[..start] == before;
  }

  /** The digit loop of `_getUnsignedDecString`. */
  method PutDecDigits(buffer: array<char>, start: nat, number: nat) returns (size: nat)
    requires number > 0 && start + |Numeral(number, 10, false)| < buffer.Length
    modifies buffer
    ensures size == |Numeral(number, 10, false)| && Reversed(buffer[start..start + size]) == Numeral(number, 10, false)
    ensures buffer[..start] == old(buffer[..start])
  {
    size := 0;
    var rest := number;
    ghost var written: seq<char> := [];
    while rest > 0
      invariant size == |written| <= |Numeral(number, 10, false)| && buffer[start..start + size] == written
      invariant Printing(number, 10, false, rest, written)
      invariant buffer[..start] == old(buffer[..start])
    {
      PrintDigit(number, 10, false, rest, written);
      var mod := rest % 10;
      buffer[start + size] := mod as char + '0';
      written := written + [Digit(mod, false)];
      rest := rest / 10;
      size := size + 1;
    }
  }

  /** `_getDecString` for a 64-bit signed number. */
  method GetDecString(buffer: array<char>, number: int) returns (size: nat)
    requires -0x8000_0000_0000_0000 <= number < 0x8000_0000_0000_0000
    requires buffer.Length > |SignedNumeral(number)|
    modifies buffer
    ensures size == |SignedNumeral(number)| && buffer[..size] == SignedNumeral(number)
  {
    if number < 0 {
      buffer[0] := '-';
      var magnitude := (TWO_64 - (number + TWO_64)) % TWO_64;
      var digits := GetUnsignedDecString(buffer, 1, magnitude);
      size := 1 + digits;
      assert buffer[..size] == buffer[..1] + buffer[1..1 + digits];
      assert buffer[..1] == ['-'];
    } else {
      size := GetUnsignedDecString(buffer, 0, number);
      assert buffer[..size] == buffer[0..0 + size];
    }
  }

  function SignedNumeral(number: int): seq<char> {
    if number < 0 then ['-'] + Numeral(-number, 10, false) else Numeral(number, 10, false)
  }

  /** The number that a string with an optional minus sign spells in base 10. */
  function SignedValue(s: seq<char>): int {
    if s != [] && s[0] == '-' then 0 - Value(s[1..], 10) else Value(s, 10)
  }

  /** Reading it back gives the number, with one minus sign exactly for negative numbers. */
  lemma SignedReadsBack(number: int)
    ensures var s := SignedNumeral(number); s != [] && SignedValue(s) == number && (s[0] == '-' <==> number < 0)
  {
    var n := if number < 0 then -number else number;
    NumeralReadsBack(n, 10, false);
    NumeralCase(n, 10, false, 0);
    assert number < 0 ==> SignedNumeral(number)[1..] == Numeral(n, 10, false);
  }

  /** Every character is a decimal digit or a letter of the case asked for. */
  lemma {:induction false} NumeralCase(n: nat, base: nat, capital: bool, k: nat)
    requires 2 <= base <= 36 && k < |Numeral(n, base, capital)|
    ensures var c := Numeral(n, base, capital)[k];
      '0' <= c <= '9' || (if capital then 'A' <= c <= 'Z' else 'a' <= c <= 'z')
    decreases n
  {
    if n >= base {
      var q := Quotient(n, base);
      if k < |Numeral(q, base, capital)| { NumeralCase(q, base, capital, k); }
    }
  }

  /** `_getHexString`: first the number of digits, then the digits from the left by shifting. */
  method GetHexString(buffer: array<char>, hexnumber: nat, capital: bool) returns (size: nat)
    requires hexnumber < TWO_64 && |Numeral(hexnumber, 16, capital)| < buffer.Length
    modifies buffer
    ensures size == |Numeral(hexnumber, 16, capital)| && buffer[..size] == Numeral(hexnumber, 16, capital)
    ensures buffer[size] == '\0'
  {
    var tmp, shift := hexnumber, 0;
    ghost var s := Numeral(hexnumber, 16, capital);
    NumeralDigit(hexnumber, 16, capital, 0);
    assert Power(16, 0) == 1 && hexnumber / 1 == hexnumber;
    while tmp >= 16
      invariant shift < |s| && Power(16, shift) > 0 && tmp == hexnumber / Power(16, shift)
      decreases tmp
    {
      NumeralDigit(hexnumber, 16, capital, shift);
      ShiftOnce(hexnumber, shift);
      tmp := tmp / 16;
      shift := shift + 1;
    }
    NumeralDigit(hexnumber, 16, capital, shift);
    size := shift + 1;
    var i, left := 0, size;
    while left > 0
      invariant 0 <= left <= size && i == size - left && size == |s|
      invariant forall k :: 0 <= k < i ==> buffer[k] == s[k]
      invariant i > 0 ==> buffer[i] == '\0'
    {
      NumeralDigit(hexnumber, 16, capital, left - 1);
      tmp := hexnumber / Power(16, left - 1) % 16;
      if tmp < 10 {
        buffer[i] := '0' + tmp as char;
      } else {
        buffer[i] := (if capital then 'A' else 'a') + (tmp - 10) as char;
      }
      i, left := i + 1, left - 1;
      buffer[i] := '\0';
    }
  }

  lemma ShiftOnce(n: nat, k: nat)
    ensures Power(16, k) > 0 && Power(16, k + 1) > 0
    ensures n / Power(16, k + 1) == n / Power(16, k) / 16
  {
    PowerPositive(16, k);
    DivDiv(n, Power(16, k), 16);
  }
}
