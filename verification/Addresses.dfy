/** Virtual addresses: table indices, the page they name, and the addresses of the recursive slot. */
module Addresses {
  import opened Bits
  import opened PageTable

  const SIGN_EXTENSION: nat := 0xFFFF_0000_0000_0000
  const HIGHER_HALF_START: nat := 0xFFFF_8000_0000_0000

  type Address = v: nat | v < TWO_64

  function Pml4Entry(v: nat): nat { v / 0x80_0000_0000 % 512 }
  function PdprEntry(v: nat): nat { v / 0x4000_0000 % 512 }
  function PdEntry(v: nat): nat { v / 0x20_0000 % 512 }
  function PtEntry(v: nat): nat { v / 0x1000 % 512 }

  /** `SIGN_EXTENSION | ENTRIES_TO_ADDRESS(...)`; the fields do not overlap. */
  function EntriesToAddress(pml4: nat, pdpr: nat, pd: nat, pt: nat): nat {
    SIGN_EXTENSION + pml4 * 0x80_0000_0000 + pdpr * 0x4000_0000 + pd * 0x20_0000 + pt * 0x1000
  }

  predicate IsHigherHalf(v: nat) { v / 0x4000_0000_0000_0000 % 2 == 1 }

  function UserStatus(v: nat): nat { if IsHigherHalf(v) then 0 else USER_LEVEL }

  function PageSize(depth: nat): nat { if depth == 4 then 0x1000 else 0x20_0000 }

  /** The number of pages that hold `size` bytes. */
  function PageCount(depth: nat, size: nat): nat { (size + PageSize(depth) - 1) / PageSize(depth) }

  /** The indices a walk of `depth` levels uses for an address. */
  function PagePath(depth: nat, v: nat): Path {
    if depth == 4 then [Pml4Entry(v), PdprEntry(v), PdEntry(v), PtEntry(v)]
    else [Pml4Entry(v), PdprEntry(v), PdEntry(v)]
  }

  /** Bits 63 to 47 are equal. */
  predicate Canonical(v: nat) {
    v < 0x8000_0000_0000 || HIGHER_HALF_START <= v < TWO_64
  }

  /** The page number is the radix-512 number that the indices spell. */
  lemma IndicesSpellPage(v: nat)
    ensures v / 0x1000 % 0x10_0000_0000 ==
      ((Pml4Entry(v) * 512 + PdprEntry(v)) * 512 + PdEntry(v)) * 512 + PtEntry(v)
    ensures v / 0x20_0000 % 0x800_0000 == (Pml4Entry(v) * 512 + PdprEntry(v)) * 512 + PdEntry(v)
  {
    var a := v / 0x1000;
    assert v / 0x20_0000 == a / 512;
    var b := a / 512;
    assert v / 0x4000_0000 == b / 512 by { DivDiv(v, 0x20_0000, 512); }
    var c := b / 512;
    assert v / 0x80_0000_0000 == c / 512 by { DivDiv(v, 0x4000_0000, 512); }
    var d := c / 512;
    SplitDigit(b, 0x4_0000);
    SplitDigit(c, 0x200);
    SplitDigit(a, 0x800_0000);
  }

  lemma SplitDigit(a: nat, m: nat)
    requires m > 0
    ensures a % (512 * m) == a / 512 % m * 512 + a % 512
  {
    var q := a / 512 / m;
    assert a == 512 * (a / 512) + a % 512;
    assert a / 512 == m * q + a / 512 % m;
    assert a == (512 * m) * q + (a / 512 % m * 512 + a % 512);
    DivUnique(a, 512 * m, q, a / 512 % m * 512 + a % 512);
  }

  /** Two page-aligned canonical addresses have the same indices exactly if they are equal. */
  lemma PagePathInjective(depth: nat, v: nat, w: nat)
    requires depth in {3, 4} && Canonical(v) && Canonical(w)
    requires v % PageSize(depth) == 0 && w % PageSize(depth) == 0
    ensures PagePath(depth, v) == PagePath(depth, w) <==> v == w
  {
    if PagePath(depth, v) == PagePath(depth, w) {
      assert PagePath(depth, v)[0] == Pml4Entry(v) && PagePath(depth, w)[0] == Pml4Entry(w);
      assert PagePath(depth, v)[1] == PdprEntry(v) && PagePath(depth, w)[1] == PdprEntry(w);
      assert PagePath(depth, v)[2] == PdEntry(v) && PagePath(depth, w)[2] == PdEntry(w);
      if depth == 4 {
        assert PagePath(depth, v)[3] == PtEntry(v) && PagePath(depth, w)[3] == PtEntry(w);
      }
      IndicesSpellPage(v);
      IndicesSpellPage(w);
      SameLow48(depth, v, w);
    }
  }

  lemma SameLow48(depth: nat, v: nat, w: nat)
    requires depth in {3, 4} && Canonical(v) && Canonical(w)
    requires v % PageSize(depth) == 0 && w % PageSize(depth) == 0
    requires depth == 4 ==> v / 0x1000 % 0x10_0000_0000 == w / 0x1000 % 0x10_0000_0000
    requires depth == 3 ==> v / 0x20_0000 % 0x800_0000 == w / 0x20_0000 % 0x800_0000
    ensures v == w
  {
    if depth == 4 {
      CanonicalFromLow(v, v / 0x1000 / 0x10_0000_0000, v / 0x1000 % 0x10_0000_0000 * 0x1000);
      CanonicalFromLow(w, w / 0x1000 / 0x10_0000_0000, w / 0x1000 % 0x10_0000_0000 * 0x1000);
    } else {
      CanonicalFromLow(v, v / 0x20_0000 / 0x800_0000, v / 0x20_0000 % 0x800_0000 * 0x20_0000);
      CanonicalFromLow(w, w / 0x20_0000 / 0x800_0000, w / 0x20_0000 % 0x800_0000 * 0x20_0000);
    }
  }

  /** The low 48 bits of a canonical address determine the rest. */
  lemma CanonicalFromLow(v: nat, high: nat, low: nat)
    requires Canonical(v) && v == high * 0x1_0000_0000_0000 + low && low < 0x1_0000_0000_0000
    ensures high == if low < 0x8000_0000_0000 then 0 else 0xFFFF
  {}

  /** The half an address lies in shows in its first index and in bit 62. */
  lemma HalfOfAddress(v: nat)
    requires Canonical(v)
    ensures IsHigherHalf(v) <==> Pml4Entry(v) >= LOWER_HALF
    ensures IsHigherHalf(v) <==> v >= HIGHER_HALF_START
  {}

  /** An address put together from indices has those indices, at every offset of its page. */
  lemma EntriesOfAddress(pml4: nat, pdpr: nat, pd: nat, pt: nat, offset: nat)
    requires pml4 < 512 && pdpr < 512 && pd < 512 && pt < 512 && offset < 0x1000
    ensures var v := EntriesToAddress(pml4, pdpr, pd, pt) + offset;
      && Pml4Entry(v) == pml4 && PdprEntry(v) == pdpr && PdEntry(v) == pd && PtEntry(v) == pt
      && v % 0x1000 == offset && v < TWO_64
  {
    var v := EntriesToAddress(pml4, pdpr, pd, pt) + offset;
    var a := 0xFFFF * 512 + pml4;
    var b := a * 512 + pdpr;
    var c := b * 512 + pd;
    DigitAt(v, 0x1000, c, pt, offset);
    DigitAt(v, 0x20_0000, b, pd, pt * 0x1000 + offset);
    DigitAt(v, 0x4000_0000, a, pdpr, pd * 0x20_0000 + pt * 0x1000 + offset);
    DigitAt(v, 0x80_0000_0000, 0xFFFF, pml4, pdpr * 0x4000_0000 + pd * 0x20_0000 + pt * 0x1000 + offset);
  }

  lemma DigitAt(v: nat, unit: nat, above: nat, digit: nat, below: nat)
    requires unit > 0 && digit < 512 && below < unit
    requires v == unit * (above * 512 + digit) + below
    ensures v / unit % 512 == digit && v % unit == below
  {
    DivUnique(v, unit, above * 512 + digit, below);
    DivUnique(above * 512 + digit, 512, above, digit);
  }
}
