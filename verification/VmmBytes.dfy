/** The physical bytes behind the recorded ranges, as the processor finds them. */
module VmmBytes {
  import opened Bits
  import opened PageTable
  import opened Addresses
  import opened Mapping
  import opened Backing
  import opened RangeBacking
  import opened Vmm
  import opened VmmRanges
  import RecursiveMapper

  /** The physical address of the byte at virtual address a. */
  function Phys(st: State, l: Layout, a: nat): Option<nat> {
    match RecursiveMapper.Mmu(st.mem, l.root, a)
    case None => None
    case Some(f) => Some(f + a % 0x1000)
  }

  lemma SplitOffset(a: nat)
    ensures a % 0x20_0000 == a / 0x1000 % 512 * 0x1000 + a % 0x1000
  {
    var q := a / 0x1000;
    assert a == 0x1000 * q + a % 0x1000 && q == 512 * (q / 512) + q % 512;
    DivUnique(a, 0x20_0000, q / 512, q % 512 * 0x1000 + a % 0x1000);
  }

  lemma LargeBaseOf(e: Word, f: Frame)
    requires Base(e) == f && f % 0x20_0000 == 0
    ensures RecursiveMapper.LargeBase(e, 0x20_0000) == f
  {}

  /** A byte stands in the page frame of its page at its offset within the page. */
  lemma PhysOfByte(st: State, l: Layout, a: nat, f: Frame)
    requires LayoutOk(l) && Valid(st, l.depth) && IsRoot(st, l.root) && Inside(l, a)
    requires FrameAt(st, l, a) == Some(f) && f % PageSize(l.depth) == 0
    ensures Phys(st, l, a) == Some(f + a % PageSize(l.depth))
  {
    InsideLeads(st, l, a);
    assert Pml4Entry(a) != RECURSIVE_SLOT by {
      if l.lo <= a < l.hi { InSpan(l.lo, l.hi, a); } else { InSpan(l.dataStart, l.dataEnd, a); }
    }
    RecursiveMapper.MmuAgreesWithWalk(st.mem, st.labels, l.depth, l.root, a);
    if l.depth == 3 {
      LargeBaseOf(Walk(st.mem, l.root, PagePath(l.depth, a)).value, f);
      SplitOffset(a);
    }
  }

  lemma PageOfByte(size: nat, f: Frame, a: nat)
    requires size > 0 && f % size == 0
    ensures (f + a % size) / size == f / size && (f + a % size) % size == a % size
  {
    assert f == size * (f / size);
    DivUnique(f + a % size, size, f / size, a % size);
  }

  /** The table that a physical byte could lie in lies in the same page frame. */
  lemma TableOfByte(depth: nat, p: nat)
    ensures (p / 0x1000 * 0x1000) / PageSize(depth) == p / PageSize(depth)
  {
    DivUnique(p / 0x1000 * 0x1000, 0x1000, p / 0x1000, 0);
    DivDiv(p, 0x1000, 512);
    DivDiv(p / 0x1000 * 0x1000, 0x1000, 512);
  }

  /** A physical byte of a page frame that is taken: no page table holds it, and it will not be handed
      out again. */
  ghost predicate OwnByte(st: State, size: nat, p: nat)
    requires size > 0
  {
    p / 0x1000 * 0x1000 !in st.labels && forall k :: 0 <= k < |st.supply| ==> st.supply[k] / size != p / size
  }

  lemma TakenByte(st: State, depth: nat, f: Frame, p: nat)
    requires WholeFrames(st, PageSize(depth)) && Taken(st, PageSize(depth), f)
    requires p / PageSize(depth) == f / PageSize(depth)
    ensures OwnByte(st, PageSize(depth), p)
  {
    var size := PageSize(depth);
    TableOfByte(depth, p);
    assert Overlap(size, f, p / 0x1000 * 0x1000);
    forall k | 0 <= k < |st.supply| ensures st.supply[k] / size != p / size {
      assert PageFrame(st, size, st.supply[k]);
      AlignedFramesApart(size, f, st.supply[k]);
    }
  }

  /** Byte a lies in the i-th recorded range, which is backed. */
  ghost predicate BackedAt(s: Space, i: nat, a: nat) {
    && i < |Recorded(s.containers)| && !AddressOnly(Recorded(s.containers)[i].flags)
    && Recorded(s.containers)[i].base <= a < Recorded(s.containers)[i].base + Recorded(s.containers)[i].size
  }

  /** Every byte of a backed aligned range has a physical byte in a frame of its own. */
  lemma BackedByteIsOwn(s: Space, l: Layout, i: nat, a: nat)
    requires Inv(s, l) && AlignedSpace(s, l) && BackedAt(s, i, a)
    ensures FrameAt(s.pages, l, a).Some?
    ensures Phys(s.pages, l, a) == Some(FrameAt(s.pages, l, a).value + a % PageSize(l.depth))
    ensures FrameAt(s.pages, l, a).value % PageSize(l.depth) == 0
    ensures OwnByte(s.pages, PageSize(l.depth), Phys(s.pages, l, a).value)
  {
    var p := BackedByte(s, l, i, a);
    var f := FrameAt(s.pages, l, a).value;
    PhysOfByte(s.pages, l, a, f);
    PageOfByte(PageSize(l.depth), f, a);
    TakenByte(s.pages, l.depth, f, f + a % PageSize(l.depth));
  }

  lemma SameByte(size: nat, f: Frame, a: nat, g: Frame, b: nat)
    requires size > 0 && f % size == 0 && g % size == 0
    ensures f + a % size == g + b % size <==> f == g && a % size == b % size
  {
    PageOfByte(size, f, a);
    PageOfByte(size, g, b);
    AlignedFramesApart(size, f, g);
  }

  lemma SameAddress(size: nat, a: nat, b: nat)
    requires size > 0 && a / size == b / size && a % size == b % size
    ensures a == b
  {}

  /** Two bytes of backed ranges stand in the same physical byte exactly if they are the same byte, and
      no backed byte stands in a page table or in a frame that is still to be handed out. */
  lemma BackedBytesAreDistinct(s: Space, l: Layout, i: nat, a: nat, j: nat, b: nat)
    requires Inv(s, l) && AlignedSpace(s, l) && BackedAt(s, i, a) && BackedAt(s, j, b)
    ensures Phys(s.pages, l, a).Some? && Phys(s.pages, l, b).Some?
    ensures Phys(s.pages, l, a) == Phys(s.pages, l, b) <==> a == b
    ensures OwnByte(s.pages, PageSize(l.depth), Phys(s.pages, l, a).value)
  {
    BackedByteIsOwn(s, l, i, a);
    BackedByteIsOwn(s, l, j, b);
    BackedBytesShareFrameIffSamePage(s, l, i, a, j, b);
    SameByte(PageSize(l.depth), FrameAt(s.pages, l, a).value, a, FrameAt(s.pages, l, b).value, b);
    if a / PageSize(l.depth) == b / PageSize(l.depth) && a % PageSize(l.depth) == b % PageSize(l.depth) {
      SameAddress(PageSize(l.depth), a, b);
    }
  }

  /** After any run that asks for aligned addresses only, whatever was recorded before it: each byte of
      each backed range has a physical byte to itself. */
  lemma RunBytesAreDistinct(s: Space, l: Layout, calls: seq<AllocCall>, i: nat, a: nat, j: nat, b: nat)
    requires Inv(s, l) && AlignedSpace(s, l) && EnabledRun(s, l, calls) && RunAsksAligned(s, l, calls)
    requires BackedAt(Run(s, l, calls), i, a) && BackedAt(Run(s, l, calls), j, b)
    ensures var st := Run(s, l, calls).pages;
      && Phys(st, l, a).Some? && Phys(st, l, b).Some? && (Phys(st, l, a) == Phys(st, l, b) <==> a == b)
      && OwnByte(st, PageSize(l.depth), Phys(st, l, a).value)
  {
    RunKeepsInv(s, l, calls);
    RunAlignedIff(s, l, calls);
    BackedBytesAreDistinct(Run(s, l, calls), l, i, a, j, b);
  }
}
