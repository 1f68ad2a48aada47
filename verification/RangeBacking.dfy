/** Backing the pages of a virtual range with frames of their own. */
module RangeBacking {
  import opened Bits
  import opened PageTable
  import opened Addresses
  import opened Mapping
  import opened Backing
  import opened TableCount

  const LOWER_HALF_END: nat := 0x8000_0000_0000
  const RECURSIVE_START: nat := 0xFFFF_FF00_0000_0000
  const RECURSIVE_END: nat := 0xFFFF_FF80_0000_0000
  const PRESENT_AND_WRITE: nat := 3

  /** `align_value_to_page`: the least multiple of the page size that is not below the value. */
  function AlignToPage(depth: nat, value: nat): (r: nat)
    ensures value <= r < value + PageSize(depth) && r % PageSize(depth) == 0
    ensures r / PageSize(depth) == PageCount(depth, value)
  {
    var size, q := PageSize(depth), PageCount(depth, value);
    DivUnique(q * size, size, q, 0);
    assert value + size - 1 == size * q + (value + size - 1) % size;
    q * size
  }

  // ----- pages -----

  /** Two canonical addresses are translated by the same leaf exactly if they lie in the same page. */
  lemma SamePathIffSamePage(depth: nat, a: nat, b: nat)
    requires depth in {3, 4} && Canonical(a) && Canonical(b)
    ensures PagePath(depth, a) == PagePath(depth, b) <==> a / PageSize(depth) == b / PageSize(depth)
  {
    PathOfPageStart(depth, a);
    PathOfPageStart(depth, b);
    PagePathInjective(depth, PageStart(depth, a), PageStart(depth, b));
  }

  function PageStart(depth: nat, a: nat): nat { a / PageSize(depth) * PageSize(depth) }

  lemma PathOfPageStart(depth: nat, a: nat)
    requires depth in {3, 4} && Canonical(a)
    ensures PagePath(depth, PageStart(depth, a)) == PagePath(depth, a)
    ensures PageStart(depth, a) % PageSize(depth) == 0 && Canonical(PageStart(depth, a))
  {
    var size, w := PageSize(depth), PageStart(depth, a);
    DivUnique(w, size, a / size, 0);
    assert w / size == a / size;
    if depth == 4 {
      DivDiv(a, 0x1000, 0x200);
      DivDiv(w, 0x1000, 0x200);
    }
    DivDiv(a, 0x20_0000, 0x200);
    DivDiv(w, 0x20_0000, 0x200);
    DivDiv(a, 0x4000_0000, 0x200);
    DivDiv(w, 0x4000_0000, 0x200);
  }

  /** The address of the k-th page on from v. */
  function PageOn(depth: nat, v: nat, k: nat): nat { v + k * PageSize(depth) }

  lemma PageOnNumber(depth: nat, v: nat, k: nat)
    ensures PageOn(depth, v, k) / PageSize(depth) == v / PageSize(depth) + k
  {
    var size := PageSize(depth);
    assert v == size * (v / size) + v % size;
    assert size * (v / size) + k * size == size * (v / size + k);
    DivUnique(v + k * size, size, v / size + k, v % size);
  }

  lemma PageOnInside(depth: nat, v: nat, n: nat, k: nat)
    requires k < n
    ensures v <= PageOn(depth, v, k) && PageOn(depth, v, k) + PageSize(depth) <= PageOn(depth, v, n)
  {
    MulMono(PageSize(depth), k + 1, n);
    assert (k + 1) * PageSize(depth) == k * PageSize(depth) + PageSize(depth);
  }

  function PagesOf(depth: nat, v: nat, n: nat): (pages: seq<Path>)
    ensures |pages| == n
    ensures forall k :: 0 <= k < n ==> pages[k] == PagePath(depth, PageOn(depth, v, k))
  {
    seq(n, (k: int) => if k >= 0 then PagePath(depth, PageOn(depth, v, k)) else [])
  }

  /** Addresses of one half, outside the recursive slot. */
  predicate Span(lo: nat, hi: nat) {
    && lo <= hi <= TWO_64
    && (|| hi <= LOWER_HALF_END
        || HIGHER_HALF_START <= lo <= hi <= RECURSIVE_START
        || RECURSIVE_END <= lo)
  }

  lemma InSpan(lo: nat, hi: nat, a: nat)
    requires Span(lo, hi) && lo <= a < hi
    ensures Canonical(a) && Pml4Entry(a) != RECURSIVE_SLOT
    ensures IsHigherHalf(a) == IsHigherHalf(lo)
  {
    HalfOfAddress(a);
    HalfOfAddress(lo);
    if a < RECURSIVE_START {
      assert a / 0x80_0000_0000 < 0x1_FFFF_FE;
    } else {
      assert a / 0x80_0000_0000 == 0x1_FFFF_FF;
    }
  }

  // ----- one address space -----

  /** The page table of a `VmmInfo`, the window for its ranges and the area for its containers. */
  datatype Layout = Layout(depth: nat, root: Frame, lo: nat, hi: nat, dataStart: nat, dataEnd: nat)

  ghost predicate LayoutOk(l: Layout) {
    && l.depth in {3, 4}
    && Span(l.lo, l.hi) && l.lo % PageSize(l.depth) == 0 && l.hi % PageSize(l.depth) == 0
    && Span(l.dataStart, l.dataEnd) && l.dataStart % PageSize(l.depth) == 0 && l.dataEnd % PageSize(l.depth) == 0
    && HIGHER_HALF_START <= l.dataStart
    && (l.dataEnd <= l.lo || l.hi <= l.dataStart)
  }

  ghost predicate Inside(l: Layout, a: nat) { l.lo <= a < l.hi || l.dataStart <= a < l.dataEnd }

  /** The frame behind an address. */
  ghost function FrameAt(st: State, l: Layout, a: nat): Option<Frame> {
    Translate(st, l.root, PagePath(l.depth, a))
  }

  ghost predicate NoneMapped(st: State, l: Layout, from: nat, to: nat) {
    forall a :: from <= a < to ==> FrameAt(st, l, a).None?
  }

  /** Each of these addresses has a page frame that no other of them has, that holds no page table and
      that will not be handed out again. */
  ghost predicate Exclusive(st: State, l: Layout, own: iset<nat>) {
    && (forall a :: a in own ==>
      Inside(l, a) && FrameAt(st, l, a).Some? && Taken(st, PageSize(l.depth), FrameAt(st, l, a).value))
    && (forall a, b :: a in own && b in own && a != b ==> FrameAt(st, l, a) != FrameAt(st, l, b))
  }

  lemma InsideLeads(st: State, l: Layout, a: nat)
    requires LayoutOk(l) && IsRoot(st, l.root) && Inside(l, a)
    ensures Canonical(a) && LeadsToLeaf(st.labels, l.depth, l.root, PagePath(l.depth, a))
  {
    if l.lo <= a < l.hi {
      InSpan(l.lo, l.hi, a);
    } else {
      InSpan(l.dataStart, l.dataEnd, a);
    }
  }

  // ----- backing a range -----

  /** `vm_parse_flags` clears bit 7; the two lowest bits are always set. */
  function ArchFlags(flags: nat, user: nat): nat {
    Or(AndNot(Or(flags, user), HUGEPAGE_BIT), PRESENT_AND_WRITE)
  }

  lemma ArchFlagsFit(flags: nat, user: nat)
    requires flags < 0x1000 && user in {0, USER_LEVEL}
    ensures ArchFlags(flags, user) < 0x1000 && Present(ArchFlags(flags, user))
  {
    OrLow(flags, user);
    OrLow(AndNot(Or(flags, user), HUGEPAGE_BIT), PRESENT_AND_WRITE);
  }

  /** Back the n pages from v on. */
  ghost function BackRange(st: State, l: Layout, v: nat, n: nat, flags: nat): State {
    Back(st, l.root, PagesOf(l.depth, v, n), UserStatus(v),
      Low(l.depth, ArchFlags(flags, UserStatus(v)), UserStatus(v)))
  }

  /** Each page finds its own frame and one for every table that is missing when its turn comes. */
  ghost predicate EnoughForRange(st: State, l: Layout, v: nat, n: nat, flags: nat) {
    EnoughToBack(st, l.root, PagesOf(l.depth, v, n), UserStatus(v),
      Low(l.depth, ArchFlags(flags, UserStatus(v)), UserStatus(v)))
  }

  ghost predicate CanBackRange(st: State, l: Layout, v: nat, n: nat, flags: nat) {
    RangeReady(st, l, v, n, flags) && EnoughForRange(st, l, v, n, flags)
  }

  ghost predicate RangeReady(st: State, l: Layout, v: nat, n: nat, flags: nat) {
    && LayoutOk(l) && Valid(st, l.depth) && IsRoot(st, l.root) && WholeFrames(st, PageSize(l.depth)) && flags < 0x1000
    && (l.lo <= v <= PageOn(l.depth, v, n) <= l.hi || l.dataStart <= v <= PageOn(l.depth, v, n) <= l.dataEnd)
  }

  lemma RangeInside(l: Layout, st: State, v: nat, n: nat, flags: nat, k: nat)
    requires RangeReady(st, l, v, n, flags) && k < n
    ensures Inside(l, PageOn(l.depth, v, k))
  {
    PageOnInside(l.depth, v, n, k);
  }

  lemma RangeCanBack(st: State, l: Layout, v: nat, n: nat, flags: nat)
    requires RangeReady(st, l, v, n, flags)
    ensures BackReady(st, l.depth, l.root, PagesOf(l.depth, v, n), UserStatus(v),
                      Low(l.depth, ArchFlags(flags, UserStatus(v)), UserStatus(v)))
  {
    ArchFlagsFit(flags, UserStatus(v));
    LeafIsFrameAndLow(l.depth, 0, ArchFlags(flags, UserStatus(v)), UserStatus(v));
    var pages := PagesOf(l.depth, v, n);
    forall k | 0 <= k < n ensures LeadsToLeaf(st.labels, l.depth, l.root, pages[k]) {
      RangeInside(l, st, v, n, flags, k);
      InsideLeads(st, l, PageOn(l.depth, v, k));
    }
  }

  lemma RangePagesDiffer(st: State, l: Layout, v: nat, n: nat, flags: nat)
    requires CanBackRange(st, l, v, n, flags)
    ensures forall i, j :: 0 <= i < j < n ==> PagesOf(l.depth, v, n)[i] != PagesOf(l.depth, v, n)[j]
  {
    forall i, j | 0 <= i < j < n ensures PagesOf(l.depth, v, n)[i] != PagesOf(l.depth, v, n)[j] {
      RangeInside(l, st, v, n, flags, i);
      RangeInside(l, st, v, n, flags, j);
      InsideLeads(st, l, PageOn(l.depth, v, i));
      InsideLeads(st, l, PageOn(l.depth, v, j));
      PageOnNumber(l.depth, v, i);
      PageOnNumber(l.depth, v, j);
      SamePathIffSamePage(l.depth, PageOn(l.depth, v, i), PageOn(l.depth, v, j));
    }
  }

  /** Addresses in other pages keep their frame. */
  lemma RangeKeepsOthers(st: State, l: Layout, v: nat, n: nat, flags: nat, a: nat)
    requires CanBackRange(st, l, v, n, flags) && Inside(l, a)
    requires a / PageSize(l.depth) < v / PageSize(l.depth) || a / PageSize(l.depth) >= v / PageSize(l.depth) + n
    ensures FrameAt(BackRange(st, l, v, n, flags), l, a) == FrameAt(st, l, a)
  {
    RangeCanBack(st, l, v, n, flags);
    InsideLeads(st, l, a);
    var pages := PagesOf(l.depth, v, n);
    forall k | 0 <= k < n ensures pages[k] != PagePath(l.depth, a) {
      RangeInside(l, st, v, n, flags, k);
      InsideLeads(st, l, PageOn(l.depth, v, k));
      PageOnNumber(l.depth, v, k);
      SamePathIffSamePage(l.depth, PageOn(l.depth, v, k), a);
    }
    var user := UserStatus(v);
    BackKeepsOthers(st, l.depth, l.root, pages, user, Low(l.depth, ArchFlags(flags, user), user), PagePath(l.depth, a));
  }

  ghost function RangePages(depth: nat, v: nat, n: nat): iset<nat> {
    iset k: nat | k < n :: PageOn(depth, v, k)
  }

  /** Backing unmapped pages adds them to the addresses with a frame of their own. */
  lemma RangeExclusive(st: State, l: Layout, v: nat, n: nat, flags: nat, own: iset<nat>)
    requires CanBackRange(st, l, v, n, flags) && Exclusive(st, l, own)
    requires forall k :: 0 <= k < n ==> FrameAt(st, l, PageOn(l.depth, v, k)).None?
    ensures var st1 := BackRange(st, l, v, n, flags);
      && Valid(st1, l.depth) && WholeFrames(st1, PageSize(l.depth)) && Extends(st, st1, PageSize(l.depth))
      && Exclusive(st1, l, own + RangePages(l.depth, v, n))
  {
    var pages, user := PagesOf(l.depth, v, n), UserStatus(v);
    var low := Low(l.depth, ArchFlags(flags, user), user);
    RangeCanBack(st, l, v, n, flags);
    RangePagesDiffer(st, l, v, n, flags);
    BackKeepsValid(st, l.depth, l.root, pages, user, low);
    BackFramesAreTaken(st, l.depth, l.root, pages, user, low);
    var st1, fs := BackRange(st, l, v, n, flags), BackFrames(st, l.root, pages, user, low);
    forall k: nat | k < n
      ensures FrameAt(st1, l, PageOn(l.depth, v, k)) == Some(fs[k]) && Inside(l, PageOn(l.depth, v, k))
    {
      BackMaps(st, l.depth, l.root, pages, user, low, k);
      RangeInside(l, st, v, n, flags, k);
    }
    forall a | a in own
      ensures FrameAt(st1, l, a) == FrameAt(st, l, a)
    {
      InsideLeads(st, l, a);
      BackKeepsOthers(st, l.depth, l.root, pages, user, low, PagePath(l.depth, a));
    }
    FramesDiffer(st, st1, l, own, v, n, fs);
  }

  lemma FramesDiffer(st: State, st1: State, l: Layout, own: iset<nat>, v: nat, n: nat, fs: seq<Frame>)
    requires l.depth in {3, 4} && Exclusive(st, l, own) && Extends(st, st1, PageSize(l.depth)) && |fs| == n
    requires forall a :: a in own ==> FrameAt(st1, l, a) == FrameAt(st, l, a)
    requires forall k: nat :: k < n ==>
      FrameAt(st1, l, PageOn(l.depth, v, k)) == Some(fs[k]) && Inside(l, PageOn(l.depth, v, k))
    requires forall k :: 0 <= k < n ==> !Taken(st, PageSize(l.depth), fs[k]) && Taken(st1, PageSize(l.depth), fs[k])
    requires forall j, k :: 0 <= j < k < n ==> fs[j] != fs[k]
    ensures Exclusive(st1, l, own + RangePages(l.depth, v, n))
  {
    var own1 := own + RangePages(l.depth, v, n);
    forall a, b | a in own1 && b in own1 && a != b ensures FrameAt(st1, l, a) != FrameAt(st1, l, b) {
      if a !in own {
        var i: nat :| i < n && a == PageOn(l.depth, v, i);
        if b !in own {
          var j: nat :| j < n && b == PageOn(l.depth, v, j);
          assert i != j;
        }
      } else if b !in own {
        var j: nat :| j < n && b == PageOn(l.depth, v, j);
      }
    }
  }

  // ----- how many frames it takes -----

  lemma {:induction false} EnoughToBackAlong(st: State, depth: nat, root: Frame, pages: seq<Path>, user: nat, low: nat,
                                             before: Path, costs: seq<nat>)
    requires BackReady(st, depth, root, pages, user, low) && Chain(before, pages, costs)
    requires |st.supply| >= |pages| + Sum(costs) && before != [] && LastTable(st.mem, root, before).Some?
    ensures EnoughToBack(st, root, pages, user, low)
    decreases |pages|
  {
    if pages != [] {
      MissingNear(st.mem, root, before, pages[0], costs[0]);
      BackFirst(st, depth, root, pages, user, low);
      EnoughToBackAlong(BackOne(st, root, pages[0], user, low), depth, root, pages[1..], user, low, pages[0],
        costs[1..]);
    }
  }

  lemma EnoughToBackFromFirst(st: State, depth: nat, root: Frame, pages: seq<Path>, user: nat, low: nat,
                              costs: seq<nat>)
    requires BackReady(st, depth, root, pages, user, low) && pages != [] && Chain(pages[0], pages[1..], costs)
    requires |st.supply| >= |pages| + depth - 1 + Sum(costs)
    ensures EnoughToBack(st, root, pages, user, low)
  {
    assert LeadsToLeaf(st.labels, depth, root, pages[0]);
    BackFirst(st, depth, root, pages, user, low);
    EnoughToBackAlong(BackOne(st, root, pages[0], user, low), depth, root, pages[1..], user, low, pages[0], costs);
  }

  /** A range of n pages needs n frames and one for each table begun on the way. */
  lemma FewFramesBackRange(st: State, l: Layout, v: nat, n: nat, flags: nat)
    requires RangeReady(st, l, v, n, flags)
    requires |st.supply| >= n + TableBound(l.depth, v / PageSize(l.depth), n)
    ensures CanBackRange(st, l, v, n, flags)
  {
    if n > 0 {
      var pages, q := PagesOf(l.depth, v, n), v / PageSize(l.depth);
      forall k | 0 <= k < n ensures pages[k] == NumberPath(l.depth, q + k) {
        NumberPathIs(l.depth, PageOn(l.depth, v, k));
        PageOnNumber(l.depth, v, k);
      }
      var costs := ConsecutiveCosts(l.depth, pages, q);
      RangeCanBack(st, l, v, n, flags);
      var user := UserStatus(v);
      EnoughToBackFromFirst(st, l.depth, l.root, pages, user, Low(l.depth, ArchFlags(flags, user), user), costs);
    }
  }
}
