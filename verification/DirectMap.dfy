/** The direct map: a higher-half window in which all physical memory appears at a fixed offset. */
module DirectMap {
  import opened Bits
  import opened PageTable
  import opened Addresses
  import opened Mapping
  import opened PageMapper
  import opened RecursiveMapper
  import opened TableCount
  import Permissions

  /** `HIGHER_HALF_ADDRESS_OFFSET + VM_KERNEL_MEMORY_PADDING`. */
  function DirectMapBase(depth: nat): nat { 0xFFFF_8000_0000_0000 + 0x2_8000_0000 + PageSize(depth) }

  /** `hhdm_get_variable`. */
  function GetVariable(depth: nat, memorySize: nat, phys: nat): Option<nat> {
    if phys < memorySize then Some((phys + DirectMapBase(depth)) % TWO_64) else None
  }

  /** `hhdm_get_phys_address`, a wrapping 64-bit subtraction. */
  function GetPhysAddress(depth: nat, v: Address): nat {
    (v + TWO_64 - DirectMapBase(depth)) % TWO_64
  }

  const DIRECT_MAP_FLAGS: nat := 3
  const MAX_PHYSICAL: nat := 0x100_0000_0000

  /** The physical address of page k. */
  function PageAt(depth: nat, k: nat): nat { if depth == 4 then k * 0x1000 else k * 0x20_0000 }

  function DirectPage(depth: nat, p: nat): Path { PagePath(depth, DirectMapBase(depth) + p) }

  function DirectRequest(depth: nat, k: nat): Request {
    var p := PageAt(depth, k);
    Request(DirectPage(depth, p), 0, LeafEntry(depth, p, DIRECT_MAP_FLAGS, 0))
  }

  function DirectRequests(depth: nat, n: nat): seq<Request> {
    seq(n, k requires 0 <= k => DirectRequest(depth, k))
  }

  /** Memory below `upper` can be mapped: it is addressable, and each page finds a frame for every
      table that is missing when its turn comes. */
  ghost predicate CanMapDirect(st: State, depth: nat, root: Frame, upper: nat) {
    && depth in {3, 4} && Valid(st, depth) && IsRoot(st, root)
    && upper <= MAX_PHYSICAL && Enough(st, root, DirectRequests(depth, PageCount(depth, upper)))
  }

  /** The number of the first page of the window. */
  function FirstNumber(depth: nat): nat { DirectMapBase(depth) / PageSize(depth) }

  /** One frame for each table begun, about one for 512 pages, is enough to map all of memory. */
  lemma FewFramesSuffice(st: State, depth: nat, root: Frame, upper: nat)
    requires depth in {3, 4} && Valid(st, depth) && IsRoot(st, root) && upper <= MAX_PHYSICAL
    requires |st.supply| >= TableBound(depth, FirstNumber(depth), PageCount(depth, upper))
    ensures CanMapDirect(st, depth, root, upper)
    ensures var n := PageCount(depth, upper);
      TableBound(depth, FirstNumber(depth), n) <= n / 512 + n / 512 / 512 + n / 512 / 512 / 512 + 6
  {
    var n := PageCount(depth, upper);
    DirectRequestsOk(st, depth, root, upper);
    DirectConsecutive(depth, n);
    BoundIsEnough(st, depth, root, DirectRequests(depth, n), FirstNumber(depth));
    TableBoundRounded(depth, FirstNumber(depth), n);
  }

  lemma DirectConsecutive(depth: nat, n: nat)
    requires depth in {3, 4}
    ensures Consecutive(depth, PagesIn(DirectRequests(depth, n)), FirstNumber(depth))
  {
    var pages := PagesIn(DirectRequests(depth, n));
    forall k | 0 <= k < n ensures pages[k] == NumberPath(depth, FirstNumber(depth) + k) {
      DirectNumber(depth, k);
    }
  }

  lemma DirectNumber(depth: nat, k: nat)
    requires depth in {3, 4}
    ensures DirectRequest(depth, k).page == NumberPath(depth, FirstNumber(depth) + k)
  {
    var v, size := DirectMapBase(depth) + PageAt(depth, k), PageSize(depth);
    NumberPathIs(depth, v);
    BaseAligned(depth, 0);
    DivUnique(v, size, FirstNumber(depth) + k, 0);
  }

  lemma DirectAddressFacts(depth: nat, p: nat)
    requires depth in {3, 4} && p < MAX_PHYSICAL
    ensures var v := DirectMapBase(depth) + p;
      && v < TWO_64 && Canonical(v) && IsHigherHalf(v) && UserStatus(v) == 0
      && LOWER_HALF <= Pml4Entry(v) < RECURSIVE_SLOT
  {
    var v := DirectMapBase(depth) + p;
    HalfOfAddress(v);
    assert v < 0xFFFF_FF00_0000_0000;
    assert v / 0x80_0000_0000 < 0x1FF_FFFE && v / 0x80_0000_0000 >= 0x1FF_FF00;
  }

  lemma PageAtFacts(depth: nat, upper: nat, k: nat)
    requires depth in {3, 4} && upper <= MAX_PHYSICAL
    ensures k < PageCount(depth, upper) <==> PageAt(depth, k) < upper
    ensures k < PageCount(depth, upper) ==> Aligned(PageAt(depth, k))
  {
    var p := PageAt(depth, k);
    if depth == 3 {
      DivUnique(p, 0x1000, 512 * k, 0);
    } else {
      DivUnique(p, 0x1000, k, 0);
    }
  }

  lemma RequestFits(labels: Labels, depth: nat, root: Frame, upper: nat, k: nat)
    requires depth in {3, 4} && upper <= MAX_PHYSICAL && k < PageCount(depth, upper)
    requires root in labels && labels[root].prefix == []
    ensures RequestOk(labels, depth, root, DirectRequest(depth, k))
    ensures var e := DirectRequest(depth, k).leaf; Present(e) && Base(e) == PageAt(depth, k)
  {
    var p := PageAt(depth, k);
    PageAtFacts(depth, upper, k);
    DirectAddressFacts(depth, p);
    LeafEntryFields(depth, p, DIRECT_MAP_FLAGS, 0);
  }

  lemma DirectRequestsOk(st: State, depth: nat, root: Frame, upper: nat)
    requires depth in {3, 4} && Valid(st, depth) && IsRoot(st, root) && upper <= MAX_PHYSICAL
    ensures AllOk(st, depth, root, DirectRequests(depth, PageCount(depth, upper)))
  {
    var reqs := DirectRequests(depth, PageCount(depth, upper));
    forall k | 0 <= k < |reqs| ensures reqs[k].page != [] && RequestOk(st.labels, depth, root, reqs[k]) {
      RequestFits(st.labels, depth, root, upper, k);
    }
  }

  lemma DirectRequestsFit(st: State, depth: nat, root: Frame, upper: nat)
    requires CanMapDirect(st, depth, root, upper)
    ensures CanMapAll(st, depth, root, DirectRequests(depth, PageCount(depth, upper)))
  {
    DirectRequestsOk(st, depth, root, upper);
  }

  lemma DirectPagesDiffer(depth: nat, j: nat, k: nat)
    requires depth in {3, 4} && j != k && PageAt(depth, j) < MAX_PHYSICAL && PageAt(depth, k) < MAX_PHYSICAL
    ensures DirectRequest(depth, j).page != DirectRequest(depth, k).page
  {
    DirectAddressFacts(depth, PageAt(depth, j));
    DirectAddressFacts(depth, PageAt(depth, k));
    BaseAligned(depth, j);
    BaseAligned(depth, k);
    PagePathInjective(depth, DirectMapBase(depth) + PageAt(depth, j), DirectMapBase(depth) + PageAt(depth, k));
  }

  lemma BaseAligned(depth: nat, k: nat)
    requires depth in {3, 4}
    ensures (DirectMapBase(depth) + PageAt(depth, k)) % PageSize(depth) == 0
  {
    if depth == 4 {
      DivUnique(DirectMapBase(4) + PageAt(4, k), 0x1000, 0xF_FFF8_0028_0001 + k, 0);
    } else {
      DivUnique(DirectMapBase(3) + PageAt(3, k), 0x20_0000, 0x7FF_FC00_1401 + k, 0);
    }
  }

  // ----- the mapping loop -----

  /** The state that the loop of `hhdm_map_physical_memory` reaches. */
  ghost function DirectlyMapped(st: State, depth: nat, root: Frame, upper: nat): State
    requires depth in {3, 4}
  {
    MapAll(st, root, DirectRequests(depth, PageCount(depth, upper)))
  }

  method MapPhysicalMemory(pt: PageTables, cr3: Frame, upper: nat)
    requires pt.Good() && Recursive(pt.mem, cr3) && CanMapDirect(pt.St(), pt.depth, cr3, upper)
    requires 0 !in pt.supply
    modifies pt`mem, pt`supply, pt`labels
    ensures pt.St() == DirectlyMapped(old(pt.St()), pt.depth, cr3, upper)
    ensures pt.Good()
  {
    var addressToMap := 0;
    var virtualAddress := DirectMapBase(pt.depth);
    ghost var reqs := DirectRequests(pt.depth, PageCount(pt.depth, upper));
    ghost var i := 0;
    ghost var start := pt.St();
    DirectRequestsFit(start, pt.depth, cr3, upper);
    PageAtFacts(pt.depth, upper, i);
    assert reqs[0..] == reqs;
    while addressToMap < upper
      invariant i <= |reqs| && addressToMap == PageAt(pt.depth, i)
      invariant virtualAddress == DirectMapBase(pt.depth) + addressToMap
      invariant i < |reqs| <==> addressToMap < upper
      invariant pt.Good() && Recursive(pt.mem, cr3) && 0 !in pt.supply
      invariant CanMapAll(pt.St(), pt.depth, cr3, reqs[i..])
      invariant MapAll(pt.St(), cr3, reqs[i..]) == MapAll(start, cr3, reqs)
      decreases |reqs| - i
    {
      MapDirectPage(pt, cr3, addressToMap, virtualAddress, upper, i, reqs);
      addressToMap := addressToMap + PageSize(pt.depth);
      virtualAddress := virtualAddress + PageSize(pt.depth);
      i := i + 1;
      PageAtFacts(pt.depth, upper, i);
    }
  }

  /** One iteration of the loop. */
  method MapDirectPage(pt: PageTables, cr3: Frame, addressToMap: nat, virtualAddress: nat, ghost upper: nat,
                       ghost i: nat, ghost reqs: seq<Request>)
    requires pt.Good() && Recursive(pt.mem, cr3) && 0 !in pt.supply && upper <= MAX_PHYSICAL
    requires reqs == DirectRequests(pt.depth, PageCount(pt.depth, upper)) && i < |reqs|
    requires addressToMap == PageAt(pt.depth, i) && virtualAddress == DirectMapBase(pt.depth) + addressToMap
    requires CanMapAll(pt.St(), pt.depth, cr3, reqs[i..])
    modifies pt`mem, pt`supply, pt`labels
    ensures pt.Good() && Recursive(pt.mem, cr3) && 0 !in pt.supply
    ensures CanMapAll(pt.St(), pt.depth, cr3, reqs[i + 1..])
    ensures MapAll(pt.St(), cr3, reqs[i + 1..]) == old(MapAll(pt.St(), cr3, reqs[i..]))
  {
    PageAtFacts(pt.depth, upper, i);
    DirectAddressFacts(pt.depth, addressToMap);
    assert reqs[i..][0] == DirectRequest(pt.depth, i) && reqs[i..][1..] == reqs[i + 1..];
    MapFirstDirect(pt, cr3, addressToMap, virtualAddress, reqs[i..]);
  }

  /** Mapping the page of the first request. */
  method MapFirstDirect(pt: PageTables, cr3: Frame, phys: nat, address: Address, ghost reqs: seq<Request>)
    requires pt.Good() && Recursive(pt.mem, cr3) && 0 !in pt.supply
    requires CanMapAll(pt.St(), pt.depth, cr3, reqs) && reqs != []
    requires Pml4Entry(address) != RECURSIVE_SLOT && UserStatus(address) == 0
    requires reqs[0] == Request(PagePath(pt.depth, address), 0, LeafEntry(pt.depth, phys, DIRECT_MAP_FLAGS, 0))
    modifies pt`mem, pt`supply, pt`labels
    ensures pt.Good() && Recursive(pt.mem, cr3) && 0 !in pt.supply
    ensures CanMapAll(pt.St(), pt.depth, cr3, reqs[1..])
    ensures MapAll(pt.St(), cr3, reqs[1..]) == old(MapAll(pt.St(), cr3, reqs))
  {
    DirectStep(pt.St(), pt.depth, cr3, reqs, pt.kernelRoot);
    var _ := MapRecursive(pt, cr3, phys, address, DIRECT_MAP_FLAGS);
  }

  /** The root of the kernel stays a root, the recursive slot stays, and frame 0 stays unused. */
  ghost predicate Settled(st: State, depth: nat, cr3: Frame, kernelRoot: Frame) {
    Valid(st, depth) && IsRoot(st, kernelRoot) && Recursive(st.mem, cr3) && 0 !in st.labels && 0 !in st.supply
  }

  lemma DirectStep(st: State, depth: nat, cr3: Frame, reqs: seq<Request>, kernelRoot: Frame)
    requires CanMapAll(st, depth, cr3, reqs) && reqs != [] && Settled(st, depth, cr3, kernelRoot)
    ensures |st.supply| >= Missing(st.mem, cr3, reqs[0].page)
    ensures var st1 := MapPath(st, cr3, reqs[0].page, reqs[0].user, reqs[0].leaf);
      CanMapAll(st1, depth, cr3, reqs[1..]) && Settled(st1, depth, cr3, kernelRoot)
  {
    var req := reqs[0];
    MapFirst(st, depth, cr3, reqs);
    MapKeepsValid(st, depth, cr3, req.page, req.user, req.leaf);
    MapLabelsFromSupply(st, depth, cr3, req.page, req.user, req.leaf);
    MapTakesFromSupply(st, depth, cr3, req.page, req.user, req.leaf);
  }

  /** Every page of physical memory below the bound translates from the window to itself. */
  lemma DirectMapCovers(st: State, depth: nat, root: Frame, upper: nat, k: nat)
    requires CanMapDirect(st, depth, root, upper) && PageAt(depth, k) < upper
    requires Walk(st.mem, root, DirectPage(depth, PageAt(depth, k))).None?
    ensures var e := LeafEntry(depth, PageAt(depth, k), DIRECT_MAP_FLAGS, 0);
      && Walk(DirectlyMapped(st, depth, root, upper).mem, root, DirectPage(depth, PageAt(depth, k))) == Some(e)
      && Base(e) == PageAt(depth, k)
  {
    var reqs := DirectRequests(depth, PageCount(depth, upper));
    DirectRequestsFit(st, depth, root, upper);
    PageAtFacts(depth, upper, k);
    RequestFits(st.labels, depth, root, upper, k);
    forall i, j | 0 <= i < j < |reqs| ensures reqs[i].page != reqs[j].page {
      PageAtFacts(depth, upper, i);
      PageAtFacts(depth, upper, j);
      DirectPagesDiffer(depth, i, j);
    }
    MapAllMaps(st, depth, root, reqs, k);
  }

  /** Its entry is present and writable, large with large pages, and has no other flag: in particular it is
      closed to user mode. */
  lemma DirectMapBits(st: State, depth: nat, root: Frame, upper: nat, k: nat, i: nat)
    requires CanMapDirect(st, depth, root, upper) && PageAt(depth, k) < upper && i < 12
    requires Walk(st.mem, root, DirectPage(depth, PageAt(depth, k))).None?
    ensures var e := Walk(DirectlyMapped(st, depth, root, upper).mem, root, DirectPage(depth, PageAt(depth, k)));
      e.Some? && (Bit(e.value, i) <==> i == 0 || i == 1 || (i == 7 && depth == 3))
  {
    DirectMapCovers(st, depth, root, upper, k);
    PageAtFacts(depth, upper, k);
    Permissions.LeafEntryBits(depth, PageAt(depth, k), DIRECT_MAP_FLAGS, 0, i);
    Permissions.AlignedBit(PageAt(depth, k), i);
    assert Or(PRESENT_BIT, WRITE_BIT) == DIRECT_MAP_FLAGS;
    OrBit(PRESENT_BIT, WRITE_BIT, i);
    Permissions.FlagBits(i);
  }

  /** Translations outside the window are unchanged, in every root. */
  lemma DirectMapKeepsOthers(st: State, depth: nat, root: Frame, upper: nat, r: Frame, page: Path)
    requires CanMapDirect(st, depth, root, upper) && IsRoot(st, r) && LeadsToLeaf(st.labels, depth, r, page)
    requires forall k :: 0 <= k && PageAt(depth, k) < upper ==> page != DirectPage(depth, PageAt(depth, k))
    ensures var st1 := DirectlyMapped(st, depth, root, upper);
      Valid(st1, depth) && IsRoot(st1, r) && Walk(st1.mem, r, page) == Walk(st.mem, r, page)
  {
    var reqs := DirectRequests(depth, PageCount(depth, upper));
    DirectRequestsFit(st, depth, root, upper);
    forall k | 0 <= k < |reqs| ensures reqs[k].page != page {
      PageAtFacts(depth, upper, k);
    }
    MapAllKeepsOthers(st, depth, root, reqs, r, page);
  }

  // ----- pointers into the direct map -----

  /** `hhdm_get_phys_address` undoes `hhdm_get_variable` on all of memory, and addresses outside it
      are refused. */
  lemma PhysOfVariable(depth: nat, memorySize: nat, phys: nat)
    requires depth in {3, 4} && memorySize <= MAX_PHYSICAL
    ensures GetVariable(depth, memorySize, phys).Some? <==> phys < memorySize
    ensures phys < memorySize ==>
      var v := GetVariable(depth, memorySize, phys).value;
      v < TWO_64 && GetPhysAddress(depth, v) == phys && v == DirectMapBase(depth) + phys
  {
    if phys < memorySize {
      DirectAddressFacts(depth, phys);
    }
  }

  /** After the loop the processor resolves the direct-map pointer of every byte of memory to the
      4 KiB frame that holds the byte. */
  lemma DirectMapReads(st: State, depth: nat, root: Frame, upper: nat, memorySize: nat, a: nat)
    requires CanMapDirect(st, depth, root, upper)
    requires a < upper && a < memorySize <= MAX_PHYSICAL
    requires Walk(st.mem, root, DirectPage(depth, a)).None?
    ensures Mmu(DirectlyMapped(st, depth, root, upper).mem, root, GetVariable(depth, memorySize, a).value)
            == Some(a / 0x1000 * 0x1000)
  {
    var k := a / PageSize(depth);
    var st1 := DirectlyMapped(st, depth, root, upper);
    PhysOfVariable(depth, memorySize, a);
    SamePage(depth, a, k);
    DirectMapCovers(st, depth, root, upper, k);
    DirectMapStaysValid(st, depth, root, upper);
    MmuOfDirectLeaf(st1, depth, root, a, k, LeafEntry(depth, PageAt(depth, k), DIRECT_MAP_FLAGS, 0));
  }

  lemma MmuOfDirectLeaf(st: State, depth: nat, root: Frame, a: nat, k: nat, e: Word)
    requires depth in {3, 4} && Valid(st, depth) && IsRoot(st, root) && a < MAX_PHYSICAL && k == a / PageSize(depth)
    requires Walk(st.mem, root, DirectPage(depth, a)) == Some(e) && Base(e) == PageAt(depth, k)
    ensures Mmu(st.mem, root, DirectMapBase(depth) + a) == Some(a / 0x1000 * 0x1000)
  {
    DirectAddressFacts(depth, a);
    MmuAgreesWithWalk(st.mem, st.labels, depth, root, DirectMapBase(depth) + a);
    DirectFrame(depth, a, k, e);
  }

  lemma DirectFrame(depth: nat, a: nat, k: nat, e: Word)
    requires depth in {3, 4} && k == a / PageSize(depth) && Base(e) == PageAt(depth, k)
    ensures (if depth == 3 then LargeBase(e, 0x20_0000) + PtEntry(DirectMapBase(depth) + a) * 0x1000 else Base(e)) ==
      a / 0x1000 * 0x1000
  {
    SamePage(depth, a, k);
    if depth == 3 { DivUnique(Base(e), 0x20_0000, k, 0); }
  }

  lemma DirectMapStaysValid(st: State, depth: nat, root: Frame, upper: nat)
    requires CanMapDirect(st, depth, root, upper)
    ensures Valid(DirectlyMapped(st, depth, root, upper), depth) && IsRoot(DirectlyMapped(st, depth, root, upper), root)
  {
    DirectRequestsFit(st, depth, root, upper);
    MapAllKeepsValid(st, depth, root, DirectRequests(depth, PageCount(depth, upper)));
  }

  /** An address and the start of its page have the same indices. */
  lemma SamePage(depth: nat, a: nat, k: nat)
    requires depth in {3, 4} && k == a / PageSize(depth)
    ensures PageAt(depth, k) <= a
    ensures DirectPage(depth, a) == DirectPage(depth, PageAt(depth, k))
    ensures PageAt(depth, k) + (if depth == 3 then PtEntry(DirectMapBase(depth) + a) * 0x1000 else 0) ==
      a / 0x1000 * 0x1000
  {
    if depth == 4 {
      SameSmallPage(0xF_FFF8_0028_0001 + k, a - k * 0x1000);
    } else {
      var x := a - k * 0x20_0000;
      SameLargePage(0x7FF_FC00_1401 + k, x);
      assert x == 0x1000 * (x / 0x1000) + x % 0x1000;
      DivUnique(a, 0x1000, 512 * k + x / 0x1000, x % 0x1000);
    }
  }

  lemma SameSmallPage(n: nat, x: nat)
    requires x < 0x1000
    ensures PagePath(4, 0x1000 * n + x) == PagePath(4, 0x1000 * n)
  {
    var v, w := 0x1000 * n + x, 0x1000 * n;
    DivUnique(v, 0x1000, n, x);
    DivUnique(w, 0x1000, n, 0);
    DivDiv(v, 0x1000, 0x200);
    DivDiv(w, 0x1000, 0x200);
    DivDiv(v, 0x1000, 0x4_0000);
    DivDiv(w, 0x1000, 0x4_0000);
    DivDiv(v, 0x1000, 0x800_0000);
    DivDiv(w, 0x1000, 0x800_0000);
  }

  lemma SameLargePage(n: nat, x: nat)
    requires x < 0x20_0000
    ensures PagePath(3, 0x20_0000 * n + x) == PagePath(3, 0x20_0000 * n)
    ensures PtEntry(0x20_0000 * n + x) == x / 0x1000
  {
    var v, w := 0x20_0000 * n + x, 0x20_0000 * n;
    DivUnique(v, 0x20_0000, n, x);
    DivUnique(w, 0x20_0000, n, 0);
    DivDiv(v, 0x20_0000, 0x200);
    DivDiv(w, 0x20_0000, 0x200);
    DivDiv(v, 0x20_0000, 0x4_0000);
    DivDiv(w, 0x20_0000, 0x4_0000);
    var y, z := x / 0x1000, x % 0x1000;
    assert x == 0x1000 * y + z;
    DivUnique(v, 0x1000, 512 * n + y, z);
    DivUnique(512 * n + y, 512, n, y);
  }
}
