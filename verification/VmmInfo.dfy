/** The imperative form of the virtual memory manager. */
module VirtualMemory {
  import opened Bits
  import opened PageTable
  import opened Addresses
  import opened Mapping
  import opened Backing
  import opened RangeBacking
  import opened PageMapper
  import opened Vmm

  /** The root of the kernel is a root, and no table lies in frame 0, which stands for NULL. */
  ghost predicate Rooted(st: State, kernelRoot: Frame) { IsRoot(st, kernelRoot) && Unused(st, 0) }

  class VmmInfo {
    const tables: PageTables
    const layout: Layout
    var containers: seq<Container>
    var curIndex: nat
    var next: nat

    ghost function S(): Space
      reads this, tables
    {
      Space(tables.St(), containers, curIndex, next)
    }

    ghost predicate Fits() { tables.depth == layout.depth && layout.depth in {3, 4} && layout.root != 0 }

    /** `vmm_init`; without a frame for the first container it gives up and no container is set. */
    constructor (tables: PageTables, layout: Layout)
      requires tables.depth == layout.depth && layout.depth in {3, 4} && layout.root != 0
      requires Rooted(tables.St(), tables.kernelRoot)
      requires tables.supply != [] ==> CanBackRange(tables.St(), layout, layout.dataStart, 1, 0)
      modifies tables`mem, tables`supply, tables`labels
      ensures Fits() && this.tables == tables && this.layout == layout
      ensures old(tables.supply) != [] ==> S() == old(InitialSpace(tables.St(), layout))
      ensures old(tables.supply) == [] ==> S() == Space(old(tables.St()), [], 0, layout.lo)
    {
      this.tables, this.layout := tables, layout;
      containers, curIndex, next := [], 0, layout.lo;
      new;
      if tables.supply != [] {
        MapContainer(layout.dataStart, BackRange(tables.St(), layout, layout.dataStart, 1, 0));
        containers := [Container(layout.dataStart, [], ItemsPerPage(layout.depth))];
      }
    }

    /** Take a frame and map it at address v. */
    method MapNext(v: Address, arch: nat)
      requires Fits() && Valid(tables.St(), layout.depth) && Rooted(tables.St(), tables.kernelRoot)
      requires IsRoot(tables.St(), layout.root)
      requires arch < 0x1000 && Present(arch) && Pml4Entry(v) != RECURSIVE_SLOT
      requires |tables.supply| >= 1 + Missing(tables.mem, layout.root, PagePath(layout.depth, v))
      modifies tables`mem, tables`supply, tables`labels
      ensures tables.St() == old(BackOne(tables.St(), layout.root, PagePath(layout.depth, v), UserStatus(v),
                                         Low(layout.depth, arch, UserStatus(v))))
    {
      var frame := tables.supply[0];
      LeafIsFrameAndLow(layout.depth, frame, arch, UserStatus(v));
      TakeKeepsValid(tables.St(), layout.depth);
      tables.supply := tables.supply[1..];
      var r := tables.MapHh(frame, v, arch, layout.root);
    }

    /** Take a frame for a container and map it. */
    method MapContainer(address: Address, ghost target: State)
      requires Fits() && Rooted(tables.St(), tables.kernelRoot)
      requires address >= HIGHER_HALF_START && CanBackRange(tables.St(), layout, address, 1, 0)
      requires target == BackRange(tables.St(), layout, address, 1, 0)
      modifies tables`mem, tables`supply, tables`labels
      ensures tables.St() == target
    {
      BackRangeOne(tables.St(), layout, address);
      assert Inside(layout, address);
      InsideLeads(tables.St(), layout, address);
      MapNext(address, PRESENT_AND_WRITE);
    }

    /** One turn of the loop that backs the pages of a range. */
    method BackPage(a: Address, arch: nat, ghost pages: seq<Path>, ghost user: nat, ghost low: nat)
      requires Fits() && Rooted(tables.St(), tables.kernelRoot)
      requires CanBack(tables.St(), layout.depth, layout.root, pages, user, low) && pages != []
      requires arch < 0x1000 && Present(arch) && Pml4Entry(a) != RECURSIVE_SLOT
      requires pages[0] == PagePath(layout.depth, a) && user == UserStatus(a) && low == Low(layout.depth, arch, user)
      modifies tables`mem, tables`supply, tables`labels
      ensures Rooted(tables.St(), tables.kernelRoot)
      ensures CanBack(tables.St(), layout.depth, layout.root, pages[1..], user, low)
      ensures Back(tables.St(), layout.root, pages[1..], user, low) ==
        old(Back(tables.St(), layout.root, pages, user, low))
    {
      BackFirst(tables.St(), layout.depth, layout.root, pages, user, low);
      MapNext(a, arch);
    }

    /** The loop that backs the pages of a range. */
    method BackPages(v: nat, n: nat, arch: nat, ghost pages: seq<Path>, ghost user: nat, ghost low: nat)
      requires Fits() && Rooted(tables.St(), tables.kernelRoot)
      requires CanBack(tables.St(), layout.depth, layout.root, pages, user, low) && |pages| == n
      requires arch < 0x1000 && Present(arch) && low == Low(layout.depth, arch, user)
      requires forall k :: 0 <= k < n ==> PageFits(PageOn(layout.depth, v, k), layout.depth, pages[k], user)
      modifies tables`mem, tables`supply, tables`labels
      ensures tables.St() == old(Back(tables.St(), layout.root, pages, user, low))
    {
      ghost var target := Back(tables.St(), layout.root, pages, user, low);
      var i := 0;
      while i < n
        invariant 0 <= i <= n && Rooted(tables.St(), tables.kernelRoot)
        invariant CanBack(tables.St(), layout.depth, layout.root, pages[i..], user, low)
        invariant Back(tables.St(), layout.root, pages[i..], user, low) == target
      {
        assert PageFits(PageOn(layout.depth, v, i), layout.depth, pages[i], user);
        assert pages[i..][1..] == pages[i + 1..];
        BackPage(PageOn(layout.depth, v, i), arch, pages[i..], user, low);
        i := i + 1;
      }
    }

    /** Back the range unless only its addresses are wanted. */
    method BackIfNeeded(v: nat, n: nat, flags: nat, effective: nat, ghost target: State)
      requires Fits() && Rooted(tables.St(), tables.kernelRoot)
      requires !AddressOnly(flags) ==> CanBackRange(tables.St(), layout, v, n, flags)
      requires AddressOnly(effective) == AddressOnly(flags)
      requires target == PagesAfter(tables.St(), layout, v, n, flags)
      modifies tables`mem, tables`supply, tables`labels
      ensures tables.St() == target
    {
      if !AddressOnly(effective) {
        RangeCanBack(tables.St(), layout, v, n, flags);
        ArchFlagsFit(flags, UserStatus(v));
        RangePagesFit(tables.St(), layout, v, n, flags);
        ghost var pages, user := PagesOf(layout.depth, v, n), UserStatus(v);
        var arch := ArchFlags(flags, UserStatus(v));
        BackPages(v, n, arch, pages, user, Low(layout.depth, arch, user));
      }
    }

    /** Link a new container after a full one. */
    method AddContainer()
      requires Fits() && Rooted(tables.St(), tables.kernelRoot) && containers != [] && CanRollOver(S(), layout)
      modifies this, tables`mem, tables`supply, tables`labels
      ensures S() == old(RollOver(S(), layout))
    {
      var address := NextContainer(layout.depth, containers[|containers| - 1].address);
      MapContainer(address, BackRange(tables.St(), layout, address, 1, 0));
      curIndex := 0;
      containers := containers + [Container(address, [], ItemsPerPage(layout.depth))];
    }

    /** Choose the address and fill the current slot. */
    method RecordRange(base: nat, newSize: nat, flags: nat) returns (address: nat)
      requires containers != [] && |containers[|containers| - 1].items| == curIndex < ItemsPerPage(layout.depth)
      modifies this`containers, this`next
      ensures address == old(if base != 0 && base > next then base else next) && next == address + newSize
      ensures var m := |old(containers)| - 1;
        containers == old(containers)[m := Record(old(containers[m]), Item(address, newSize, flags))]
    {
      address := next;
      if base != 0 && base > address {
        next := base;
        address := base;
      }
      var last := |containers| - 1;
      var current := containers[last];
      var items := current.items[..curIndex] + [Item(address, newSize, flags)];
      containers := containers[last := Container(current.address, items, current.available - 1)];
      assert current.items[..curIndex] == current.items;
      next := next + newSize;
    }

    /** The rest of `vmm_alloc_at`, with a free slot in the current container. */
    method PlaceRange(base: nat, size: nat, flags: nat, ghost start: Space, ghost target: State) returns (r: nat)
      requires Fits() && Rooted(tables.St(), tables.kernelRoot)
      requires containers != [] && CanPlace(S(), layout, base, size, flags)
      requires start == S()
      requires target == PagesAfter(tables.St(), layout, Chosen(S(), base), PageCount(layout.depth, size), flags)
      modifies this, tables`mem, tables`supply, tables`labels
      ensures S() == Recording(start, Item(Chosen(start, base), AlignToPage(layout.depth, size), flags), target)
      ensures r == Chosen(start, base) + Top(flags)
    {
      var address := RecordRange(base, AlignToPage(layout.depth, size), flags);
      var effective := flags;
      if !IsHigherHalf(address) {
        effective := Or(flags, USER_LEVEL);
      }
      UserKeepsFlags(flags);
      BackIfNeeded(address, PageCount(layout.depth, size), flags, effective, target);
      curIndex := curIndex + 1;
      r := address + Top(effective);
    }

    /** Link a new container if the current one is full. */
    method EnsureSlot(ghost ready: Space)
      requires Fits() && Rooted(tables.St(), tables.kernelRoot) && containers != [] && ready == Ready(S(), layout)
      requires Full(S(), layout) ==> CanRollOver(S(), layout)
      modifies this, tables`mem, tables`supply, tables`labels
      ensures S() == ready
    {
      if curIndex >= ItemsPerPage(layout.depth) {
        AddContainer();
      }
    }

    /** The rest of `vmm_alloc_at` behind the two tests that refuse a call. */
    method PlaceReady(base: nat, size: nat, flags: nat, ghost ready: Space, ghost target: State, ghost goal: Space)
      returns (r: nat)
      requires Fits() && Rooted(tables.St(), tables.kernelRoot) && containers != [] && ready == Ready(S(), layout)
      requires Full(S(), layout) ==> CanRollOver(S(), layout)
      requires Rooted(ready.pages, tables.kernelRoot) && CanPlace(ready, layout, base, size, flags)
      requires target == PagesAfter(ready.pages, layout, Chosen(ready, base), PageCount(layout.depth, size), flags)
      requires goal == Recording(ready, Item(Chosen(ready, base), AlignToPage(layout.depth, size), flags), target)
      modifies this, tables`mem, tables`supply, tables`labels
      ensures S() == goal && r == Chosen(ready, base) + Top(flags)
    {
      EnsureSlot(ready);
      r := PlaceRange(base, size, flags, ready, target);
    }

    method PlaceCall(base: nat, size: nat, flags: nat, ghost goal: Space, ghost answer: Option<nat>) returns (r: nat)
      requires Fits() && containers != [] && CanAlloc(S(), layout, tables.kernelRoot, base, size, flags)
      requires !Refused(S(), layout, size)
      requires goal == Vmm.AllocAt(S(), layout, base, size, flags)
      requires answer == Returned(S(), layout, base, size, flags)
      modifies this, tables`mem, tables`supply, tables`labels
      ensures S() == goal && Some(r) == answer
    {
      AllocIsPlace(S(), layout, base, size, flags);
      ghost var ready := Ready(S(), layout);
      ghost var target := PagesAfter(ready.pages, layout, Chosen(ready, base), PageCount(layout.depth, size), flags);
      r := PlaceReady(base, size, flags, ready, target, goal);
    }

    /** `vmm_alloc_at`; None stands for NULL. */
    method AllocAt(base: nat, size: nat, flags: nat) returns (r: Option<nat>)
      requires Fits() && containers != [] && CanAlloc(S(), layout, tables.kernelRoot, base, size, flags)
      modifies this, tables`mem, tables`supply, tables`labels
      ensures S() == old(Vmm.AllocAt(S(), layout, base, size, flags))
      ensures r == old(Returned(S(), layout, base, size, flags))
    {
      if size == 0 {
        return None;
      }
      if curIndex >= ItemsPerPage(layout.depth) && tables.supply == [] {
        return None;
      }
      ghost var goal, answer := Vmm.AllocAt(S(), layout, base, size, flags), Returned(S(), layout, base, size, flags);
      var address := PlaceCall(base, size, flags, goal, answer);
      r := Some(address);
    }
  }

  /** Address a is the address of this page. */
  ghost predicate PageFits(a: nat, depth: nat, page: Path, user: nat) {
    a < TWO_64 && Pml4Entry(a) != RECURSIVE_SLOT && PagePath(depth, a) == page && UserStatus(a) == user
  }

  lemma RangePagesFit(st: State, l: Layout, v: nat, n: nat, flags: nat)
    requires CanBackRange(st, l, v, n, flags)
    ensures forall k :: 0 <= k < n ==>
      PageFits(PageOn(l.depth, v, k), l.depth, PagesOf(l.depth, v, n)[k], UserStatus(v))
  {
    forall k | 0 <= k < n ensures PageFits(PageOn(l.depth, v, k), l.depth, PagesOf(l.depth, v, n)[k], UserStatus(v)) {
      PageOnInside(l.depth, v, n, k);
      InSpan(v, PageOn(l.depth, v, n), PageOn(l.depth, v, k));
      InSpan(v, PageOn(l.depth, v, n), v);
    }
  }

  ghost predicate CanRollOver(s: Space, l: Layout)
    requires s.containers != []
  {
    var address := NextContainer(l.depth, s.containers[|s.containers| - 1].address);
    address >= HIGHER_HALF_START && CanBackRange(s.pages, l, address, 1, 0)
  }

  ghost predicate CanPlace(s: Space, l: Layout, base: nat, size: nat, flags: nat)
    requires s.containers != []
  {
    && |s.containers[|s.containers| - 1].items| == s.curIndex < ItemsPerPage(l.depth)
    && (!AddressOnly(flags) ==> CanBackRange(s.pages, l, Chosen(s, base), PageCount(l.depth, size), flags))
  }

  /** What the steps of a call need. */
  ghost predicate CanAlloc(s: Space, l: Layout, kernelRoot: Frame, base: nat, size: nat, flags: nat)
    requires s.containers != []
  {
    Refused(s, l, size) ||
    (&& Rooted(s.pages, kernelRoot) && (Full(s, l) ==> CanRollOver(s, l))
     && Rooted(Ready(s, l).pages, kernelRoot) && CanPlace(Ready(s, l), l, base, size, flags))
  }

  lemma InvCanPlace(s: Space, l: Layout, base: nat, size: nat, flags: nat)
    requires Inv(s, l) && !Full(s, l) && size > 0 && flags < 0x1000
    requires Chosen(s, base) + AlignToPage(l.depth, size) <= l.hi
    requires !AddressOnly(flags) ==> EnoughForRange(s.pages, l, Chosen(s, base), PageCount(l.depth, size), flags)
    ensures CanPlace(s, l, base, size, flags)
  {
    assert ContainerOk(s.containers, s.curIndex, l, |s.containers| - 1);
    PageCountExact(l.depth, Chosen(s, base), size);
  }

  lemma InvCanRollOver(s: Space, l: Layout)
    requires Inv(s, l) && RoomForContainer(s, l)
    ensures CanRollOver(s, l)
  {
    assert ContainerOk(s.containers, s.curIndex, l, |s.containers| - 1);
    ContainerStep(l, |s.containers|);
    RollOverLinks(s, l);
  }

  /** The invariant gives each enabled call what it needs: a slot within bounds and frames for the
      pages; and it is kept for the next call. */
  lemma InvCanAlloc(s: Space, l: Layout, kernelRoot: Frame, base: nat, size: nat, flags: nat)
    requires Inv(s, l) && Rooted(s.pages, kernelRoot) && Enabled(s, l, base, size, flags)
    ensures CanAlloc(s, l, kernelRoot, base, size, flags)
    ensures Inv(Vmm.AllocAt(s, l, base, size, flags), l)
    ensures Rooted(Vmm.AllocAt(s, l, base, size, flags).pages, kernelRoot)
  {
    AllocKeepsInv(s, l, base, size, flags);
    if !Refused(s, l, size) {
      if Full(s, l) { InvCanRollOver(s, l); }
      ReadyKeepsInv(s, l, base, size, flags);
      InvCanPlace(Ready(s, l), l, base, size, flags);
    }
  }

  /** Backing one supervisor page is mapping one frame with the flags PRESENT and WRITE. */
  lemma BackRangeOne(st: State, l: Layout, v: nat)
    requires HIGHER_HALF_START <= v < TWO_64 && st.supply != []
    ensures UserStatus(v) == 0
    ensures BackRange(st, l, v, 1, 0) ==
      BackOne(st, l.root, PagePath(l.depth, v), 0, Low(l.depth, PRESENT_AND_WRITE, 0))
  {
    assert ArchFlags(0, 0) == PRESENT_AND_WRITE;
    var pages := PagesOf(l.depth, v, 1);
    assert PageOn(l.depth, v, 0) == v;
    assert pages == [PagePath(l.depth, v)] && pages[1..] == [];
    var low := Low(l.depth, PRESENT_AND_WRITE, 0);
    var st1 := BackOne(st, l.root, pages[0], 0, low);
    assert Back(st1, l.root, pages[1..], 0, low) == st1;
    HalfOfAddress(v);
  }
}
