/** Virtual range allocation: a chain of containers records the ranges of one `VmmInfo`. */
module Vmm {
  import opened Bits
  import opened PageTable
  import opened Addresses
  import opened Mapping
  import opened Backing
  import opened RangeBacking

  const STACK_SIZE: nat := 0x1_0000

  datatype Item = Item(base: nat, size: nat, flags: nat)

  datatype Container = Container(address: nat, items: seq<Item>, available: int)

  datatype Space = Space(pages: State, containers: seq<Container>, curIndex: nat, next: nat)

  /** `VMM items per page` and the size of a container, whose items take 24 bytes each. */
  function ItemsPerPage(depth: nat): nat { PageSize(depth) / 24 - 1 }

  function ContainerSize(depth: nat): nat { 24 * ItemsPerPage(depth) + 16 }

  function NextContainer(depth: nat, current: nat): nat {
    AlignToPage(depth, current + ContainerSize(depth) + PageSize(depth))
  }

  /** A container fits in one page, which at most one more item would fit as well, and the next one is placed
      two pages on. */
  lemma NextContainerIsTwoPagesOn(depth: nat, current: nat)
    requires current % PageSize(depth) == 0
    ensures ContainerSize(depth) <= PageSize(depth) < ContainerSize(depth) + 2 * 24
    ensures NextContainer(depth, current) == current + 2 * PageSize(depth)
  {
    var size, next := PageSize(depth), NextContainer(depth, current);
    assert ItemsPerPage(depth) == if depth == 4 then 169 else 87380;
    DivUnique(next, size, next / size, 0);
    assert current == size * (current / size);
    assert next == size * (next / size);
    MultipleBetween(size, current / size, next / size);
  }

  lemma MultipleBetween(size: nat, p: nat, q: nat)
    requires size > 0 && size * p + size < size * q < size * p + 3 * size
    ensures q == p + 2
  {
    if q <= p + 1 {
      MulMono(size, q, p + 1);
    } else if q >= p + 3 {
      MulMono(size, p + 3, q);
    }
  }

  // ----- `vmm_alloc_at` -----

  predicate AddressOnly(flags: nat) { flags / 0x80 % 2 == 1 }

  predicate IsStack(flags: nat) { flags / 0x100 % 2 == 1 }

  /** Marking a page as a user page does not touch these flags. */
  lemma UserKeepsFlags(flags: nat)
    ensures AddressOnly(Or(flags, USER_LEVEL)) == AddressOnly(flags)
    ensures IsStack(Or(flags, USER_LEVEL)) == IsStack(flags)
  {
    var high, low := flags / 8, flags % 8;
    assert Pow2(3) == 8;
    assert (8 * high) % 8 == 0 by { DivUnique(8 * high, 8, high, 0); }
    OrAbove(8 * high, low, USER_LEVEL, 3);
    DivUnique(Or(flags, USER_LEVEL), 8, high, Or(low, USER_LEVEL));
    DivDiv(flags, 8, 0x10);
    DivDiv(Or(flags, USER_LEVEL), 8, 0x10);
    DivDiv(flags, 8, 0x20);
    DivDiv(Or(flags, USER_LEVEL), 8, 0x20);
  }

  predicate Full(s: Space, l: Layout) { s.curIndex >= ItemsPerPage(l.depth) }

  /** Link a new container, whose page is backed like any other. */
  ghost function RollOver(s: Space, l: Layout): Space
    requires s.containers != []
  {
    var address := NextContainer(l.depth, s.containers[|s.containers| - 1].address);
    Linked(s, l, address, BackRange(s.pages, l, address, 1, 0))
  }

  function Linked(s: Space, l: Layout, address: nat, pages: State): Space {
    Space(pages, s.containers + [Container(address, [], ItemsPerPage(l.depth))], 0, s.next)
  }

  function Chosen(s: Space, base: nat): nat {
    if base != 0 && base > s.next then base else s.next
  }

  /** Record the range in the current container and back its pages. */
  ghost function Place(s: Space, l: Layout, base: nat, size: nat, flags: nat): Space
    requires s.containers != []
  {
    var item := Item(Chosen(s, base), AlignToPage(l.depth, size), flags);
    Recording(s, item, PagesAfter(s.pages, l, item.base, PageCount(l.depth, size), flags))
  }

  ghost function PagesAfter(st: State, l: Layout, v: nat, n: nat, flags: nat): State {
    if AddressOnly(flags) then st else BackRange(st, l, v, n, flags)
  }

  function Recording(s: Space, item: Item, pages: State): Space
    requires s.containers != []
  {
    var m := |s.containers| - 1;
    Space(pages, s.containers[m := Record(s.containers[m], item)], s.curIndex + 1, item.base + item.size)
  }

  function Record(c: Container, item: Item): Container {
    Container(c.address, c.items + [item], c.available - 1)
  }

  ghost predicate Refused(s: Space, l: Layout, size: nat) {
    size == 0 || (Full(s, l) && s.pages.supply == [])
  }

  ghost function AllocAt(s: Space, l: Layout, base: nat, size: nat, flags: nat): Space
    requires s.containers != []
  {
    if Refused(s, l, size) then s else Place(Ready(s, l), l, base, size, flags)
  }

  /** The state in which the current container has a free slot. */
  ghost function Ready(s: Space, l: Layout): (s1: Space)
    requires s.containers != []
    ensures s1.containers != [] && s1.next == s.next
  {
    if Full(s, l) then RollOver(s, l) else s
  }

  /** The returned address; for a stack its upper end. */
  ghost function Returned(s: Space, l: Layout, base: nat, size: nat, flags: nat): Option<nat> {
    if Refused(s, l, size) then None
    else Some(Chosen(s, base) + Top(flags))
  }

  function Top(flags: nat): nat { if IsStack(flags) then STACK_SIZE else 0 }

  /** A call that is not refused records the range in a container with a free slot. */
  lemma AllocIsPlace(s: Space, l: Layout, base: nat, size: nat, flags: nat)
    requires s.containers != [] && !Refused(s, l, size)
    ensures var s1 := Ready(s, l);
      var v := Chosen(s1, base);
      && AllocAt(s, l, base, size, flags) == Recording(s1, Item(v, AlignToPage(l.depth, size), flags),
                                                       PagesAfter(s1.pages, l, v, PageCount(l.depth, size), flags))
      && Returned(s, l, base, size, flags) == Some(v + Top(flags))
  {
  }

  /** What a call needs: room in the window and, for a new container, in the data area; and a frame for
      each page that it backs and for each table that is missing at that point. */
  ghost predicate Enabled(s: Space, l: Layout, base: nat, size: nat, flags: nat)
    requires s.containers != []
  {
    || Refused(s, l, size)
    || (&& flags < 0x1000
        && Chosen(s, base) + AlignToPage(l.depth, size) <= l.hi
        && (Full(s, l) ==> RoomForContainer(s, l))
        && (!AddressOnly(flags) ==>
              EnoughForRange(Ready(s, l).pages, l, Chosen(s, base), PageCount(l.depth, size), flags)))
  }

  ghost predicate RoomForContainer(s: Space, l: Layout) {
    var address := ContainerAddress(l, |s.containers|);
    address + PageSize(l.depth) <= l.dataEnd && EnoughForRange(s.pages, l, address, 1, 0)
  }

  // ----- the invariant -----

  function Recorded(cs: seq<Container>): seq<Item> {
    if cs == [] then [] else Recorded(cs[..|cs| - 1]) + cs[|cs| - 1].items
  }

  function ContainerAddress(l: Layout, i: int): nat {
    if i < 0 then l.dataStart else l.dataStart + 2 * PageSize(l.depth) * i
  }

  ghost predicate ContainerOk(cs: seq<Container>, cur: nat, l: Layout, i: nat)
    requires i < |cs|
  {
    && cs[i].address == ContainerAddress(l, i) && cs[i].address + PageSize(l.depth) <= l.dataEnd
    && |cs[i].items| == (if i == |cs| - 1 then cur else ItemsPerPage(l.depth))
    && cs[i].available == ItemsPerPage(l.depth) - |cs[i].items|
  }

  /** The containers stand two pages apart, all but the last are full, and the index of the last
      stays within its array. */
  ghost predicate ChainOk(cs: seq<Container>, cur: nat, l: Layout) {
    && cs != [] && cur <= ItemsPerPage(l.depth)
    && forall i :: 0 <= i < |cs| ==> ContainerOk(cs, cur, l, i)
  }

  /** Recorded ranges are non-empty, whole pages, in ascending order without overlap, and lie
      between the start of the window and the next address. */
  ghost predicate RangesOk(items: seq<Item>, depth: nat, lo: nat, next: nat) {
    && (forall i :: 0 <= i < |items| ==>
          items[i].size > 0 && items[i].size % PageSize(depth) == 0 && lo <= items[i].base
            && items[i].base + items[i].size <= next)
    && (forall i, j :: 0 <= i < j < |items| ==> items[i].base + items[i].size <= items[j].base)
  }

  /** Address a starts the k-th page of a backed range, for some k. */
  ghost predicate Backs(item: Item, depth: nat, a: nat) {
    !AddressOnly(item.flags) && a in RangePages(depth, item.base, item.size / PageSize(depth))
  }

  ghost predicate IsContainer(cs: seq<Container>, a: nat) {
    exists i :: 0 <= i < |cs| && cs[i].address == a
  }

  ghost predicate IsBacked(items: seq<Item>, depth: nat, a: nat) {
    exists i :: 0 <= i < |items| && Backs(items[i], depth, a)
  }

  /** The addresses that have a frame: container pages and pages of backed ranges. */
  ghost function Owned(s: Space, l: Layout): iset<nat> {
    iset a: nat | IsContainer(s.containers, a) || IsBacked(Recorded(s.containers), l.depth, a)
  }

  /** The page tables are well formed, nothing is mapped beyond what has been given out, and every
      owned address has a frame to itself. */
  ghost predicate PagesOk(st: State, l: Layout, own: iset<nat>, next: nat, dataNext: nat) {
    && Valid(st, l.depth) && IsRoot(st, l.root) && WholeFrames(st, PageSize(l.depth))
    && NoneMapped(st, l, next, l.hi) && NoneMapped(st, l, dataNext, l.dataEnd)
    && Exclusive(st, l, own)
  }

  /** The end of the page of the current container. */
  function DataNext(s: Space, l: Layout): nat {
    ContainerAddress(l, |s.containers| - 1) + PageSize(l.depth)
  }

  /** The records are in order. */
  ghost predicate Books(s: Space, l: Layout) {
    && LayoutOk(l)
    && l.lo <= s.next <= l.hi
    && ChainOk(s.containers, s.curIndex, l)
    && RangesOk(Recorded(s.containers), l.depth, l.lo, s.next)
  }

  ghost predicate Inv(s: Space, l: Layout) {
    Books(s, l) && PagesOk(s.pages, l, Owned(s, l), s.next, DataNext(s, l))
  }

  // ----- every call keeps the invariant -----

  /** Recording a range appends it to the recorded ranges. */
  lemma RecordAppends(cs: seq<Container>, item: Item)
    requires cs != []
    ensures var m := |cs| - 1; Recorded(cs[m := Record(cs[m], item)]) == Recorded(cs) + [item]
  {
    var m := |cs| - 1;
    var cs1 := cs[m := Record(cs[m], item)];
    assert cs1[..m] == cs[..m];
    assert Recorded(cs[..m]) + (cs[m].items + [item]) == (Recorded(cs[..m]) + cs[m].items) + [item];
  }

  lemma NewContainerRecordsNothing(cs: seq<Container>, address: nat, available: int)
    ensures Recorded(cs + [Container(address, [], available)]) == Recorded(cs)
  {
    assert (cs + [Container(address, [], available)])[..|cs|] == cs;
  }

  lemma LinkedOwns(s: Space, l: Layout, address: nat, pages: State)
    ensures var s1 := Linked(s, l, address, pages);
      && Recorded(s1.containers) == Recorded(s.containers)
      && Owned(s1, l) == Owned(s, l) + RangePages(l.depth, address, 1)
  {
    var s1 := Linked(s, l, address, pages);
    NewContainerRecordsNothing(s.containers, address, ItemsPerPage(l.depth));
    assert PageOn(l.depth, address, 0) == address;
    forall a: nat ensures IsContainer(s1.containers, a) <==> IsContainer(s.containers, a) || a == address {
      if IsContainer(s.containers, a) {
        var i :| 0 <= i < |s.containers| && s.containers[i].address == a;
        assert s1.containers[i].address == a;
      }
      assert s1.containers[|s.containers|].address == address;
    }
    forall a: nat ensures a in RangePages(l.depth, address, 1) <==> a == address {}
  }

  /** The addresses that a recorded range adds. */
  ghost function Adds(item: Item, depth: nat): iset<nat> {
    if AddressOnly(item.flags) then iset{} else RangePages(depth, item.base, item.size / PageSize(depth))
  }

  lemma RecordingOwns(s: Space, l: Layout, item: Item, pages: State)
    requires s.containers != []
    ensures var s1 := Recording(s, item, pages);
      && Recorded(s1.containers) == Recorded(s.containers) + [item]
      && Owned(s1, l) == Owned(s, l) + Adds(item, l.depth)
  {
    var s1 := Recording(s, item, pages);
    RecordAppends(s.containers, item);
    var items, items1 := Recorded(s.containers), Recorded(s1.containers);
    forall a: nat ensures IsContainer(s1.containers, a) <==> IsContainer(s.containers, a) {
      assert forall i :: 0 <= i < |s.containers| ==> s1.containers[i].address == s.containers[i].address;
    }
    forall a: nat ensures IsBacked(items1, l.depth, a) <==> IsBacked(items, l.depth, a) || Backs(item, l.depth, a) {
      assert items1[|items|] == item;
      assert forall i :: 0 <= i < |items| ==> items1[i] == items[i];
    }
  }

  /** Backing the next pages of the window, or of the container area, keeps the page invariant. */
  lemma BackKeepsPages(st: State, l: Layout, own: iset<nat>, next: nat, dataNext: nat, v: nat, n: nat, flags: nat,
                       inWindow: bool)
    requires CanBackRange(st, l, v, n, flags) && PagesOk(st, l, own, next, dataNext)
    requires l.lo <= next && l.dataStart <= dataNext
    requires if inWindow then next <= v <= PageOn(l.depth, v, n) <= l.hi
      else dataNext <= v <= PageOn(l.depth, v, n) <= l.dataEnd
    ensures var st1, end := BackRange(st, l, v, n, flags), PageOn(l.depth, v, n);
      && PagesOk(st1, l, own + RangePages(l.depth, v, n),
                 if inWindow then end else next, if inWindow then dataNext else end)
      && Extends(st, st1, PageSize(l.depth))
  {
    var st1, end := BackRange(st, l, v, n, flags), PageOn(l.depth, v, n);
    forall k | 0 <= k < n ensures FrameAt(st, l, PageOn(l.depth, v, k)).None? { PageOnInside(l.depth, v, n, k); }
    RangeExclusive(st, l, v, n, flags, own);
    forall a | (if inWindow then end else next) <= a < l.hi || (if inWindow then dataNext else end) <= a < l.dataEnd
      ensures FrameAt(st1, l, a) == FrameAt(st, l, a)
    {
      PageApart(l, v, n, a);
      RangeKeepsOthers(st, l, v, n, flags, a);
    }
  }

  lemma ContainerStep(l: Layout, n: nat)
    requires l.dataStart % PageSize(l.depth) == 0 && n > 0
    ensures NextContainer(l.depth, ContainerAddress(l, n - 1)) == ContainerAddress(l, n)
    ensures ContainerAddress(l, n) == ContainerAddress(l, n - 1) + 2 * PageSize(l.depth)
  {
    ContainerAligned(l, n - 1);
    NextContainerIsTwoPagesOn(l.depth, ContainerAddress(l, n - 1));
    assert 2 * PageSize(l.depth) * n == 2 * PageSize(l.depth) * (n - 1) + 2 * PageSize(l.depth);
  }

  lemma LinkedBooks(s: Space, l: Layout, pages: State)
    requires Books(s, l) && Full(s, l) && ContainerAddress(l, |s.containers|) + PageSize(l.depth) <= l.dataEnd
    ensures var address := ContainerAddress(l, |s.containers|);
      var s1 := Linked(s, l, address, pages);
      && Books(s1, l) && !Full(s1, l) && DataNext(s1, l) == address + PageSize(l.depth)
      && Owned(s1, l) == Owned(s, l) + RangePages(l.depth, address, 1)
  {
    var s1 := Linked(s, l, ContainerAddress(l, |s.containers|), pages);
    LinkedOwns(s, l, ContainerAddress(l, |s.containers|), pages);
    forall i | 0 <= i < |s1.containers| ensures ContainerOk(s1.containers, 0, l, i) {
      if i < |s.containers| { assert ContainerOk(s.containers, s.curIndex, l, i); }
    }
  }

  lemma RollOverLinks(s: Space, l: Layout)
    requires Books(s, l)
    ensures var address := ContainerAddress(l, |s.containers|);
      && l.dataStart <= DataNext(s, l) <= address && PageOn(l.depth, address, 1) == address + PageSize(l.depth)
      && RollOver(s, l) == Linked(s, l, address, BackRange(s.pages, l, address, 1, 0))
  {
    assert ContainerOk(s.containers, s.curIndex, l, |s.containers| - 1);
    ContainerStep(l, |s.containers|);
  }

  /** Linking a container keeps the invariant. */
  lemma RollOverKeepsInv(s: Space, l: Layout)
    requires Inv(s, l) && Full(s, l) && RoomForContainer(s, l)
    ensures var s1 := RollOver(s, l);
      Inv(s1, l) && s1.next == s.next && !Full(s1, l) && Extends(s.pages, s1.pages, PageSize(l.depth))
  {
    var address := ContainerAddress(l, |s.containers|);
    RollOverLinks(s, l);
    BackKeepsPages(s.pages, l, Owned(s, l), s.next, DataNext(s, l), address, 1, 0, false);
    LinkedBooks(s, l, BackRange(s.pages, l, address, 1, 0));
  }

  lemma RecordingBooks(s: Space, l: Layout, item: Item, pages: State)
    requires Books(s, l) && !Full(s, l)
    requires item.size > 0 && item.size % PageSize(l.depth) == 0 && s.next <= item.base && item.base + item.size <= l.hi
    ensures var s1 := Recording(s, item, pages);
      Books(s1, l) && DataNext(s1, l) == DataNext(s, l) && Owned(s1, l) == Owned(s, l) + Adds(item, l.depth)
  {
    RecordingOwns(s, l, item, pages);
    RecordingChain(s.containers, s.curIndex, l, item);
    RecordingRanges(Recorded(s.containers), l.depth, l.lo, s.next, item);
  }

  lemma RecordingRanges(items: seq<Item>, depth: nat, lo: nat, next: nat, item: Item)
    requires RangesOk(items, depth, lo, next) && lo <= next <= item.base
    requires item.size > 0 && item.size % PageSize(depth) == 0
    ensures RangesOk(items + [item], depth, lo, item.base + item.size)
  {
  }

  lemma RecordingChain(cs: seq<Container>, cur: nat, l: Layout, item: Item)
    requires ChainOk(cs, cur, l) && cur < ItemsPerPage(l.depth)
    ensures ChainOk(cs[|cs| - 1 := Record(cs[|cs| - 1], item)], cur + 1, l)
  {
    var cs1 := cs[|cs| - 1 := Record(cs[|cs| - 1], item)];
    var cur1 := cur + 1;
    forall i | 0 <= i < |cs1| ensures ContainerOk(cs1, cur1, l, i) {
      assert ContainerOk(cs, cur, l, i);
    }
  }

  lemma PageCountExact(depth: nat, v: nat, size: nat)
    ensures PageOn(depth, v, PageCount(depth, size)) == v + AlignToPage(depth, size)
  {
    var r := AlignToPage(depth, size);
    assert r == PageSize(depth) * (r / PageSize(depth)) + r % PageSize(depth);
  }

  lemma DataNextIsInside(s: Space, l: Layout)
    requires s.containers != []
    ensures l.dataStart <= DataNext(s, l)
  {
  }

  /** The pages after a call that settles on address v. */
  lemma PagesAfterOk(st: State, l: Layout, own: iset<nat>, next: nat, dataNext: nat, v: nat, size: nat, flags: nat)
    requires LayoutOk(l) && PagesOk(st, l, own, next, dataNext) && flags < 0x1000 && l.dataStart <= dataNext
    requires l.lo <= next <= v && v + AlignToPage(l.depth, size) <= l.hi
    requires !AddressOnly(flags) ==> EnoughForRange(st, l, v, PageCount(l.depth, size), flags)
    ensures var st1, r := PagesAfter(st, l, v, PageCount(l.depth, size), flags), AlignToPage(l.depth, size);
      && PagesOk(st1, l, own + Adds(Item(v, r, flags), l.depth), v + r, dataNext)
      && Extends(st, st1, PageSize(l.depth))
  {
    PageCountExact(l.depth, v, size);
    if AddressOnly(flags) {
      assert own + iset{} == own;
    } else {
      BackKeepsPages(st, l, own, next, dataNext, v, PageCount(l.depth, size), flags, true);
    }
  }

  /** Recording and backing a range keeps the invariant. */
  lemma PlaceKeepsInv(s: Space, l: Layout, base: nat, size: nat, flags: nat)
    requires Inv(s, l) && !Full(s, l) && size > 0 && flags < 0x1000
    requires Chosen(s, base) + AlignToPage(l.depth, size) <= l.hi
    requires !AddressOnly(flags) ==> EnoughForRange(s.pages, l, Chosen(s, base), PageCount(l.depth, size), flags)
    ensures Inv(Place(s, l, base, size, flags), l)
    ensures Extends(s.pages, Place(s, l, base, size, flags).pages, PageSize(l.depth))
  {
    var item, n := Item(Chosen(s, base), AlignToPage(l.depth, size), flags), PageCount(l.depth, size);
    DataNextIsInside(s, l);
    PagesAfterOk(s.pages, l, Owned(s, l), s.next, DataNext(s, l), item.base, size, flags);
    RecordingBooks(s, l, item, PagesAfter(s.pages, l, item.base, n, flags));
  }

  lemma ReadyKeepsInv(s: Space, l: Layout, base: nat, size: nat, flags: nat)
    requires Inv(s, l) && Enabled(s, l, base, size, flags) && !Refused(s, l, size)
    ensures var s1 := Ready(s, l);
      Inv(s1, l) && !Full(s1, l) && Extends(s.pages, s1.pages, PageSize(l.depth))
  {
    if Full(s, l) { RollOverKeepsInv(s, l); }
  }

  /** The invariant and the taken frames survive every call, whether it succeeds or not. */
  lemma AllocKeepsInv(s: Space, l: Layout, base: nat, size: nat, flags: nat)
    requires Inv(s, l) && Enabled(s, l, base, size, flags)
    ensures Inv(AllocAt(s, l, base, size, flags), l)
    ensures Extends(s.pages, AllocAt(s, l, base, size, flags).pages, PageSize(l.depth))
  {
    if !Refused(s, l, size) {
      ReadyKeepsInv(s, l, base, size, flags);
      PlaceKeepsInv(Ready(s, l), l, base, size, flags);
    }
  }

  lemma ContainerAligned(l: Layout, i: nat)
    requires l.dataStart % PageSize(l.depth) == 0
    ensures ContainerAddress(l, i) % PageSize(l.depth) == 0
  {
    var size := PageSize(l.depth);
    assert ContainerAddress(l, i) == size * (l.dataStart / size + 2 * i);
    DivUnique(ContainerAddress(l, i), size, l.dataStart / size + 2 * i, 0);
  }

  /** An address outside whole pages is in another page than each of them. */
  lemma PageApart(l: Layout, v: nat, n: nat, a: nat)
    requires LayoutOk(l)
    requires || PageOn(l.depth, v, n) <= a
             || (a < l.hi <= v)
             || (a < l.dataEnd <= v)
             || (a < v && v % PageSize(l.depth) == 0)
    ensures a / PageSize(l.depth) < v / PageSize(l.depth) || a / PageSize(l.depth) >= v / PageSize(l.depth) + n
  {
    var size := PageSize(l.depth);
    if PageOn(l.depth, v, n) <= a {
      PageOnNumber(l.depth, v, n);
      DivMono(PageOn(l.depth, v, n), a, size);
    } else {
      var w := if a < l.hi <= v then l.hi else if a < l.dataEnd <= v then l.dataEnd else v;
      DivMono(w, v, size);
      BelowMultiple(a, w, size);
    }
  }

  lemma DivMono(a: nat, b: nat, size: nat)
    requires a <= b && size > 0
    ensures a / size <= b / size
  {
    var q, p := a / size, b / size;
    assert a == size * q + a % size && b == size * p + b % size;
    assert size * (p + 1) == size * p + size;
    if p < q {
      MulMono(size, p + 1, q);
    }
  }

  lemma BelowMultiple(a: nat, w: nat, size: nat)
    requires a < w && size > 0 && w % size == 0
    ensures a / size < w / size
  {
    var q, p := a / size, w / size;
    assert a == size * q + a % size && w == size * p;
    if p <= q { MulMono(size, p, q); }
  }

  // ----- runs -----

  datatype AllocCall = AllocCall(base: nat, size: nat, flags: nat)

  ghost predicate EnabledRun(s: Space, l: Layout, calls: seq<AllocCall>)
    requires s.containers != []
    decreases |calls|
  {
    calls == [] ||
    (&& Enabled(s, l, calls[0].base, calls[0].size, calls[0].flags)
     && EnabledRun(AllocAt(s, l, calls[0].base, calls[0].size, calls[0].flags), l, calls[1..]))
  }

  ghost function Run(s: Space, l: Layout, calls: seq<AllocCall>): Space
    requires s.containers != []
    decreases |calls|
  {
    if calls == [] then s
    else Run(AllocAt(s, l, calls[0].base, calls[0].size, calls[0].flags), l, calls[1..])
  }

  /** A call forgets no recorded range. */
  lemma AllocKeepsRecords(s: Space, l: Layout, base: nat, size: nat, flags: nat)
    requires s.containers != []
    ensures var items, items1 := Recorded(s.containers), Recorded(AllocAt(s, l, base, size, flags).containers);
      items1 == if Refused(s, l, size) then items
        else items + [Item(Chosen(s, base), AlignToPage(l.depth, size), flags)]
  {
    if !Refused(s, l, size) {
      var item := Item(Chosen(s, base), AlignToPage(l.depth, size), flags);
      if Full(s, l) {
        var address := NextContainer(l.depth, s.containers[|s.containers| - 1].address);
        NewContainerRecordsNothing(s.containers, address, ItemsPerPage(l.depth));
        RecordAppends(RollOver(s, l).containers, item);
      } else {
        RecordAppends(s.containers, item);
      }
    }
  }

  /** After any run the recorded ranges are whole pages in ascending order without overlap, every
      index is within its container, and every backed page and container page has a frame that no
      other of them has; earlier ranges stay recorded and frames taken earlier stay taken. */
  lemma {:induction false} RunKeepsInv(s: Space, l: Layout, calls: seq<AllocCall>)
    requires Inv(s, l) && EnabledRun(s, l, calls)
    ensures Inv(Run(s, l, calls), l)
    ensures Recorded(s.containers) <= Recorded(Run(s, l, calls).containers)
    ensures Extends(s.pages, Run(s, l, calls).pages, PageSize(l.depth))
    decreases |calls|
  {
    if calls != [] {
      var c := calls[0];
      AllocKeepsInv(s, l, c.base, c.size, c.flags);
      AllocKeepsRecords(s, l, c.base, c.size, c.flags);
      RunKeepsInv(AllocAt(s, l, c.base, c.size, c.flags), l, calls[1..]);
    }
  }

  function FirstSpace(l: Layout, pages: State): Space {
    Space(pages, [Container(l.dataStart, [], ItemsPerPage(l.depth))], 0, l.lo)
  }

  /** The state that `vmm_init` sets up. */
  ghost function InitialSpace(st: State, l: Layout): Space {
    FirstSpace(l, BackRange(st, l, l.dataStart, 1, 0))
  }

  lemma FirstChain(l: Layout)
    requires l.dataStart + PageSize(l.depth) <= l.dataEnd
    ensures var cs := [Container(l.dataStart, [], ItemsPerPage(l.depth))];
      ChainOk(cs, 0, l) && Recorded(cs) == [] && ContainerAddress(l, 0) == l.dataStart
  {
    var cs := [Container(l.dataStart, [], ItemsPerPage(l.depth))];
    assert cs[..0] == [] && Recorded(cs[..0]) == [];
    assert ContainerOk(cs, 0, l, 0);
  }

  lemma NothingOwned(pages: State, l: Layout)
    ensures Owned(Space(pages, [], 0, l.lo), l) == iset{}
  {
    assert Recorded([]) == [];
  }

  lemma FirstSpaceOwns(l: Layout, pages: State)
    ensures Owned(FirstSpace(l, pages), l) == iset{} + RangePages(l.depth, l.dataStart, 1)
  {
    var none := Space(pages, [], 0, l.lo);
    assert FirstSpace(l, pages) == Linked(none, l, l.dataStart, pages);
    LinkedOwns(none, l, l.dataStart, pages);
    NothingOwned(pages, l);
  }

  lemma FirstSpaceBooks(l: Layout, pages: State)
    requires LayoutOk(l) && l.dataStart + PageSize(l.depth) <= l.dataEnd
    ensures var s := FirstSpace(l, pages);
      && Books(s, l) && DataNext(s, l) == l.dataStart + PageSize(l.depth)
      && Owned(s, l) == iset{} + RangePages(l.depth, l.dataStart, 1)
  {
    FirstChain(l);
    FirstSpaceOwns(l, pages);
  }

  lemma InitialInv(st: State, l: Layout)
    requires LayoutOk(l) && l.dataStart + PageSize(l.depth) <= l.dataEnd && EnoughForRange(st, l, l.dataStart, 1, 0)
    requires PagesOk(st, l, iset{}, l.lo, l.dataStart)
    ensures Inv(InitialSpace(st, l), l)
    ensures Recorded(InitialSpace(st, l).containers) == [] && InitialSpace(st, l).next == l.lo
  {
    FirstChain(l);
    assert PageOn(l.depth, l.dataStart, 1) == l.dataStart + PageSize(l.depth);
    BackKeepsPages(st, l, iset{}, l.lo, l.dataStart, l.dataStart, 1, 0, false);
    FirstSpaceBooks(l, BackRange(st, l, l.dataStart, 1, 0));
  }
}
