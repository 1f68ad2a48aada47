/** What a recorded range is worth to its owner. */
module VmmRanges {
  import opened Bits
  import opened PageTable
  import opened Addresses
  import opened Mapping
  import opened Backing
  import opened RangeBacking
  import TableCount
  import opened Vmm

  // ----- alignment -----

  ghost predicate AllAligned(items: seq<Item>, size: nat)
    requires size > 0
  {
    forall i :: 0 <= i < |items| ==> items[i].base % size == 0
  }

  /** All recorded ranges and the next address are page aligned. */
  ghost predicate AlignedSpace(s: Space, l: Layout) {
    s.next % PageSize(l.depth) == 0 && AllAligned(Recorded(s.containers), PageSize(l.depth))
  }

  lemma AppendAligned(items: seq<Item>, item: Item, size: nat)
    requires size > 0
    ensures AllAligned(items + [item], size) <==> AllAligned(items, size) && item.base % size == 0
  {
    var items1 := items + [item];
    assert items1[|items|] == item;
    assert forall i :: 0 <= i < |items| ==> items1[i] == items[i];
  }

  /** The call is refused, or the address it asks for is aligned or is not used. */
  ghost predicate AsksAligned(s: Space, l: Layout, c: AllocCall) {
    Refused(s, l, c.size) || c.base <= s.next || c.base % PageSize(l.depth) == 0
  }

  /** A call keeps everything aligned exactly if the address it settles on is aligned. */
  lemma AllocAlignedIff(s: Space, l: Layout, c: AllocCall)
    requires s.containers != [] && AlignedSpace(s, l)
    ensures AlignedSpace(AllocAt(s, l, c.base, c.size, c.flags), l) <==> AsksAligned(s, l, c)
    ensures !AsksAligned(s, l, c) ==>
      !AllAligned(Recorded(AllocAt(s, l, c.base, c.size, c.flags).containers), PageSize(l.depth))
  {
    AllocKeepsRecords(s, l, c.base, c.size, c.flags);
    if !Refused(s, l, c.size) {
      var item := Item(Chosen(s, c.base), AlignToPage(l.depth, c.size), c.flags);
      AppendAligned(Recorded(s.containers), item, PageSize(l.depth));
      SumAligned(item.base, item.size, PageSize(l.depth));
    }
  }

  ghost predicate RunAsksAligned(s: Space, l: Layout, calls: seq<AllocCall>)
    requires s.containers != []
    decreases |calls|
  {
    calls == [] ||
    (&& AsksAligned(s, l, calls[0])
     && RunAsksAligned(AllocAt(s, l, calls[0].base, calls[0].size, calls[0].flags), l, calls[1..]))
  }

  lemma {:induction false} RunKeepsRecords(s: Space, l: Layout, calls: seq<AllocCall>)
    requires s.containers != []
    ensures Recorded(s.containers) <= Recorded(Run(s, l, calls).containers)
    decreases |calls|
  {
    if calls != [] {
      AllocKeepsRecords(s, l, calls[0].base, calls[0].size, calls[0].flags);
      RunKeepsRecords(AllocAt(s, l, calls[0].base, calls[0].size, calls[0].flags), l, calls[1..]);
    }
  }

  /** A run ends aligned exactly if each of its calls asks for an aligned address, for one that is not
      used, or is refused: one misaligned range stays on record. */
  lemma {:induction false} RunAlignedIff(s: Space, l: Layout, calls: seq<AllocCall>)
    requires s.containers != [] && AlignedSpace(s, l)
    ensures AlignedSpace(Run(s, l, calls), l) <==> RunAsksAligned(s, l, calls)
    decreases |calls|
  {
    if calls != [] {
      AllocAlignedIff(s, l, calls[0]);
      var s1 := AllocAt(s, l, calls[0].base, calls[0].size, calls[0].flags);
      if AsksAligned(s, l, calls[0]) {
        RunAlignedIff(s1, l, calls[1..]);
      } else {
        RunKeepsRecords(s1, l, calls[1..]);
        MisalignedStays(Recorded(s1.containers), Recorded(Run(s1, l, calls[1..]).containers), PageSize(l.depth));
      }
    }
  }

  lemma MisalignedStays(items: seq<Item>, items1: seq<Item>, size: nat)
    requires size > 0 && items <= items1 && !AllAligned(items, size)
    ensures !AllAligned(items1, size)
  {
    var i :| 0 <= i < |items| && items[i].base % size != 0;
    assert items1[i] == items[i];
  }

  lemma SumAligned(a: nat, b: nat, size: nat)
    requires size > 0 && b % size == 0
    ensures (a + b) % size == a % size
  {
    assert a == size * (a / size) + a % size && b == size * (b / size);
    assert a + b == size * (a / size + b / size) + a % size;
    DivUnique(a + b, size, a / size + b / size, a % size);
  }

  // ----- what a range is worth -----

  /** The page of an aligned range that a byte lies in. */
  lemma ByteInRange(l: Layout, base: nat, size: nat, a: nat) returns (k: nat)
    requires base % PageSize(l.depth) == 0 && size % PageSize(l.depth) == 0 && base <= a < base + size
    ensures k < size / PageSize(l.depth) && PageOn(l.depth, base, k) / PageSize(l.depth) == a / PageSize(l.depth)
  {
    var page := PageSize(l.depth);
    k := (a - base) / page;
    BelowMultiple(a - base, size, page);
    PageOnNumber(l.depth, base, k);
    SumAligned(a - base, base, page);
    assert base == page * (base / page) && a - base == page * k + (a - base) % page;
    assert a == page * (base / page + k) + (a - base) % page;
    DivUnique(a, page, base / page + k, (a - base) % page);
  }

  /** Every byte of a backed aligned range is translated, to the frame of its page. */
  lemma BackedByte(s: Space, l: Layout, i: nat, a: nat) returns (p: nat)
    requires Inv(s, l) && i < |Recorded(s.containers)|
    requires var item := Recorded(s.containers)[i];
      !AddressOnly(item.flags) && item.base % PageSize(l.depth) == 0 && item.base <= a < item.base + item.size
    ensures p in Owned(s, l) && p / PageSize(l.depth) == a / PageSize(l.depth)
    ensures FrameAt(s.pages, l, a) == FrameAt(s.pages, l, p)
    ensures FrameAt(s.pages, l, a).Some? && Taken(s.pages, PageSize(l.depth), FrameAt(s.pages, l, a).value)
  {
    var item := Recorded(s.containers)[i];
    var k := ByteInRange(l, item.base, item.size, a);
    p := PageOn(l.depth, item.base, k);
    assert Backs(item, l.depth, p);
    assert p in Owned(s, l) && Inside(l, p);
    InsideLeads(s.pages, l, p);
    InsideLeads(s.pages, l, a);
    SamePathIffSamePage(l.depth, a, p);
  }

  /** Two bytes of backed ranges translate to the same frame exactly if they lie in the same page. */
  lemma BackedBytesShareFrameIffSamePage(s: Space, l: Layout, i: nat, a: nat, j: nat, b: nat)
    requires Inv(s, l) && AlignedSpace(s, l)
    requires i < |Recorded(s.containers)| && j < |Recorded(s.containers)|
    requires var item := Recorded(s.containers)[i]; !AddressOnly(item.flags) && item.base <= a < item.base + item.size
    requires var item := Recorded(s.containers)[j]; !AddressOnly(item.flags) && item.base <= b < item.base + item.size
    ensures FrameAt(s.pages, l, a).Some? && FrameAt(s.pages, l, b).Some?
    ensures FrameAt(s.pages, l, a) == FrameAt(s.pages, l, b) <==> a / PageSize(l.depth) == b / PageSize(l.depth)
    ensures i != j ==> FrameAt(s.pages, l, a) != FrameAt(s.pages, l, b)
  {
    var p := BackedByte(s, l, i, a);
    var q := BackedByte(s, l, j, b);
    InsideLeads(s.pages, l, a);
    InsideLeads(s.pages, l, b);
    SamePathIffSamePage(l.depth, a, b);
    if i < j {
      BytesApart(s, l, i, a, j, b);
    } else if j < i {
      BytesApart(s, l, j, b, i, a);
    }
  }

  lemma BytesApart(s: Space, l: Layout, i: nat, a: nat, j: nat, b: nat)
    requires Inv(s, l) && AlignedSpace(s, l) && i < j < |Recorded(s.containers)|
    requires a < Recorded(s.containers)[i].base + Recorded(s.containers)[i].size && Recorded(s.containers)[j].base <= b
    ensures a / PageSize(l.depth) < b / PageSize(l.depth)
  {
    var w := Recorded(s.containers)[j].base;
    BelowMultiple(a, w, PageSize(l.depth));
    DivMono(w, b, PageSize(l.depth));
  }

  lemma SamePageBefore(a: nat, size: nat)
    requires size > 0 && a % size != 0
    ensures a > 0 && (a - 1) / size == a / size
  {
    assert a == size * (a / size) + a % size;
    DivUnique(a - 1, size, a / size, a % size - 1);
  }

  /** If the next address is not aligned, the byte before it has no translation. */
  lemma MisalignedEndIsUnmapped(s: Space, l: Layout)
    requires Inv(s, l) && s.next % PageSize(l.depth) != 0
    ensures s.next > l.lo && FrameAt(s.pages, l, s.next - 1).None?
  {
    assert s.next < l.hi && FrameAt(s.pages, l, s.next).None?;
    SamePageBefore(s.next, PageSize(l.depth));
    InsideLeads(s.pages, l, s.next - 1);
    InsideLeads(s.pages, l, s.next);
    SamePathIffSamePage(l.depth, s.next - 1, s.next);
  }

  /** The last recorded range, if it is backed and ends at the next address, is translated in full
      exactly if it is page aligned. */
  lemma LastRangeFullyBackedIff(s: Space, l: Layout, i: nat)
    requires Inv(s, l) && i < |Recorded(s.containers)|
    requires var item := Recorded(s.containers)[i]; !AddressOnly(item.flags) && item.base + item.size == s.next
    ensures var item := Recorded(s.containers)[i];
      (forall a :: item.base <= a < s.next ==> FrameAt(s.pages, l, a).Some?) <==> item.base % PageSize(l.depth) == 0
  {
    var item := Recorded(s.containers)[i];
    if item.base % PageSize(l.depth) == 0 {
      forall a | item.base <= a < s.next ensures FrameAt(s.pages, l, a).Some? {
        var p := BackedByte(s, l, i, a);
      }
    } else {
      SumAligned(item.base, item.size, PageSize(l.depth));
      MisalignedEndIsUnmapped(s, l);
    }
  }

  /** A call backs every byte of the range it records exactly if that range is page aligned. */
  lemma RangeFullyBackedIff(s: Space, l: Layout, base: nat, size: nat, flags: nat)
    requires Inv(s, l) && Enabled(s, l, base, size, flags) && !Refused(s, l, size) && !AddressOnly(flags)
    ensures var s1, v := AllocAt(s, l, base, size, flags), Chosen(s, base);
      (forall a :: v <= a < v + AlignToPage(l.depth, size) ==> FrameAt(s1.pages, l, a).Some?) <==>
        v % PageSize(l.depth) == 0
  {
    AllocKeepsInv(s, l, base, size, flags);
    AllocKeepsRecords(s, l, base, size, flags);
    LastRangeFullyBackedIff(AllocAt(s, l, base, size, flags), l, |Recorded(s.containers)|);
  }

  /** The address returned for a stack is the end of its range exactly if the size rounds to the stack
      size, and lies inside the range exactly if it rounds to more. If the range is aligned, the byte
      below the returned address is backed in just these two cases. */
  lemma StackAddress(s: Space, l: Layout, base: nat, size: nat, flags: nat)
    requires Inv(s, l) && Enabled(s, l, base, size, flags) && !Refused(s, l, size) && IsStack(flags)
    ensures var v, r := Chosen(s, base), AlignToPage(l.depth, size);
      var top := Returned(s, l, base, size, flags).value;
      && (top == v + r <==> r == STACK_SIZE) && (v <= top < v + r <==> r > STACK_SIZE)
      && (!AddressOnly(flags) && v % PageSize(l.depth) == 0 && top <= l.hi ==>
            (FrameAt(AllocAt(s, l, base, size, flags).pages, l, top - 1).Some? <==> r >= STACK_SIZE))
  {
    var s1, v, r := AllocAt(s, l, base, size, flags), Chosen(s, base), AlignToPage(l.depth, size);
    var top := v + STACK_SIZE;
    if !AddressOnly(flags) && v % PageSize(l.depth) == 0 && top <= l.hi {
      if r >= STACK_SIZE {
        RangeFullyBackedIff(s, l, base, size, flags);
        assert v <= top - 1 < v + r;
      } else {
        AllocKeepsInv(s, l, base, size, flags);
        assert s1.next == v + r <= top - 1 < l.hi;
      }
    }
  }

  // ----- `vmm_init` -----

  /** The first container has the frame taken for it exactly if nothing was mapped at its address. If
      something was, as when the root shares that entry with an earlier one, the tables stay as they
      are, the container stands in the frame mapped before and the frame taken for it is lost. */
  lemma InitialContainerFrame(st: State, l: Layout)
    requires CanBackRange(st, l, l.dataStart, 1, 0)
    requires var before := FrameAt(st, l, l.dataStart); before.Some? ==> before.value !in st.supply
    ensures st.supply != []
    ensures var st1, before := InitialSpace(st, l).pages, FrameAt(st, l, l.dataStart);
      && (FrameAt(st1, l, l.dataStart) == Some(st.supply[0]) <==> before.None?)
      && (before.Some? ==> st1 == st.(supply := st.supply[1..]) && FrameAt(st1, l, l.dataStart) == before)
  {
    var page, user := PagePath(l.depth, l.dataStart), UserStatus(l.dataStart);
    var low := Low(l.depth, ArchFlags(0, user), user);
    OnePageIsOne(st, l, l.dataStart, 0);
    assert InitialSpace(st, l).pages == BackOne(st, l.root, page, user, low);
    if FrameAt(st, l, l.dataStart).Some? { BackMappedIsNoop(st, l.root, page, user, low); }
  }

  lemma BackMappedIsNoop(st: State, root: Frame, page: Path, user: nat, low: nat)
    requires st.supply != [] && page != [] && Walk(st.mem, root, page).Some?
    ensures BackOne(st, root, page, user, low) == st.(supply := st.supply[1..])
  {
    MapOfMappedIsNoop(st.(supply := st.supply[1..]), root, page, user, st.supply[0] + low);
  }

  /** Backing one page is one step, which gives it the next frame if it had none. */
  lemma OnePageIsOne(st: State, l: Layout, v: nat, flags: nat)
    requires CanBackRange(st, l, v, 1, flags)
    ensures st.supply != []
    ensures var page, user := PagePath(l.depth, v), UserStatus(v);
      BackRange(st, l, v, 1, flags) == BackOne(st, l.root, page, user, Low(l.depth, ArchFlags(flags, user), user))
    ensures FrameAt(BackRange(st, l, v, 1, flags), l, v) ==
      if FrameAt(st, l, v).None? then Some(st.supply[0]) else FrameAt(st, l, v)
  {
    var pages, user := PagesOf(l.depth, v, 1), UserStatus(v);
    var low := Low(l.depth, ArchFlags(flags, user), user);
    RangeCanBack(st, l, v, 1, flags);
    assert PageOn(l.depth, v, 0) == v && pages[0] == PagePath(l.depth, v);
    var st1 := BackOne(st, l.root, pages[0], user, low);
    assert pages[1..] == [] && Back(st1, l.root, pages[1..], user, low) == st1;
    BackFirstTranslates(st, l.depth, l.root, pages, user, low, pages[0]);
  }

  // ----- how many frames a call takes -----

  /** The frames that are enough for a call: one and its tables for a new container, and for a backed
      range one for each page and for each table begun on the way. */
  function FramesFor(s: Space, l: Layout, base: nat, size: nat, flags: nat): int {
    var n := PageCount(l.depth, size);
    (if Full(s, l) then l.depth else 0) +
    (if AddressOnly(flags) then 0 else n + TableCount.TableBound(l.depth, Chosen(s, base) / PageSize(l.depth), n))
  }

  /** A call with room and that many frames is enabled; one that asks for addresses only takes no frame
      for its pages. */
  lemma EnabledIfFrames(s: Space, l: Layout, base: nat, size: nat, flags: nat)
    requires Inv(s, l) && flags < 0x1000 && Chosen(s, base) + AlignToPage(l.depth, size) <= l.hi
    requires Full(s, l) ==> ContainerAddress(l, |s.containers|) + PageSize(l.depth) <= l.dataEnd
    requires |s.pages.supply| >= FramesFor(s, l, base, size, flags)
    ensures Enabled(s, l, base, size, flags)
  {
    if !Refused(s, l, size) {
      var v, n := Chosen(s, base), PageCount(l.depth, size);
      if n > 0 { TableCount.GroupsGrow(l.depth, v / PageSize(l.depth), v / PageSize(l.depth) + n - 1); }
      if Full(s, l) { ContainerFrames(s, l); }
      var s1 := Ready(s, l);
      if !AddressOnly(flags) {
        PageCountExact(l.depth, v, size);
        FewFramesBackRange(s1.pages, l, v, n, flags);
      }
    }
  }

  /** A new container takes at most as many frames as there are levels. */
  lemma ContainerFrames(s: Space, l: Layout)
    requires Inv(s, l) && Full(s, l) && |s.pages.supply| >= l.depth
    requires ContainerAddress(l, |s.containers|) + PageSize(l.depth) <= l.dataEnd
    ensures RoomForContainer(s, l) && Inv(RollOver(s, l), l)
    ensures |RollOver(s, l).pages.supply| >= |s.pages.supply| - l.depth
  {
    var address := ContainerAddress(l, |s.containers|);
    RollOverLinks(s, l);
    OnePageFrames(s.pages, l, address);
    RollOverKeepsInv(s, l);
  }

  lemma OnePageFrames(st: State, l: Layout, v: nat)
    requires RangeReady(st, l, v, 1, 0) && |st.supply| >= l.depth
    ensures CanBackRange(st, l, v, 1, 0) && |BackRange(st, l, v, 1, 0).supply| >= |st.supply| - l.depth
  {
    var pages, user := PagesOf(l.depth, v, 1), UserStatus(v);
    var low := Low(l.depth, ArchFlags(0, user), user);
    RangeCanBack(st, l, v, 1, 0);
    FewFramesBackRange(st, l, v, 1, 0);
    BackFirst(st, l.depth, l.root, pages, user, low);
    var st1 := BackOne(st, l.root, pages[0], user, low);
    assert pages[1..] == [] && Back(st1, l.root, pages[1..], user, low) == st1;
  }
}
