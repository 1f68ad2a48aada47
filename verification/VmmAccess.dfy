/** Who may use the pages that back a recorded range, and how. */
module VmmAccess {
  import opened Bits
  import opened PageTable
  import opened Addresses
  import opened Mapping
  import opened Backing
  import opened RangeBacking
  import opened Permissions
  import opened Vmm
  import VirtualMemory

  // ----- the bits of a backed page -----

  /** Bit i of the entry of a backed page is set: present and writable; open to user mode if the range lies in
      the lower half or asks for it; large with large pages; all other flags as they were given. */
  predicate WantsBit(depth: nat, flags: nat, lower: bool, i: nat) {
    if i <= 1 then true
    else if i == 2 then lower || Bit(flags, 2)
    else if i == 7 then depth == 3
    else Bit(flags, i)
  }

  ghost predicate PageBits(e: Word, depth: nat, flags: nat, lower: bool) {
    forall i :: 0 <= i < 12 ==> (Bit(e, i) <==> WantsBit(depth, flags, lower, i))
  }

  lemma FrameBits(f: Frame, low: nat, i: nat)
    requires Aligned(f) && low < 0x1000 && i < 12
    ensures Bit(f + low, i) <==> Bit(low, i)
  {
    OrAboveFrame(f, 0, low);
    OrBit(f, low, i);
    AlignedBit(f, i);
  }

  lemma ArchFlagBits(flags: nat, user: nat, i: nat)
    requires user in {0, USER_LEVEL}
    ensures Bit(ArchFlags(flags, user), i) <==>
      i <= 1 || (i != 7 && (Bit(flags, i) || (i == 2 && user == USER_LEVEL)))
  {
    FlagBits(i);
    assert PRESENT_AND_WRITE == Or(PRESENT_BIT, WRITE_BIT);
    OrBit(PRESENT_BIT, WRITE_BIT, i);
    OrBit(flags, user, i);
    AndNotBit(Or(flags, user), HUGEPAGE_BIT, i);
    OrBit(AndNot(Or(flags, user), HUGEPAGE_BIT), PRESENT_AND_WRITE, i);
  }

  lemma LowHasBits(depth: nat, flags: nat, user: nat, i: nat)
    requires user in {0, USER_LEVEL}
    ensures Bit(Low(depth, flags, user), i) <==>
      Bit(flags, i) || (i == 2 && user == USER_LEVEL) || (i == 7 && depth != 4)
  {
    LeafEntryBits(depth, 0, flags, user, i);
    ZeroBit(i);
    assert LeafEntry(depth, 0, flags, user) == Low(depth, flags, user);
  }

  lemma BackedPageBits(depth: nat, f: Frame, flags: nat, user: nat)
    requires depth in {3, 4} && Aligned(f) && flags < 0x1000 && user in {0, USER_LEVEL}
    ensures PageBits(f + Low(depth, ArchFlags(flags, user), user), depth, flags, user == USER_LEVEL)
  {
    var low := Low(depth, ArchFlags(flags, user), user);
    ArchFlagsFit(flags, user);
    LowFields(depth, ArchFlags(flags, user), user);
    var e, lower := f + low, user == USER_LEVEL;
    forall i | 0 <= i < 12 ensures Bit(e, i) <==> WantsBit(depth, flags, lower, i) {
      FrameBits(f, low, i);
      RangeLowBit(depth, flags, user, i);
    }
  }

  lemma RangeLowBit(depth: nat, flags: nat, user: nat, i: nat)
    requires depth in {3, 4} && user in {0, USER_LEVEL}
    ensures Bit(Low(depth, ArchFlags(flags, user), user), i) <==> WantsBit(depth, flags, user == USER_LEVEL, i)
  {
    LowHasBits(depth, ArchFlags(flags, user), user, i);
    ArchFlagBits(flags, user, i);
  }

  // ----- backing a range -----

  lemma LeafUserBit(f: Frame, low: nat, user: nat)
    requires Aligned(f) && low < 0x1000 && (user == USER_LEVEL ==> Bit(low, 2))
    ensures user == USER_LEVEL ==> Bit(f + low, 2)
  {
    FrameBits(f, low, 2);
  }

  lemma RootKeepsEntriesOk(st: State, depth: nat, root: Frame, page: Path, user: nat, leaf: Word, boot: set<Frame>)
    requires depth >= 3 && CanMap(st, depth, root, page, user, leaf) && EntriesOk(st, depth, boot) && IsRoot(st, root)
    requires user == USER_LEVEL <==> page[0] < LOWER_HALF
    requires user == USER_LEVEL ==> Bit(leaf, 2)
    ensures EntriesOk(MapPath(st, root, page, user, leaf), depth, boot)
  {
    assert InLowerHalf(st.labels, root, page) <==> page[0] < LOWER_HALF;
    MapKeepsEntriesOk(st, depth, root, page, user, leaf, boot);
  }

  lemma FirstKeepsEntriesOk(st: State, depth: nat, root: Frame, pages: seq<Path>, user: nat, low: nat, boot: set<Frame>)
    requires CanBack(st, depth, root, pages, user, low) && EntriesOk(st, depth, boot) && pages != []
    requires user == USER_LEVEL <==> pages[0][0] < LOWER_HALF
    requires user == USER_LEVEL ==> Bit(low, 2)
    ensures EntriesOk(BackOne(st, root, pages[0], user, low), depth, boot)
  {
    CanMapFirst(st, depth, root, pages, user, low);
    TakeKeepsValid(st, depth);
    LeafUserBit(st.supply[0], low, user);
    SupplyDoesNotMatter(st, st.supply[1..], depth, boot);
    var st0, leaf := st.(supply := st.supply[1..]), st.supply[0] + low;
    RootKeepsEntriesOk(st0, depth, root, pages[0], user, leaf, boot);
    assert BackOne(st, root, pages[0], user, low) == MapPath(st0, root, pages[0], user, leaf);
  }

  lemma SupplyDoesNotMatter(st: State, supply: seq<Frame>, depth: nat, boot: set<Frame>)
    requires EntriesOk(st, depth, boot)
    ensures EntriesOk(st.(supply := supply), depth, boot)
  {}

  lemma {:induction false} BackKeepsEntriesOk(st: State, depth: nat, root: Frame, pages: seq<Path>, user: nat, low: nat,
                                              boot: set<Frame>)
    requires CanBack(st, depth, root, pages, user, low) && EntriesOk(st, depth, boot)
    requires forall k :: 0 <= k < |pages| ==> (user == USER_LEVEL <==> pages[k][0] < LOWER_HALF)
    requires user == USER_LEVEL ==> Bit(low, 2)
    ensures EntriesOk(Back(st, root, pages, user, low), depth, boot)
    decreases |pages|
  {
    if pages != [] {
      BackRest(st, depth, root, pages, user, low, pages[0]);
      FirstKeepsEntriesOk(st, depth, root, pages, user, low, boot);
      BackKeepsEntriesOk(BackOne(st, root, pages[0], user, low), depth, root, pages[1..], user, low, boot);
    }
  }

  /** The pages of a range lie in the half of its base. */
  lemma RangeHalf(st: State, l: Layout, v: nat, n: nat, flags: nat, k: nat)
    requires RangeReady(st, l, v, n, flags) && k < n
    ensures var a := PageOn(l.depth, v, k);
      && (UserStatus(v) == USER_LEVEL <==> Pml4Entry(a) < LOWER_HALF)
      && (UserStatus(v) == USER_LEVEL <==> v < LOWER_HALF_END)
      && LeadsToLeaf(st.labels, l.depth, l.root, PagePath(l.depth, a))
  {
    var a := PageOn(l.depth, v, k);
    PageOnInside(l.depth, v, n, k);
    if l.lo <= v <= PageOn(l.depth, v, n) <= l.hi {
      InSpan(l.lo, l.hi, a);
      InSpan(l.lo, l.hi, v);
    } else {
      InSpan(l.dataStart, l.dataEnd, a);
      InSpan(l.dataStart, l.dataEnd, v);
    }
    HalfOfAddress(a);
    HalfOfAddress(v);
    InsideLeads(st, l, a);
  }

  lemma RangeKeepsEntriesOk(st: State, l: Layout, v: nat, n: nat, flags: nat, boot: set<Frame>)
    requires CanBackRange(st, l, v, n, flags) && EntriesOk(st, l.depth, boot)
    ensures EntriesOk(BackRange(st, l, v, n, flags), l.depth, boot)
  {
    var pages, user := PagesOf(l.depth, v, n), UserStatus(v);
    var low := Low(l.depth, ArchFlags(flags, user), user);
    RangeCanBack(st, l, v, n, flags);
    LowHasBits(l.depth, ArchFlags(flags, user), user, 2);
    forall k | 0 <= k < |pages| ensures user == USER_LEVEL <==> pages[k][0] < LOWER_HALF {
      RangeHalf(st, l, v, n, flags, k);
    }
    BackKeepsEntriesOk(st, l.depth, l.root, pages, user, low, boot);
  }

  /** The entry of page k of a range. */
  ghost function PageEntry(st: State, l: Layout, v: nat, k: nat): Option<Word> {
    Walk(st.mem, l.root, PagePath(l.depth, PageOn(l.depth, v, k)))
  }

  ghost predicate LeafOk(st: State, l: Layout, v: nat, flags: nat, k: nat) {
    PageEntry(st, l, v, k).Some? && PageBits(PageEntry(st, l, v, k).value, l.depth, flags, v < LOWER_HALF_END)
  }

  lemma RangeWrites(st: State, l: Layout, v: nat, n: nat, flags: nat, k: nat)
    requires CanBackRange(st, l, v, n, flags) && k < n && FrameAt(st, l, PageOn(l.depth, v, k)).None?
    ensures LeafOk(BackRange(st, l, v, n, flags), l, v, flags, k)
  {
    var user := UserStatus(v);
    var low := Low(l.depth, ArchFlags(flags, user), user);
    RangeBackable(st, l, v, n, flags);
    RangeHalf(st, l, v, n, flags, k);
    var st1, pages := BackRange(st, l, v, n, flags), PagesOf(l.depth, v, n);
    var f := BackLeaf(st, st1, l.depth, l.root, pages, user, low, k);
    LeafHasBits(st1, l, v, flags, k, f, user, pages[k]);
  }

  lemma LeafHasBits(st: State, l: Layout, v: nat, flags: nat, k: nat, f: Frame, user: nat, page: Path)
    requires l.depth in {3, 4} && Aligned(f) && flags < 0x1000 && user in {0, USER_LEVEL}
    requires page == PagePath(l.depth, PageOn(l.depth, v, k)) && (user == USER_LEVEL <==> v < LOWER_HALF_END)
    requires Walk(st.mem, l.root, page) == Some(f + Low(l.depth, ArchFlags(flags, user), user))
    ensures LeafOk(st, l, v, flags, k)
  {
    BackedPageBits(l.depth, f, flags, user);
  }

  lemma BackLeaf(st: State, st1: State, depth: nat, root: Frame, pages: seq<Path>, user: nat, low: nat, k: nat)
    returns (f: Frame)
    requires CanBack(st, depth, root, pages, user, low) && k < |pages| && Translate(st, root, pages[k]).None?
    requires st1 == Back(st, root, pages, user, low)
    requires forall i, j :: 0 <= i < j < |pages| ==> pages[i] != pages[j]
    ensures Aligned(f) && Walk(st1.mem, root, pages[k]) == Some(f + low)
  {
    BackMaps(st, depth, root, pages, user, low, k);
    BackFramesFromSupply(st, depth, root, pages, user, low, k);
    f := BackFrames(st, root, pages, user, low)[k];
  }

  lemma RangeBackable(st: State, l: Layout, v: nat, n: nat, flags: nat)
    requires CanBackRange(st, l, v, n, flags)
    ensures var user := UserStatus(v);
      CanBack(st, l.depth, l.root, PagesOf(l.depth, v, n), user, Low(l.depth, ArchFlags(flags, user), user))
    ensures forall i, j :: 0 <= i < j < n ==> PagesOf(l.depth, v, n)[i] != PagesOf(l.depth, v, n)[j]
  {
    RangeCanBack(st, l, v, n, flags);
    RangePagesDiffer(st, l, v, n, flags);
  }

  /** Backing a range keeps the entries of pages that are mapped. */
  lemma RangeKeepsLeaf(st: State, l: Layout, v: nat, n: nat, flags: nat, page: Path)
    requires CanBackRange(st, l, v, n, flags) && LeadsToLeaf(st.labels, l.depth, l.root, page)
    requires Walk(st.mem, l.root, page).Some?
    ensures Walk(BackRange(st, l, v, n, flags).mem, l.root, page) == Walk(st.mem, l.root, page)
  {
    var user := UserStatus(v);
    RangeCanBack(st, l, v, n, flags);
    var low := Low(l.depth, ArchFlags(flags, user), user);
    BackKeepsMapped(st, l.depth, l.root, PagesOf(l.depth, v, n), user, low, page);
  }

  // ----- every call keeps it -----

  ghost predicate ItemOk(st: State, l: Layout, item: Item) {
    !Bit(item.flags, 7) ==>
      forall k :: 0 <= k < item.size / PageSize(l.depth) ==> LeafOk(st, l, item.base, item.flags, k)
  }

  /** Every page of every backed range has the bits that its flags ask for. */
  ghost predicate AccessOk(s: Space, l: Layout, boot: set<Frame>) {
    && EntriesOk(s.pages, l.depth, boot)
    && forall i :: 0 <= i < |Recorded(s.containers)| ==> ItemOk(s.pages, l, Recorded(s.containers)[i])
  }

  lemma AddressOnlyBit(flags: nat)
    ensures AddressOnly(flags) <==> Bit(flags, 7)
  {
    EntryBits(flags);
  }

  lemma PagesFit(depth: nat, v: nat, size: nat)
    ensures PageOn(depth, v, size / PageSize(depth)) <= v + size
  {
    assert size == PageSize(depth) * (size / PageSize(depth)) + size % PageSize(depth);
  }

  lemma ItemPageLeads(s: Space, l: Layout, i: nat, k: nat)
    requires Inv(s, l) && i < |Recorded(s.containers)| && k < Recorded(s.containers)[i].size / PageSize(l.depth)
    ensures var a := PageOn(l.depth, Recorded(s.containers)[i].base, k);
      l.lo <= a < l.hi && LeadsToLeaf(s.pages.labels, l.depth, l.root, PagePath(l.depth, a))
  {
    var item := Recorded(s.containers)[i];
    var n := item.size / PageSize(l.depth);
    assert l.lo <= item.base && item.base + item.size <= l.hi;
    PageOnInside(l.depth, item.base, n, k);
    PagesFit(l.depth, item.base, item.size);
    InsideLeads(s.pages, l, PageOn(l.depth, item.base, k));
  }

  /** Backing a range keeps what is recorded accessible as it was. */
  lemma BackKeepsItems(s: Space, l: Layout, v: nat, n: nat, flags: nat, boot: set<Frame>)
    requires Inv(s, l) && AccessOk(s, l, boot) && CanBackRange(s.pages, l, v, n, flags)
    ensures var st1 := BackRange(s.pages, l, v, n, flags);
      && EntriesOk(st1, l.depth, boot)
      && forall i :: 0 <= i < |Recorded(s.containers)| ==> ItemOk(st1, l, Recorded(s.containers)[i])
  {
    var st1, items := BackRange(s.pages, l, v, n, flags), Recorded(s.containers);
    RangeKeepsEntriesOk(s.pages, l, v, n, flags, boot);
    forall i | 0 <= i < |items| ensures ItemOk(st1, l, items[i]) {
      if !Bit(items[i].flags, 7) {
        forall k | 0 <= k < items[i].size / PageSize(l.depth)
          ensures LeafOk(st1, l, items[i].base, items[i].flags, k)
        {
          assert ItemOk(s.pages, l, items[i]) && LeafOk(s.pages, l, items[i].base, items[i].flags, k);
          ItemPageLeads(s, l, i, k);
          RangeKeepsLeaf(s.pages, l, v, n, flags, PagePath(l.depth, PageOn(l.depth, items[i].base, k)));
        }
      }
    }
  }

  lemma ReadyKeepsAccess(s: Space, l: Layout, base: nat, size: nat, flags: nat, boot: set<Frame>)
    requires Inv(s, l) && AccessOk(s, l, boot) && Enabled(s, l, base, size, flags) && !Refused(s, l, size)
    ensures AccessOk(Ready(s, l), l, boot)
  {
    if Full(s, l) {
      var address := ContainerAddress(l, |s.containers|);
      VirtualMemory.InvCanRollOver(s, l);
      RollOverLinks(s, l);
      assert ContainerOk(s.containers, s.curIndex, l, |s.containers| - 1);
      ContainerStep(l, |s.containers|);
      BackKeepsItems(s, l, address, 1, 0, boot);
      LinkedOwns(s, l, address, BackRange(s.pages, l, address, 1, 0));
    }
  }

  lemma PlaceKeepsAccess(s: Space, l: Layout, base: nat, size: nat, flags: nat, boot: set<Frame>)
    requires Inv(s, l) && AccessOk(s, l, boot) && !Full(s, l) && size > 0 && flags < 0x1000
    requires Chosen(s, base) + AlignToPage(l.depth, size) <= l.hi
    requires !AddressOnly(flags) ==> EnoughForRange(s.pages, l, Chosen(s, base), PageCount(l.depth, size), flags)
    ensures AccessOk(Place(s, l, base, size, flags), l, boot)
  {
    var v, n := Chosen(s, base), PageCount(l.depth, size);
    var item := Item(v, AlignToPage(l.depth, size), flags);
    var st1 := PagesAfter(s.pages, l, v, n, flags);
    AddressOnlyBit(flags);
    RecordingOwns(s, l, item, st1);
    if !AddressOnly(flags) {
      VirtualMemory.InvCanPlace(s, l, base, size, flags);
      BackKeepsItems(s, l, v, n, flags, boot);
      PageCountExact(l.depth, v, size);
      forall k | 0 <= k < n ensures LeafOk(st1, l, v, flags, k) {
        PageOnInside(l.depth, v, n, k);
        RangeWrites(s.pages, l, v, n, flags, k);
      }
    }
    assert ItemOk(st1, l, item);
  }

  /** Every call keeps every backed page accessible as its range asked for, the new ones included. */
  lemma AllocKeepsAccess(s: Space, l: Layout, base: nat, size: nat, flags: nat, boot: set<Frame>)
    requires Inv(s, l) && AccessOk(s, l, boot) && Enabled(s, l, base, size, flags)
    ensures AccessOk(AllocAt(s, l, base, size, flags), l, boot)
  {
    if !Refused(s, l, size) {
      ReadyKeepsInv(s, l, base, size, flags);
      ReadyKeepsAccess(s, l, base, size, flags, boot);
      PlaceKeepsAccess(Ready(s, l), l, base, size, flags, boot);
    }
  }

  /** So after every run, for page k of the i-th recorded range, if the range is backed: its entry has the bits
      that the flags ask for; user mode may use it exactly if the range lies in the lower half, of a root that
      was not made at boot; and it may be written to. */
  lemma {:induction false} RunAccess(s: Space, l: Layout, calls: seq<AllocCall>, i: nat, k: nat,
                                     boot: set<Frame>)
    requires Inv(s, l) && AccessOk(s, l, boot) && EnabledRun(s, l, calls)
    requires i < |Recorded(Run(s, l, calls).containers)|
    requires var item := Recorded(Run(s, l, calls).containers)[i];
      !Bit(item.flags, 7) && k < item.size / PageSize(l.depth)
    ensures var s1 := Run(s, l, calls);
      var item := Recorded(s1.containers)[i];
      var page := PagePath(l.depth, PageOn(l.depth, item.base, k));
      && Walk(s1.pages.mem, l.root, page).Some?
      && PageBits(Walk(s1.pages.mem, l.root, page).value, l.depth, item.flags, item.base < 0x8000_0000_0000)
      && (l.root !in boot || item.base >= 0x8000_0000_0000 ==>
            (UserMayUse(s1.pages.mem, l.root, page) <==> item.base < 0x8000_0000_0000))
      && MayWrite(s1.pages.mem, l.root, page)
    decreases |calls|
  {
    if calls == [] {
      RecordedAccess(s, l, i, k, boot);
    } else {
      var c := calls[0];
      AllocKeepsInv(s, l, c.base, c.size, c.flags);
      AllocKeepsAccess(s, l, c.base, c.size, c.flags, boot);
      RunAccess(AllocAt(s, l, c.base, c.size, c.flags), l, calls[1..], i, k, boot);
    }
  }

  lemma RecordedAccess(s: Space, l: Layout, i: nat, k: nat, boot: set<Frame>)
    requires Inv(s, l) && AccessOk(s, l, boot) && i < |Recorded(s.containers)|
    requires var item := Recorded(s.containers)[i]; !Bit(item.flags, 7) && k < item.size / PageSize(l.depth)
    ensures var item := Recorded(s.containers)[i];
      var page := PagePath(l.depth, PageOn(l.depth, item.base, k));
      && LeafOk(s.pages, l, item.base, item.flags, k)
      && (l.root !in boot || item.base >= LOWER_HALF_END ==>
            (UserMayUse(s.pages.mem, l.root, page) <==> item.base < LOWER_HALF_END))
      && MayWrite(s.pages.mem, l.root, page)
  {
    var item := Recorded(s.containers)[i];
    var a := PageOn(l.depth, item.base, k);
    assert ItemOk(s.pages, l, item) && LeafOk(s.pages, l, item.base, item.flags, k);
    ItemPageLeads(s, l, i, k);
    ItemPageLeads(s, l, i, 0);
    InSpan(l.lo, l.hi, a);
    InSpan(l.lo, l.hi, item.base);
    HalfOfAddress(a);
    HalfOfAddress(item.base);
    UserReach(s.pages, l.depth, l.root, PagePath(l.depth, a), boot);
    WritableIff(s.pages, l.depth, l.root, PagePath(l.depth, a), boot);
  }

  lemma NothingRecorded(l: Layout, pages: State)
    ensures Recorded(FirstSpace(l, pages).containers) == []
  {
    var cs := FirstSpace(l, pages).containers;
    assert cs[..0] == [] && Recorded(cs[..0]) == [];
  }

  /** The state that initialisation leaves is such a state. */
  lemma InitialAccess(st: State, l: Layout, boot: set<Frame>)
    requires CanBackRange(st, l, l.dataStart, 1, 0) && EntriesOk(st, l.depth, boot)
    ensures AccessOk(InitialSpace(st, l), l, boot)
  {
    RangeKeepsEntriesOk(st, l, l.dataStart, 1, 0, boot);
    NothingRecorded(l, BackRange(st, l, l.dataStart, 1, 0));
  }
}
