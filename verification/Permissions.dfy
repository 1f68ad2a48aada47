/** Who may use a page: the bits of the entries on its path, as mapping writes them and as the processor
    looks at them (section 4.6 of the Intel 64 and IA-32 SDM Volume 3A). */
module Permissions {
  import opened Bits
  import opened PageTable
  import opened Addresses
  import opened Mapping
  import opened PageMapper
  import opened AddressSpaces

  // ----- bits of the words that are written -----

  lemma FlagBits(k: nat)
    ensures Bit(PRESENT_BIT, k) <==> k == 0
    ensures Bit(WRITE_BIT, k) <==> k == 1
    ensures Bit(USER_LEVEL, k) <==> k == 2
    ensures Bit(HUGEPAGE_BIT, k) <==> k == 7
    ensures !Bit(0, k)
  {
    assert Pow2(0) == 1 && Pow2(1) == 2 && Pow2(2) == 4;
    assert Pow2(7) == 0x80 by { assert Pow2(5) == 0x20; }
    Pow2Bit(0, k);
    Pow2Bit(1, k);
    Pow2Bit(2, k);
    Pow2Bit(7, k);
    ZeroBit(k);
  }

  lemma {:induction false} MultipleBit(a: nat, n: nat, k: nat)
    requires k < n
    ensures !Bit(Pow2(n) * a, k)
    decreases k
  {
    var half := Pow2(n - 1) * a;
    assert Pow2(n) * a == 2 * half;
    if k > 0 {
      assert Pow2(n) * a / 2 == half;
      MultipleBit(a, n - 1, k - 1);
    }
  }

  /** The low bits of a frame address are free for flags. */
  lemma AlignedBit(f: Frame, k: nat)
    requires Aligned(f) && k < 12
    ensures !Bit(f, k)
  {
    Pow2At12();
    assert f == Pow2(12) * (f / 0x1000);
    MultipleBit(f / 0x1000, 12, k);
  }

  /** The word that links a table is present and writable, and carries the user bit if it is asked for. */
  lemma TableEntryBits(table: Frame, user: nat, k: nat)
    requires Aligned(table) && user in {0, USER_LEVEL} && k < 12
    ensures Bit(TableEntry(table, user), k) <==> k == 0 || k == 1 || (k == 2 && user == USER_LEVEL)
  {
    FlagBits(k);
    AlignedBit(table, k);
    OrBit(user, WRITE_BIT, k);
    OrBit(Or(user, WRITE_BIT), PRESENT_BIT, k);
    OrBit(table, Or(Or(user, WRITE_BIT), PRESENT_BIT), k);
  }

  /** The word of a page has the bits of the frame address and of the flags, the user bit if it is asked
      for, and with large pages the bit that says so. */
  lemma LeafEntryBits(depth: nat, phys: Frame, flags: nat, user: nat, k: nat)
    requires user in {0, USER_LEVEL}
    ensures Bit(LeafEntry(depth, phys, flags, user), k) <==>
      Bit(phys, k) || Bit(flags, k) || (k == 2 && user == USER_LEVEL) || (k == 7 && depth != 4)
  {
    var f := Or(flags, user);
    FlagBits(k);
    OrBit(flags, user, k);
    OrBit(HUGEPAGE_BIT, f, k);
    OrBit(Or(HUGEPAGE_BIT, f), user, k);
    OrBit(phys, Low(depth, flags, user), k);
  }

  // ----- the entries on a path -----

  /** The entry that a walk reads at level k, if it gets there. */
  function EntryAt(mem: Memory, f: Frame, path: Path, k: nat): Option<Word>
    requires k < |path|
    decreases k
  {
    var e := Read(mem, f, path[0]);
    if k == 0 then Some(e) else if Present(e) then EntryAt(mem, Base(e), path[1..], k - 1) else None
  }

  ghost predicate PresentEntry(mem: Memory, f: Frame, path: Path, k: nat)
    requires k < |path|
  {
    EntryAt(mem, f, path, k).Some? && Present(EntryAt(mem, f, path, k).value)
  }

  ghost predicate LinksTable(e: Word, user: nat) {
    exists n :: Aligned(n) && e == TableEntry(n, user)
  }

  /** The entry at level k is what it was if it was present, and has been written otherwise: links above,
      the leaf below. */
  ghost predicate WrittenAt(mem: Memory, mem1: Memory, f: Frame, path: Path, user: nat, leaf: Word, k: nat)
    requires k < |path|
  {
    && EntryAt(mem1, f, path, k).Some?
    && var e := EntryAt(mem1, f, path, k).value;
    if PresentEntry(mem, f, path, k) then e == EntryAt(mem, f, path, k).value
    else if k == |path| - 1 then e == leaf
    else LinksTable(e, user)
  }

  /** The first entry of a path after mapping. */
  lemma FirstWritten(st: State, depth: nat, f: Frame, path: Path, user: nat, leaf: Word)
    requires CanMap(st, depth, f, path, user, leaf)
    ensures var e, e1 := Read(st.mem, f, path[0]), Read(MapPath(st, f, path, user, leaf).mem, f, path[0]);
      if Present(e) then e1 == e
      else if |path| == 1 then e1 == leaf
      else e1 == TableEntry(st.supply[0], user) && Present(e1) && Base(e1) == st.supply[0]
  {
    var e := Read(st.mem, f, path[0]);
    assert TableOk(st.mem, st.labels, depth, f);
    if Present(e) {
      MapKeepsValid(st, depth, f, path, user, leaf);
    } else if |path| > 1 {
      var n, st0 := st.supply[0], LinkNext(st, f, path[0], user);
      LinkNextCanMap(st, depth, f, path, user, leaf);
      TableEntryFields(n, user);
      assert Read(st0.mem, f, path[0]) == TableEntry(n, user);
      MapKeepsValid(st0, depth, n, path[1..], user, leaf);
    }
  }

  /** Mapping writes exactly the entries of the path that are absent. */
  lemma {:induction false} MapWritesEntry(st: State, depth: nat, f: Frame, path: Path, user: nat, leaf: Word, k: nat)
    requires CanMap(st, depth, f, path, user, leaf) && k < |path|
    ensures WrittenAt(st.mem, MapPath(st, f, path, user, leaf).mem, f, path, user, leaf, k)
    decreases |path|
  {
    FirstWritten(st, depth, f, path, user, leaf);
    if k > 0 {
      var e := Read(st.mem, f, path[0]);
      if Present(e) {
        StepDown(st.mem, st.labels, depth, f, path);
        MapWritesEntry(st, depth, Base(e), path[1..], user, leaf, k - 1);
      } else {
        LinkNextCanMap(st, depth, f, path, user, leaf);
        MapWritesEntry(LinkNext(st, f, path[0], user), depth, st.supply[0], path[1..], user, leaf, k - 1);
        assert TableOk(st.mem, st.labels, depth, f);
        NothingBehindZero(LinkNext(st, f, path[0], user).mem, st.supply[0], path[1..], k - 1);
      }
    }
  }

  /** How far `vm_walk_table` gets: the entries above its level are present, and the one at it is not, unless it
      is the leaf. */
  lemma {:induction false} WalkLevelIs(mem: Memory, f: Frame, path: Path)
    requires path != []
    ensures var n := WalkLevel(mem, f, path);
      && n < |path| && (forall k :: 0 <= k < n ==> PresentEntry(mem, f, path, k))
      && (n < |path| - 1 ==> !PresentEntry(mem, f, path, n))
    ensures Walk(mem, f, path) ==
      if PresentEntry(mem, f, path, |path| - 1) then EntryAt(mem, f, path, |path| - 1) else None
    decreases |path|
  {
    var e := Read(mem, f, path[0]);
    if |path| > 1 && Present(e) {
      WalkLevelIs(mem, Base(e), path[1..]);
      forall k | 0 < k < |path|
        ensures PresentEntry(mem, f, path, k) <==> PresentEntry(mem, Base(e), path[1..], k - 1) {}
    }
  }

  lemma {:induction false} LastEntry(mem: Memory, f: Frame, path: Path)
    requires path != []
    ensures EntryAt(mem, f, path, |path| - 1) ==
      match LastTable(mem, f, path) case None => None case Some(t) => Some(Read(mem, t, Last(path)))
    decreases |path|
  {
    if |path| > 1 && Present(Read(mem, f, path[0])) { LastEntry(mem, Base(Read(mem, f, path[0])), path[1..]); }
  }

  /** Unmapping a page that is mapped leaves a zero word in its entry. */
  lemma UnmapClearsEntry(st: State, depth: nat, f: Frame, path: Path)
    requires Valid(st, depth) && LeadsToLeaf(st.labels, depth, f, path) && Walk(st.mem, f, path).Some?
    ensures EntryAt(UnmapPath(st, f, path).mem, f, path, |path| - 1) == Some(0)
  {
    UnmapIsLeafWrite(st, f, path);
    UnmapWalks(st, depth, f, path, f, path);
    LastEntry(UnmapPath(st, f, path).mem, f, path);
    LastTableLabel(st.mem, st.labels, depth, f, path);
    assert TableOk(st.mem, st.labels, depth, LastTable(st.mem, f, path).value);
  }

  lemma NothingBehindZero(mem: Memory, f: Frame, path: Path, k: nat)
    requires k < |path| && Read(mem, f, path[0]) == 0
    ensures !PresentEntry(mem, f, path, k)
  {}

  /** What a call of either mapping routine leaves at level k of the path of its address: an entry that was
      present stays; a new link is present and writable and lets user mode pass exactly in the lower half; a
      new leaf has the bits of the frame and of the flags, and in the lower half the user bit. */
  lemma MappedBits(st: State, depth: nat, root: Frame, phys: Frame, v: nat, flags: nat, k: nat)
    requires depth in {3, 4} && Valid(st, depth) && IsRoot(st, root) && k < depth
    requires Canonical(v) && Pml4Entry(v) != RECURSIVE_SLOT && |st.supply| >= Missing(st.mem, root, PagePath(depth, v))
    ensures var page, st1 := PagePath(depth, v), Mapped(st, depth, root, phys, v, flags);
      && EntryAt(st1.mem, root, page, k).Some?
      && var e := EntryAt(st1.mem, root, page, k).value;
      if PresentEntry(st.mem, root, page, k) then Some(e) == EntryAt(st.mem, root, page, k)
      else if k < depth - 1 then Bit(e, 0) && Bit(e, 1) && (Bit(e, 2) <==> v < 0x8000_0000_0000)
      else
        && (forall i: nat :: Bit(e, i) <==>
              Bit(phys, i) || Bit(flags, i) || (i == 2 && v < 0x8000_0000_0000) || (i == 7 && depth == 3))
        && (Aligned(phys) ==>
              && (Bit(e, 0) <==> Bit(flags, 0)) && (Bit(e, 1) <==> Bit(flags, 1))
              && (Bit(e, 2) <==> Bit(flags, 2) || v < 0x8000_0000_0000))
  {
    var page, user := PagePath(depth, v), UserStatus(v);
    var leaf := LeafEntry(depth, phys, flags, user);
    HalfOfAddress(v);
    LeafIsLarge(phys, flags, user);
    MapWritesEntry(st, depth, root, page, user, leaf, k);
    if !PresentEntry(st.mem, root, page, k) {
      if k < depth - 1 {
        var e := EntryAt(Mapped(st, depth, root, phys, v, flags).mem, root, page, k).value;
        var n :| Aligned(n) && e == TableEntry(n, user);
        TableEntryBits(n, user, 0);
        TableEntryBits(n, user, 1);
        TableEntryBits(n, user, 2);
      } else {
        LeafBits(depth, phys, flags, user);
      }
    }
  }

  lemma LeafBits(depth: nat, phys: Frame, flags: nat, user: nat)
    requires depth in {3, 4} && user in {0, USER_LEVEL}
    ensures var e := LeafEntry(depth, phys, flags, user);
      && (forall i: nat :: Bit(e, i) <==>
            Bit(phys, i) || Bit(flags, i) || (i == 2 && user == USER_LEVEL) || (i == 7 && depth == 3))
      && (Aligned(phys) ==> !Bit(phys, 0) && !Bit(phys, 1) && !Bit(phys, 2))
  {
    forall i: nat { LeafEntryBits(depth, phys, flags, user, i); }
    if Aligned(phys) {
      AlignedBit(phys, 0);
      AlignedBit(phys, 1);
      AlignedBit(phys, 2);
    }
  }

  // ----- who may use a page, over runs -----

  /** An entry below a root: an entry of the root in the higher half is closed to user mode, a link is
      writable, and in the lower half an entry lets user mode pass, unless its table was made at boot. */
  ghost predicate EntryOk(depth: nat, prefix: Path, i: nat, e: Word, atBoot: bool) {
    && (!atBoot && (if prefix == [] then i else prefix[0]) < LOWER_HALF ==> Bit(e, 2))
    && (prefix == [] && i >= LOWER_HALF ==> !Bit(e, 2))
    && (|prefix| + 1 < depth ==> Bit(e, 1))
  }

  /** The tables made at boot, the root of the kernel among them, hang in each other. */
  ghost predicate BootTables(labels: Labels, boot: set<Frame>) {
    forall g :: g in boot ==> g in labels && labels[g].parent in boot
  }

  ghost predicate EntriesOk(st: State, depth: nat, boot: set<Frame>) {
    && BootTables(st.labels, boot)
    && forall g, i :: g in st.labels && 0 <= i < TABLE_ENTRIES && Present(Read(st.mem, g, i)) ==>
         EntryOk(depth, st.labels[g].prefix, i, Read(st.mem, g, i), g in boot)
  }

  /** A path that starts at table f lies in the lower half. */
  ghost predicate InLowerHalf(labels: Labels, f: Frame, path: Path)
    requires f in labels && path != []
  {
    (if labels[f].prefix == [] then path[0] else labels[f].prefix[0]) < LOWER_HALF
  }

  /** The user bits that mapping a path is to write. */
  ghost predicate UserBitsFit(labels: Labels, f: Frame, path: Path, user: nat, leaf: Word)
    requires f in labels && path != []
  {
    (user == USER_LEVEL <==> InLowerHalf(labels, f, path)) && (InLowerHalf(labels, f, path) ==> Bit(leaf, 2))
  }

  lemma LinkKeepsEntriesOk(st: State, depth: nat, f: Frame, i: nat, user: nat, boot: set<Frame>)
    requires EntriesOk(st, depth, boot) && Valid(st, depth) && st.supply != []
    requires CanLink(st.mem, st.labels, depth, f, i, st.supply[0], user)
    requires user == USER_LEVEL <==> InLowerHalf(st.labels, f, [i])
    ensures EntriesOk(LinkNext(st, f, i, user), depth, boot)
  {
    var n, st0 := st.supply[0], LinkNext(st, f, i, user);
    assert TableOk(st.mem, st.labels, depth, f);
    forall g, k | g in st0.labels && 0 <= k < TABLE_ENTRIES && Present(Read(st0.mem, g, k))
      ensures EntryOk(depth, st0.labels[g].prefix, k, Read(st0.mem, g, k), g in boot)
    {
      if g == f && k == i {
        TableEntryBits(n, user, 1);
        TableEntryBits(n, user, 2);
      } else {
        assert Read(st0.mem, g, k) == if g == n then 0 else Read(st.mem, g, k);
      }
    }
  }

  lemma {:induction false} MapKeepsEntriesOk(st: State, depth: nat, f: Frame, path: Path, user: nat, leaf: Word,
                                             boot: set<Frame>)
    requires depth >= 3 && CanMap(st, depth, f, path, user, leaf) && EntriesOk(st, depth, boot)
    requires UserBitsFit(st.labels, f, path, user, leaf)
    ensures EntriesOk(MapPath(st, f, path, user, leaf), depth, boot)
    decreases |path|
  {
    var e := Read(st.mem, f, path[0]);
    if |path| == 1 {
      LeafKeepsEntriesOk(st, depth, f, path[0], leaf, boot);
    } else if Present(e) {
      StepDown(st.mem, st.labels, depth, f, path);
      MapKeepsEntriesOk(st, depth, Base(e), path[1..], user, leaf, boot);
    } else {
      LinkNextCanMap(st, depth, f, path, user, leaf);
      LinkKeepsEntriesOk(st, depth, f, path[0], user, boot);
      MapKeepsEntriesOk(LinkNext(st, f, path[0], user), depth, st.supply[0], path[1..], user, leaf, boot);
    }
  }

  lemma LeafKeepsEntriesOk(st: State, depth: nat, f: Frame, i: nat, leaf: Word, boot: set<Frame>)
    requires EntriesOk(st, depth, boot) && f in st.labels && |st.labels[f].prefix| + 1 == depth && depth >= 3
    requires Present(leaf) && st.labels[f].prefix[0] < LOWER_HALF ==> Bit(leaf, 2)
    ensures EntriesOk(st.(mem := Write(st.mem, f, i, leaf)), depth, boot)
  {
    var mem1 := Write(st.mem, f, i, leaf);
    forall g, k | g in st.labels && 0 <= k < TABLE_ENTRIES && Present(Read(mem1, g, k))
      ensures EntryOk(depth, st.labels[g].prefix, k, Read(mem1, g, k), g in boot)
    {
      assert Read(mem1, g, k) == Read(st.mem, g, k) || (g == f && k == i && Read(mem1, g, k) == leaf);
    }
  }

  lemma NewTaskKeepsEntriesOk(st: State, depth: nat, kernel: Frame, boot: set<Frame>)
    requires System(st, depth, kernel) && st.supply != [] && EntriesOk(st, depth, boot)
    ensures EntriesOk(NewTask(st, kernel), depth, boot)
  {
    var n, st1 := st.supply[0], NewTask(st, kernel);
    forall g, i | g in st1.labels && 0 <= i < TABLE_ENTRIES && Present(Read(st1.mem, g, i))
      ensures EntryOk(depth, st1.labels[g].prefix, i, Read(st1.mem, g, i), g in boot)
    {
      if g == n {
        assert Read(st1.mem, n, i) == RootEntry(st.mem, kernel, n, i);
        if i == RECURSIVE_SLOT { SlotBits(n); }
      } else {
        assert Read(st1.mem, g, i) == Read(st.mem, g, i);
      }
    }
  }

  lemma SlotBits(n: Frame)
    requires Aligned(n)
    ensures var e := Or(Or(n, PRESENT_BIT), WRITE_BIT); !Bit(e, 2) && Bit(e, 1)
  {
    AlignedBit(n, 2);
    FlagBits(1);
    FlagBits(2);
    OrBit(n, PRESENT_BIT, 2);
    OrBit(Or(n, PRESENT_BIT), WRITE_BIT, 1);
    OrBit(Or(n, PRESENT_BIT), WRITE_BIT, 2);
  }

  lemma StepKeepsEntriesOk(st: State, depth: nat, kernel: Frame, op: Op, boot: set<Frame>)
    requires System(st, depth, kernel) && Enabled(st, depth, op) && EntriesOk(st, depth, boot)
    ensures EntriesOk(Step(st, depth, kernel, op), depth, boot)
  {
    match op
    case CreateTask => NewTaskKeepsEntriesOk(st, depth, kernel, boot);
    case MapPage(r, page, phys, flags) =>
      var user := UserOf(page);
      LeafEntryFields(depth, phys, flags, user);
      LeafEntryBits(depth, phys, flags, user, 2);
      MapKeepsEntriesOk(st, depth, r, page, user, LeafEntry(depth, phys, flags, user), boot);
    case UnmapPage(r, page) =>
      UnmapIsLeafWrite(st, r, page);
      if Walk(st.mem, r, page).Some? {
        LastTableLabel(st.mem, st.labels, depth, r, page);
        LeafKeepsEntriesOk(st, depth, LastTable(st.mem, r, page).value, Last(page), 0, boot);
      }
  }

  /** User mode may use a page: every entry on its path is present and has the user bit. */
  predicate UserMayUse(mem: Memory, f: Frame, path: Path)
    requires path != []
    decreases |path|
  {
    var e := Read(mem, f, path[0]);
    Bit(e, 0) && Bit(e, 2) && (|path| == 1 || UserMayUse(mem, Base(e), path[1..]))
  }

  /** Writes to a page are allowed: every entry on its path is present and writable. */
  predicate MayWrite(mem: Memory, f: Frame, path: Path)
    requires path != []
    decreases |path|
  {
    var e := Read(mem, f, path[0]);
    Bit(e, 0) && Bit(e, 1) && (|path| == 1 || MayWrite(mem, Base(e), path[1..]))
  }

  /** A page that user mode may use is mapped. */
  lemma {:induction false} UsableIsMapped(mem: Memory, f: Frame, path: Path)
    requires path != [] && UserMayUse(mem, f, path)
    ensures Walk(mem, f, path).Some?
    decreases |path|
  {
    var e := Read(mem, f, path[0]);
    if |path| > 1 { UsableIsMapped(mem, Base(e), path[1..]); }
  }

  lemma {:induction false} WritableIff(st: State, depth: nat, f: Frame, path: Path, boot: set<Frame>)
    requires Valid(st, depth) && EntriesOk(st, depth, boot) && LeadsToLeaf(st.labels, depth, f, path)
    ensures MayWrite(st.mem, f, path) <==> Walk(st.mem, f, path).Some? && Bit(Walk(st.mem, f, path).value, 1)
    decreases |path|
  {
    var e := Read(st.mem, f, path[0]);
    if Present(e) {
      assert EntryOk(depth, st.labels[f].prefix, path[0], e, f in boot);
      if |path| > 1 {
        StepDown(st.mem, st.labels, depth, f, path);
        WritableIff(st, depth, Base(e), path[1..], boot);
      }
    }
  }

  /** A mapped page of the lower half, below a table that was not made at boot, is open to user mode. */
  lemma {:induction false} LowerPathIsOpen(st: State, depth: nat, f: Frame, path: Path, boot: set<Frame>)
    requires Valid(st, depth) && EntriesOk(st, depth, boot) && LeadsToLeaf(st.labels, depth, f, path)
    requires f !in boot && InLowerHalf(st.labels, f, path) && Walk(st.mem, f, path).Some?
    ensures UserMayUse(st.mem, f, path)
    decreases |path|
  {
    var e := Read(st.mem, f, path[0]);
    assert EntryOk(depth, st.labels[f].prefix, path[0], e, false);
    if |path| > 1 {
      StepDown(st.mem, st.labels, depth, f, path);
      assert Base(e) !in boot;
      LowerPathIsOpen(st, depth, Base(e), path[1..], boot);
    }
  }

  /** A page of a root: what user mode may use is mapped in the lower half; what a root maps in the higher half,
      its tables in the recursive slot included, is closed to user mode whatever the flags. A root that was not
      made at boot opens all that it maps in the lower half. */
  lemma UserReach(st: State, depth: nat, r: Frame, page: Path, boot: set<Frame>)
    requires Valid(st, depth) && EntriesOk(st, depth, boot) && IsRoot(st, r)
    requires |page| == depth && forall k :: 0 <= k < |page| ==> page[k] < TABLE_ENTRIES
    ensures UserMayUse(st.mem, r, page) ==> page[0] < LOWER_HALF && Walk(st.mem, r, page).Some?
    ensures r !in boot && page[0] < LOWER_HALF && Walk(st.mem, r, page).Some? ==> UserMayUse(st.mem, r, page)
  {
    var e := Read(st.mem, r, page[0]);
    if page[0] < LOWER_HALF {
      if r !in boot && Walk(st.mem, r, page).Some? { LowerPathIsOpen(st, depth, r, page, boot); }
    } else if Present(e) {
      assert EntryOk(depth, [], page[0], e, r in boot);
    }
    if UserMayUse(st.mem, r, page) { UsableIsMapped(st.mem, r, page); }
  }

  /** So it is after every run of task creations, mappings and unmappings, in every root. */
  lemma {:induction false} RunUserReach(st: State, depth: nat, kernel: Frame, ops: seq<Op>, r: Frame, page: Path,
                                        boot: set<Frame>)
    requires System(st, depth, kernel) && EntriesOk(st, depth, boot) && EnabledRun(st, depth, kernel, ops)
    requires IsRoot(Run(st, depth, kernel, ops), r)
    requires |page| == depth && forall k :: 0 <= k < |page| ==> page[k] < TABLE_ENTRIES
    ensures var mem := Run(st, depth, kernel, ops).mem;
      && (UserMayUse(mem, r, page) ==> page[0] < LOWER_HALF && Walk(mem, r, page).Some?)
      && (r !in boot && page[0] < LOWER_HALF && Walk(mem, r, page).Some? ==> UserMayUse(mem, r, page))
      && (page[0] != RECURSIVE_SLOT ==>
            (MayWrite(mem, r, page) <==> Walk(mem, r, page).Some? && Bit(Walk(mem, r, page).value, 1)))
    decreases |ops|
  {
    if ops == [] {
      UserReach(st, depth, r, page, boot);
      if page[0] != RECURSIVE_SLOT { WritableIff(st, depth, r, page, boot); }
    } else {
      StepKeepsSystem(st, depth, kernel, ops[0]);
      StepKeepsEntriesOk(st, depth, kernel, ops[0], boot);
      RunUserReach(Step(st, depth, kernel, ops[0]), depth, kernel, ops[1..], r, page, boot);
    }
  }

  /** The first state of the runs is such a state, whether its root is taken for one made at boot or not. */
  lemma BootEntriesOk(depth: nat, kernel: Frame, supply: seq<Frame>)
    requires depth in {3, 4} && Aligned(kernel) && kernel !in supply
    ensures EntriesOk(BootState(kernel, supply), depth, {kernel}) && EntriesOk(BootState(kernel, supply), depth, {})
  {
    SlotBits(kernel);
  }

  /** A mapping step of a run is a call of a mapping routine. */
  lemma MapStepIsMapped(st: State, depth: nat, kernel: Frame, r: Frame, phys: Frame, v: nat, flags: nat)
    requires Canonical(v) && Enabled(st, depth, MapPage(r, PagePath(depth, v), phys, flags))
    ensures Step(st, depth, kernel, MapPage(r, PagePath(depth, v), phys, flags)) == Mapped(st, depth, r, phys, v, flags)
  {
    HalfOfAddress(v);
  }
}
