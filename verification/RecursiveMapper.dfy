/** The mapping routine that reaches the tables of the active root through its recursive slot, and
    the address translation of the processor that it relies on. */
module RecursiveMapper {
  import opened Bits
  import opened PageTable
  import opened Addresses
  import opened Mapping
  import opened PageMapper

  /** The frame the processor resolves four indices to: 4-level paging, section 4.5 of the Intel 64
      and IA-32 SDM Volume 3A, with the large-page bit honoured at the two middle levels; the address
      bits below the size of a large page are not used. */
  function MmuFrame(mem: Memory, root: Frame, p4: nat, p3: nat, p2: nat, p1: nat): Option<Frame> {
    var e := Read(mem, root, p4);
    if Present(e) then MmuPdpt(mem, Base(e), p3, p2, p1) else None
  }

  function MmuPdpt(mem: Memory, pdpt: Frame, p3: nat, p2: nat, p1: nat): Option<Frame> {
    var e := Read(mem, pdpt, p3);
    if !Present(e) then None
    else if Large(e) then Some(LargeBase(e, 0x4000_0000) + p2 * 0x20_0000 + p1 * 0x1000)
    else MmuPd(mem, Base(e), p2, p1)
  }

  function MmuPd(mem: Memory, pd: Frame, p2: nat, p1: nat): Option<Frame> {
    var e := Read(mem, pd, p2);
    if !Present(e) then None
    else if Large(e) then Some(LargeBase(e, 0x20_0000) + p1 * 0x1000)
    else MmuPt(mem, Base(e), p1)
  }

  /** The address of a large page of this size. */
  function LargeBase(e: Word, size: nat): Frame
    requires size > 0
  {
    Base(e) / size * size
  }

  function MmuPt(mem: Memory, pt: Frame, p1: nat): Option<Frame> {
    var e := Read(mem, pt, p1);
    if Present(e) then Some(Base(e)) else None
  }

  /** The frame behind a virtual address. */
  function Mmu(mem: Memory, root: Frame, v: nat): Option<Frame> {
    MmuFrame(mem, root, Pml4Entry(v), PdprEntry(v), PdEntry(v), PtEntry(v))
  }

  /** The processor and `vm_walk_table` agree on every address of a well-formed tree. */
  lemma MmuAgreesWithWalk(mem: Memory, labels: Labels, depth: nat, root: Frame, v: nat)
    requires depth in {3, 4} && WellFormed(mem, labels, depth)
    requires root in labels && labels[root].prefix == [] && Pml4Entry(v) != RECURSIVE_SLOT
    ensures Mmu(mem, root, v) ==
      match Walk(mem, root, PagePath(depth, v))
      case None => None
      case Some(e) => Some(if depth == 3 then LargeBase(e, 0x20_0000) + PtEntry(v) * 0x1000 else Base(e))
  {
    var page := PagePath(depth, v);
    var e4 := Read(mem, root, page[0]);
    if Present(e4) {
      StepDown(mem, labels, depth, root, page);
      var t3, page1 := Base(e4), page[1..];
      var e3 := Read(mem, t3, page1[0]);
      assert Walk(mem, root, page) == Walk(mem, t3, page1);
      if Present(e3) {
        assert LinkOk(mem, labels, depth, t3, page1[0]);
        StepDown(mem, labels, depth, t3, page1);
        var t2, page2 := Base(e3), page1[1..];
        assert Walk(mem, t3, page1) == Walk(mem, t2, page2);
        assert LinkOk(mem, labels, depth, t2, page2[0]);
        if depth == 4 && Present(Read(mem, t2, page2[0])) {
          assert Walk(mem, t2, page2) == Walk(mem, Base(Read(mem, t2, page2[0])), page2[1..]);
        }
      }
    }
  }

  /** Entry 510 of the root points to the root itself. */
  predicate Recursive(mem: Memory, root: Frame) {
    var e := Read(mem, root, RECURSIVE_SLOT);
    Present(e) && !Large(e) && Base(e) == root
  }

  /** The indices at which the table below `prefix` appears in the recursive window. */
  function WindowPath(prefix: Path): (w: Path)
    requires |prefix| <= 4
    ensures |w| == 4
    decreases 4 - |prefix|
  {
    if |prefix| == 4 then prefix else WindowPath([RECURSIVE_SLOT] + prefix)
  }

  /** The window path written out for each level. */
  lemma {:induction false} WindowPathIs(prefix: Path)
    requires |prefix| <= 3
    ensures WindowPath(prefix) ==
      if |prefix| == 0 then [510, 510, 510, 510]
      else if |prefix| == 1 then [510, 510, 510, prefix[0]]
      else if |prefix| == 2 then [510, 510, prefix[0], prefix[1]]
      else [510, prefix[0], prefix[1], prefix[2]]
    decreases 4 - |prefix|
  {
    if |prefix| == 3 {
      assert [RECURSIVE_SLOT] + prefix == [510, prefix[0], prefix[1], prefix[2]];
    } else {
      WindowPathIs([RECURSIVE_SLOT] + prefix);
    }
  }

  /** The pointers that the source writes out. */
  lemma PointerIs(prefix: Path)
    requires |prefix| <= 3
    ensures TablePointer(prefix) ==
      if |prefix| == 0 then EntriesToAddress(510, 510, 510, 510)
      else if |prefix| == 1 then EntriesToAddress(510, 510, 510, prefix[0])
      else if |prefix| == 2 then EntriesToAddress(510, 510, prefix[0], prefix[1])
      else EntriesToAddress(510, prefix[0], prefix[1], prefix[2])
  {
    WindowPathIs(prefix);
  }

  function TablePointer(prefix: Path): nat
    requires |prefix| <= 3
  {
    var w := WindowPath(prefix);
    EntriesToAddress(w[0], w[1], w[2], w[3])
  }

  /** The table reached from f by following `prefix` through table entries. */
  function TableAt(mem: Memory, f: Frame, prefix: Path): Option<Frame>
    decreases |prefix|
  {
    if prefix == [] then Some(f)
    else
      var e := Read(mem, f, prefix[0]);
      if Present(e) && !Large(e) then TableAt(mem, Base(e), prefix[1..]) else None
  }

  /** Every pointer of the recursive window resolves to the table it names, at every offset. */
  lemma PointerResolves(mem: Memory, root: Frame, prefix: Path, t: Frame, offset: nat)
    requires Recursive(mem, root)
    requires |prefix| <= 3 && Bounded(WindowPath(prefix))
    requires TableAt(mem, root, prefix) == Some(t) && offset < 0x1000
    ensures Mmu(mem, root, TablePointer(prefix) + offset) == Some(t)
  {
    WindowResolves(mem, root, prefix, t);
    PointerOfWindow(mem, root, prefix, t, offset);
  }

  lemma PointerOfWindow(mem: Memory, root: Frame, prefix: Path, t: Frame, offset: nat)
    requires |prefix| <= 3 && Bounded(WindowPath(prefix))
    requires ResolvesTo(mem, root, WindowPath(prefix), t) && offset < 0x1000
    ensures Mmu(mem, root, TablePointer(prefix) + offset) == Some(t)
  {
    WindowAddress(mem, root, WindowPath(prefix), t, offset, TablePointer(prefix));
  }

  ghost predicate Bounded(w: Path) {
    |w| == 4 && w[0] < TABLE_ENTRIES && w[1] < TABLE_ENTRIES && w[2] < TABLE_ENTRIES && w[3] < TABLE_ENTRIES
  }

  lemma WindowBounds(prefix: Path)
    requires |prefix| <= 3 && (forall k :: 0 <= k < |prefix| ==> prefix[k] < TABLE_ENTRIES)
    ensures Bounded(WindowPath(prefix))
  {
    WindowPathIs(prefix);
  }

  /** The processor resolves these four indices to frame t. */
  ghost predicate ResolvesTo(mem: Memory, root: Frame, w: Path, t: Frame) {
    |w| == 4 && MmuFrame(mem, root, w[0], w[1], w[2], w[3]) == Some(t)
  }

  lemma WindowAddress(mem: Memory, root: Frame, w: Path, t: Frame, offset: nat, v: nat)
    requires ResolvesTo(mem, root, w, t) && offset < 0x1000 && Bounded(w)
    requires v == EntriesToAddress(w[0], w[1], w[2], w[3])
    ensures Mmu(mem, root, v + offset) == Some(t)
  {
    MmuOfEntries(mem, root, w[0], w[1], w[2], w[3], offset);
  }

  lemma MmuOfEntries(mem: Memory, root: Frame, pml4: nat, pdpr: nat, pd: nat, pt: nat, offset: nat)
    requires pml4 < 512 && pdpr < 512 && pd < 512 && pt < 512 && offset < 0x1000
    ensures Mmu(mem, root, EntriesToAddress(pml4, pdpr, pd, pt) + offset) == MmuFrame(mem, root, pml4, pdpr, pd, pt)
  {
    EntriesOfAddress(pml4, pdpr, pd, pt, offset);
  }

  lemma WindowResolves(mem: Memory, root: Frame, prefix: Path, t: Frame)
    requires Recursive(mem, root) && |prefix| <= 3 && TableAt(mem, root, prefix) == Some(t)
    ensures ResolvesTo(mem, root, WindowPath(prefix), t)
  {
    var w := WindowPath(prefix);
    WindowPathIs(prefix);
    assert MmuFrame(mem, root, w[0], w[1], w[2], w[3]) == MmuPdpt(mem, root, w[1], w[2], w[3]);
    if |prefix| == 0 {
      assert MmuPdpt(mem, root, w[1], w[2], w[3]) == MmuPd(mem, root, w[2], w[3]) == MmuPt(mem, root, w[3]);
    } else if |prefix| == 1 {
      assert MmuPdpt(mem, root, w[1], w[2], w[3]) == MmuPd(mem, root, w[2], w[3]) == MmuPt(mem, root, w[3]);
      assert TableAt(mem, Base(Read(mem, root, prefix[0])), prefix[1..]) == Some(t);
    } else if |prefix| == 2 {
      var t1 := Base(Read(mem, root, prefix[0]));
      assert MmuPdpt(mem, root, w[1], w[2], w[3]) == MmuPd(mem, root, w[2], w[3]) == MmuPt(mem, t1, w[3]);
      TableAtTwo(mem, root, prefix, t);
    } else {
      var t1 := Base(Read(mem, root, prefix[0]));
      assert TableAt(mem, t1, prefix[1..]) == Some(t);
      TableAtTwo(mem, t1, prefix[1..], t);
      assert prefix[1..][0] == prefix[1] && prefix[1..][1] == prefix[2];
      var t2 := Base(Read(mem, t1, prefix[1]));
      assert MmuPdpt(mem, root, w[1], w[2], w[3]) == MmuPd(mem, t1, w[2], w[3]) == MmuPt(mem, t2, w[3]);
    }
  }

  lemma TableAtTwo(mem: Memory, f: Frame, prefix: Path, t: Frame)
    requires |prefix| == 2 && TableAt(mem, f, prefix) == Some(t)
    ensures var e := Read(mem, f, prefix[0]);
      var e' := Read(mem, Base(e), prefix[1]);
      Present(e) && !Large(e) && Present(e') && !Large(e') && Base(e') == t
  {
    assert prefix[1..][0] == prefix[1];
    assert TableAt(mem, Base(Read(mem, f, prefix[0])), prefix[1..]) == Some(t);
  }

  lemma {:induction false} TableAtExtends(mem: Memory, f: Frame, prefix: Path, i: nat, t: Frame)
    requires TableAt(mem, f, prefix) == Some(t) && Present(Read(mem, t, i)) && !Large(Read(mem, t, i))
    ensures TableAt(mem, f, prefix + [i]) == Some(Base(Read(mem, t, i)))
    decreases |prefix|
  {
    if prefix == [] {
      assert prefix + [i] == [i];
    } else {
      TableAtExtends(mem, Base(Read(mem, f, prefix[0])), prefix[1..], i, t);
      assert (prefix + [i])[1..] == prefix[1..] + [i];
    }
  }

  /** A change that keeps the present entries of all labelled tables keeps every table in place. */
  lemma {:induction false} TableAtSurvives(mem: Memory, mem1: Memory, labels: Labels, depth: nat, f: Frame,
                                           prefix: Path)
    requires WellFormed(mem, labels, depth) && f in labels && |labels[f].prefix| + |prefix| < depth
    requires forall k :: 0 <= k < |prefix| ==> prefix[k] < TABLE_ENTRIES
    requires labels[f].prefix == [] && prefix != [] ==> prefix[0] != RECURSIVE_SLOT
    requires forall g, i :: g in labels && Present(Read(mem, g, i)) ==> Read(mem1, g, i) == Read(mem, g, i)
    requires TableAt(mem, f, prefix).Some?
    ensures TableAt(mem1, f, prefix) == TableAt(mem, f, prefix)
    decreases |prefix|
  {
    if prefix != [] {
      assert LinkOk(mem, labels, depth, f, prefix[0]);
      TableAtSurvives(mem, mem1, labels, depth, Base(Read(mem, f, prefix[0])), prefix[1..]);
    }
  }

  // ----- accesses through virtual addresses -----

  method ReadVirtual(pt: PageTables, cr3: Frame, table: nat, i: nat) returns (w: Word)
    requires i < TABLE_ENTRIES && Mmu(pt.mem, cr3, table + 8 * i).Some?
    ensures w == Read(pt.mem, Mmu(pt.mem, cr3, table + 8 * i).value, i)
  {
    var f := Mmu(pt.mem, cr3, table + 8 * i).value;
    w := Read(pt.mem, f, i);
  }

  method WriteVirtual(pt: PageTables, cr3: Frame, table: nat, i: nat, w: Word)
    requires i < TABLE_ENTRIES && Mmu(pt.mem, cr3, table + 8 * i).Some?
    modifies pt`mem
    ensures pt.mem == Write(old(pt.mem), Mmu(old(pt.mem), cr3, table + 8 * i).value, i, w)
  {
    var f := Mmu(pt.mem, cr3, table + 8 * i).value;
    pt.mem := Write(pt.mem, f, i, w);
  }

  /** What the recursive mapper knows at a table that it reaches at `prefix`. */
  ghost predicate Reached(st: State, depth: nat, cr3: Frame, prefix: Path, table: Frame, path: Path, user: nat,
                          leaf: Word)
  {
    && CanMap(st, depth, table, path, user, leaf)
    && depth <= 4 && |prefix| + |path| == depth
    && IsRoot(st, cr3) && Recursive(st.mem, cr3)
    && (forall k :: 0 <= k < |prefix| ==> prefix[k] < TABLE_ENTRIES)
    && (prefix != [] ==> prefix[0] != RECURSIVE_SLOT)
    && TableAt(st.mem, cr3, prefix) == Some(table)
  }

  lemma LinkNextReached(st: State, depth: nat, cr3: Frame, prefix: Path, table: Frame, path: Path, user: nat,
                        leaf: Word)
    requires Reached(st, depth, cr3, prefix, table, path, user, leaf)
    requires |path| > 1 && !Present(Read(st.mem, table, path[0]))
    ensures Reached(LinkNext(st, table, path[0], user), depth, cr3, prefix + [path[0]], st.supply[0], path[1..], user,
      leaf)
  {
    var st1 := LinkNext(st, table, path[0], user);
    LinkNextCanMap(st, depth, table, path, user, leaf);
    TableEntryFields(st.supply[0], user);
    assert TableOk(st.mem, st.labels, depth, table);
    assert Read(st1.mem, table, path[0]) == TableEntry(st.supply[0], user);
    TableAtSurvives(st.mem, st1.mem, st.labels, depth, cr3, prefix);
    TableAtExtends(st1.mem, cr3, prefix, path[0], table);
  }

  /** The pointer of a table that has just been linked resolves to it. */
  lemma ChildResolves(before: State, mem: Memory, depth: nat, cr3: Frame, prefix: Path, table: Frame, i: nat, n: Frame,
                      offset: nat)
    requires WellFormed(before.mem, before.labels, depth) && |prefix| <= 2
    requires IsRoot(before, cr3) && Recursive(before.mem, cr3) && TableAt(before.mem, cr3, prefix) == Some(table)
    requires |prefix| + 1 < depth && i < TABLE_ENTRIES && table in before.labels
    requires forall k :: 0 <= k < |prefix| ==> prefix[k] < TABLE_ENTRIES
    requires prefix != [] ==> prefix[0] != RECURSIVE_SLOT
    requires forall g, k :: g in before.labels && Present(Read(before.mem, g, k)) ==>
      Read(mem, g, k) == Read(before.mem, g, k)
    requires var e := Read(mem, table, i); Present(e) && !Large(e) && Base(e) == n
    requires offset < 0x1000
    ensures Mmu(mem, cr3, TablePointer(prefix + [i]) + offset) == Some(n)
  {
    TableAtSurvives(before.mem, mem, before.labels, depth, cr3, prefix);
    TableAtExtends(mem, cr3, prefix, i, table);
    WindowBounds(prefix + [i]);
    PointerResolves(mem, cr3, prefix + [i], n, offset);
  }

  /** `clean_new_table` on the pointer of the table just linked at entry i of `table`. */
  method CleanVirtual(pt: PageTables, cr3: Frame, childPointer: nat, ghost prefix: Path, ghost table: Frame,
                      ghost i: nat, ghost n: Frame, ghost before: State)
    requires WellFormed(before.mem, before.labels, pt.depth) && |prefix| <= 2
    requires IsRoot(before, cr3) && Recursive(before.mem, cr3) && TableAt(before.mem, cr3, prefix) == Some(table)
    requires |prefix| + 1 < pt.depth && i < TABLE_ENTRIES && table in before.labels
    requires forall k :: 0 <= k < |prefix| ==> prefix[k] < TABLE_ENTRIES
    requires prefix != [] ==> prefix[0] != RECURSIVE_SLOT
    requires n !in before.labels && IsTable(pt.mem, n)
    requires forall g, k :: g in before.labels && Present(Read(before.mem, g, k)) ==>
      Read(pt.mem, g, k) == Read(before.mem, g, k)
    requires var e := Read(pt.mem, table, i); Present(e) && !Large(e) && Base(e) == n
    requires childPointer == TablePointer(prefix + [i])
    modifies pt`mem
    ensures pt.mem == old(pt.mem)[n := ZeroTable()]
  {
    var k := 0;
    while k < TABLE_ENTRIES
      invariant 0 <= k <= TABLE_ENTRIES
      invariant IsTable(pt.mem, n) && pt.mem.Keys == old(pt.mem).Keys
      invariant forall g :: g in pt.mem && g != n ==> pt.mem[g] == old(pt.mem)[g]
      invariant forall j :: 0 <= j < k ==> pt.mem[n][j] == 0
    {
      assert forall g, j :: g in before.labels ==> Read(pt.mem, g, j) == Read(old(pt.mem), g, j);
      ChildResolves(before, pt.mem, pt.depth, cr3, prefix, table, i, n, 8 * k);
      WriteVirtual(pt, cr3, childPointer, k, 0);
      k := k + 1;
    }
    assert pt.mem[n] == ZeroTable();
  }

  method LinkVirtual(pt: PageTables, cr3: Frame, tablePointer: nat, i: nat, childPointer: nat, user: nat,
                     ghost prefix: Path, ghost table: Frame, ghost path: Path, ghost leaf: Word)
    returns (ghost next: Frame)
    requires Reached(pt.St(), pt.depth, cr3, prefix, table, path, user, leaf) && !Present(Read(pt.mem, table, i))
    requires |path| > 1 && path[0] == i && tablePointer == TablePointer(prefix)
    requires childPointer == TablePointer(prefix + [i])
    modifies pt`mem, pt`supply, pt`labels
    ensures pt.St() == old(LinkNext(pt.St(), table, i, user)) && next == old(pt.supply)[0]
    ensures Reached(pt.St(), pt.depth, cr3, prefix + [i], next, path[1..], user, leaf)
  {
    ghost var st := pt.St();
    LinkNextReached(st, pt.depth, cr3, prefix, table, path, user, leaf);
    assert TableOk(pt.mem, pt.labels, pt.depth, table);
    var newTable := pt.supply[0];
    TableEntryFields(newTable, user);
    pt.supply := pt.supply[1..];
    WindowBounds(prefix);
    PointerResolves(pt.mem, cr3, prefix, table, 8 * i);
    WriteVirtual(pt, cr3, tablePointer, i, TableEntry(newTable, user));
    next := newTable;
    CleanVirtual(pt, cr3, childPointer, prefix, table, i, newTable, st);
    pt.labels := pt.labels[newTable := Label(table, pt.labels[table].prefix + [i])];
    assert pt.St() == LinkNext(st, table, i, user);
  }

  /** One level of `map_phys_to_virt_addr`: if entry i of the table seen at `tablePointer` is absent,
      link a new table there and clean it through `childPointer`. */
  method EnsureTable(pt: PageTables, cr3: Frame, tablePointer: nat, i: nat, childPointer: nat, user: nat,
                     ghost prefix: Path, ghost table: Frame, ghost path: Path, ghost leaf: Word)
    returns (ghost next: Frame)
    requires Reached(pt.St(), pt.depth, cr3, prefix, table, path, user, leaf)
    requires |path| > 1 && path[0] == i && tablePointer == TablePointer(prefix)
    requires childPointer == TablePointer(prefix + [i])
    modifies pt`mem, pt`supply, pt`labels
    ensures Reached(pt.St(), pt.depth, cr3, prefix + [i], next, path[1..], user, leaf)
    ensures MapPath(pt.St(), next, path[1..], user, leaf) == old(MapPath(pt.St(), table, path, user, leaf))
  {
    WindowBounds(prefix);
    PointerResolves(pt.mem, cr3, prefix, table, 8 * i);
    var entry := ReadVirtual(pt, cr3, tablePointer, i);
    assert TableOk(pt.mem, pt.labels, pt.depth, table);
    if !Present(entry) {
      next := LinkVirtual(pt, cr3, tablePointer, i, childPointer, user, prefix, table, path, leaf);
    } else {
      assert LinkOk(pt.mem, pt.labels, pt.depth, table, i);
      StepDown(pt.mem, pt.labels, pt.depth, table, path);
      next := Base(entry);
      TableAtExtends(pt.mem, cr3, prefix, i, table);
    }
  }

  /** The last level of `map_phys_to_virt_addr`. */
  method FillVirtual(pt: PageTables, cr3: Frame, tablePointer: nat, i: nat, leaf: Word,
                     ghost prefix: Path, ghost table: Frame, ghost user: nat)
    requires Reached(pt.St(), pt.depth, cr3, prefix, table, [i], user, leaf) && tablePointer == TablePointer(prefix)
    modifies pt`mem
    ensures pt.St() == old(MapPath(pt.St(), table, [i], user, leaf))
  {
    assert [i][0] == i;
    WindowBounds(prefix);
    PointerResolves(pt.mem, cr3, prefix, table, 8 * i);
    var entry := ReadVirtual(pt, cr3, tablePointer, i);
    if !Present(entry) {
      WriteVirtual(pt, cr3, tablePointer, i, leaf);
    }
  }

  /** `map_phys_to_virt_addr`: for every address outside the recursive slot of an active root whose
      slot 510 points to itself, the final tables are those of the direct-map routine. */
  method MapRecursive(pt: PageTables, cr3: Frame, phys: Frame, address: Address, flags: nat) returns (r: nat)
    requires pt.Good() && IsRoot(pt.St(), cr3) && Recursive(pt.mem, cr3)
    requires Pml4Entry(address) != RECURSIVE_SLOT
    requires |pt.supply| >= Missing(pt.mem, cr3, PagePath(pt.depth, address))
    modifies pt`mem, pt`supply, pt`labels
    ensures pt.St() == old(Mapped(pt.St(), pt.depth, cr3, phys, address, flags))
    ensures r == address
  {
    var pml4E, pdprE, pdE, ptE := Pml4Entry(address), PdprEntry(address), PdEntry(address), PtEntry(address);
    var pml4Table := EntriesToAddress(510, 510, 510, 510);
    var userModeStatus := 0;
    if !IsHigherHalf(address) {
      userModeStatus := USER_LEVEL;
    }
    var pdprTable := EntriesToAddress(510, 510, 510, pml4E);
    var pdTable := EntriesToAddress(510, 510, pml4E, pdprE);
    var leaf := LeafEntry(pt.depth, phys, flags, userModeStatus);
    LeafIsLarge(phys, flags, userModeStatus);
    ghost var page := PagePath(pt.depth, address);
    ghost var page1, page2 := page[1..], page[1..][1..];
    PointerIs([]);
    PointerIs([] + [pml4E]);
    PointerIs([] + [pml4E] + [pdprE]);
    PointerIs([] + [pml4E] + [pdprE] + [pdE]);
    ghost var t1 := EnsureTable(pt, cr3, pml4Table, pml4E, pdprTable, userModeStatus, [], cr3, page, leaf);
    ghost var t2 := EnsureTable(pt, cr3, pdprTable, pdprE, pdTable, userModeStatus, [] + [pml4E], t1, page1, leaf);
    ghost var prefix2 := [] + [pml4E] + [pdprE];
    if pt.depth == 4 {
      var ptTable := EntriesToAddress(510, pml4E, pdprE, pdE);
      ghost var t3 := EnsureTable(pt, cr3, pdTable, pdE, ptTable, userModeStatus, prefix2, t2, page2, leaf);
      assert page2[1..] == [ptE];
      FillVirtual(pt, cr3, ptTable, ptE, leaf, prefix2 + [pdE], t3, userModeStatus);
    } else {
      assert page2 == [pdE];
      FillVirtual(pt, cr3, pdTable, pdE, leaf, prefix2, t2, userModeStatus);
    }
    return address;
  }
}
