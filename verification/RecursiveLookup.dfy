/** The routines that look at or clear an entry through the recursive slot of the active root. */
module RecursiveLookup {
  import opened Bits
  import opened PageTable
  import opened Addresses
  import opened Mapping
  import opened PageMapper
  import opened RecursiveMapper

  const NOT_MAPPED: nat := 0
  const MAPPED: nat := 1
  const MISMATCH: nat := 2

  /** `table` is the one that the recursive window shows at `prefix`, and `path` leads on from it. A
      path that enters slot 510 comes back to the root, so a table may stand higher than its prefix
      is long. */
  ghost predicate Standing(st: State, depth: nat, cr3: Frame, prefix: Path, table: Frame, path: Path) {
    && depth <= 4 && WellFormed(st.mem, st.labels, depth) && Recursive(st.mem, cr3)
    && path != [] && |prefix| + |path| == depth
    && table in st.labels && |st.labels[table].prefix| <= |prefix| && (st.labels[table].prefix == [] ==> table == cr3)
    && (forall k :: 0 <= k < |prefix| ==> prefix[k] < TABLE_ENTRIES)
    && (forall k :: 0 <= k < |path| ==> path[k] < TABLE_ENTRIES)
    && TableAt(st.mem, cr3, prefix) == Some(table)
  }

  /** Read entry i of the table at a pointer of the window and step down to the table below it. */
  method LookAt(pt: PageTables, cr3: Frame, tablePointer: nat, i: nat, ghost prefix: Path, ghost table: Frame,
                ghost path: Path)
    returns (e: Word)
    requires Standing(pt.St(), pt.depth, cr3, prefix, table, path)
    requires path[0] == i && tablePointer == TablePointer(prefix)
    ensures e == Read(pt.mem, table, i)
    ensures !Present(e) ==> Walk(pt.mem, table, path) == None && UnmapPath(pt.St(), table, path) == pt.St()
    ensures Present(e) && |path| > 1 ==>
      && Standing(pt.St(), pt.depth, cr3, prefix + [i], Base(e), path[1..])
      && Walk(pt.mem, table, path) == Walk(pt.mem, Base(e), path[1..])
      && UnmapPath(pt.St(), table, path) == UnmapPath(pt.St(), Base(e), path[1..])
  {
    WindowBounds(prefix);
    PointerResolves(pt.mem, cr3, prefix, table, 8 * i);
    e := ReadVirtual(pt, cr3, tablePointer, i);
    if Present(e) && |path| > 1 {
      assert LinkOk(pt.mem, pt.labels, pt.depth, table, i);
      TableAtExtends(pt.mem, cr3, prefix, i, table);
    }
  }

  /** `unmap_vaddress`: the same tables as `unmap_vaddress_hh` on the active root. */
  method UnmapRecursive(pt: PageTables, cr3: Frame, address: Address) returns (r: int)
    requires pt.Good() && IsRoot(pt.St(), cr3) && Recursive(pt.mem, cr3)
    modifies pt`mem
    ensures pt.St() == old(UnmapPath(pt.St(), cr3, PagePath(pt.depth, address)))
    ensures r == if old(Walk(pt.mem, cr3, PagePath(pt.depth, address))).None? then -1 else 0
  {
    var pml4E, pdprE, pdE, ptE := Pml4Entry(address), PdprEntry(address), PdEntry(address), PtEntry(address);
    ghost var page := PagePath(pt.depth, address);
    ghost var page1, page2 := page[1..], page[1..][1..];
    PointerIs([]);
    PointerIs([] + [pml4E]);
    PointerIs([] + [pml4E] + [pdprE]);
    PointerIs([] + [pml4E] + [pdprE] + [pdE]);
    ghost var start := pt.St();
    var e4 := LookAt(pt, cr3, EntriesToAddress(510, 510, 510, 510), pml4E, [], cr3, page);
    if !Present(e4) { return -1; }
    ghost var prefix1 := [] + [pml4E];
    var e3 := LookAt(pt, cr3, EntriesToAddress(510, 510, 510, pml4E), pdprE, prefix1, Base(e4), page1);
    if !Present(e3) { return -1; }
    ghost var prefix2 := prefix1 + [pdprE];
    var pdTable := EntriesToAddress(510, 510, pml4E, pdprE);
    var e2 := LookAt(pt, cr3, pdTable, pdE, prefix2, Base(e3), page2);
    if !Present(e2) { return -1; }
    if pt.depth == 3 {
      ClearVirtual(pt, cr3, pdTable, pdE, prefix2, Base(e3), page2);
      return 0;
    }
    ghost var prefix3, page3 := prefix2 + [pdE], page2[1..];
    var ptTable := EntriesToAddress(510, pml4E, pdprE, pdE);
    var e1 := LookAt(pt, cr3, ptTable, ptE, prefix3, Base(e2), page3);
    if !Present(e1) { return -1; }
    ClearVirtual(pt, cr3, ptTable, ptE, prefix3, Base(e2), page3);
    return 0;
  }

  method ClearVirtual(pt: PageTables, cr3: Frame, tablePointer: nat, i: nat, ghost prefix: Path, ghost table: Frame,
                      ghost path: Path)
    requires Standing(pt.St(), pt.depth, cr3, prefix, table, path) && |path| == 1
    requires path[0] == i && tablePointer == TablePointer(prefix) && Present(Read(pt.mem, table, i))
    modifies pt`mem
    ensures pt.St() == old(UnmapPath(pt.St(), table, path))
  {
    WindowBounds(prefix);
    PointerResolves(pt.mem, cr3, prefix, table, 8 * i);
    WriteVirtual(pt, cr3, tablePointer, i, 0);
  }

  /** `ALIGN_PHYSADDRESS`. */
  function AlignDown(depth: nat, a: nat): nat { a - a % PageSize(depth) }

  function Verdict(depth: nat, phys: nat, walk: Option<Word>): nat {
    match walk
    case None => NOT_MAPPED
    case Some(e) => if AlignDown(depth, e) == AlignDown(depth, phys) then MAPPED else MISMATCH
  }

  /** `is_phyisical_address_mapped`. */
  method PhysicalAddressMapped(pt: PageTables, cr3: Frame, phys: nat, address: Address) returns (r: nat)
    requires pt.Good() && IsRoot(pt.St(), cr3) && Recursive(pt.mem, cr3)
    ensures r == Verdict(pt.depth, phys, Walk(pt.mem, cr3, PagePath(pt.depth, address)))
  {
    var pml4E, pdprE, pdE, ptE := Pml4Entry(address), PdprEntry(address), PdEntry(address), PtEntry(address);
    ghost var page := PagePath(pt.depth, address);
    ghost var page1, page2 := page[1..], page[1..][1..];
    PointerIs([]);
    PointerIs([] + [pml4E]);
    PointerIs([] + [pml4E] + [pdprE]);
    PointerIs([] + [pml4E] + [pdprE] + [pdE]);
    var e4 := LookAt(pt, cr3, EntriesToAddress(510, 510, 510, 510), pml4E, [], cr3, page);
    if !Present(e4) { return NOT_MAPPED; }
    ghost var prefix1 := [] + [pml4E];
    var e3 := LookAt(pt, cr3, EntriesToAddress(510, 510, 510, pml4E), pdprE, prefix1, Base(e4), page1);
    if !Present(e3) { return NOT_MAPPED; }
    ghost var prefix2 := prefix1 + [pdprE];
    var e2 := LookAt(pt, cr3, EntriesToAddress(510, 510, pml4E, pdprE), pdE, prefix2, Base(e3), page2);
    if !Present(e2) { return NOT_MAPPED; }
    if pt.depth == 3 {
      return if AlignDown(3, e2) == AlignDown(3, phys) then MAPPED else MISMATCH;
    }
    ghost var prefix3, page3 := prefix2 + [pdE], page2[1..];
    var e1 := LookAt(pt, cr3, EntriesToAddress(510, pml4E, pdprE, pdE), ptE, prefix3, Base(e2), page3);
    if !Present(e1) { return NOT_MAPPED; }
    return if AlignDown(4, e1) == AlignDown(4, phys) then MAPPED else MISMATCH;
  }

  /** The answer is 0, not mapped, for a page without a translation; after it has been mapped to a page frame, 1,
      mapped, for exactly the addresses of that frame and 2, mismatch, for all others; and 0 again after it has
      been unmapped. */
  lemma VerdictAfterMap(st: State, depth: nat, root: Frame, page: Path, user: nat, phys: Frame, flags: nat, asked: nat)
    requires depth in {3, 4} && Aligned(phys) && phys % PageSize(depth) == 0 && flags < 0x1000 && Present(flags)
    requires CanMap(st, depth, root, page, user, LeafEntry(depth, phys, flags, user))
    requires IsRoot(st, root) && Walk(st.mem, root, page).None?
    ensures var st1 := MapPath(st, root, page, user, LeafEntry(depth, phys, flags, user));
      && Verdict(depth, asked, Walk(st.mem, root, page)) == 0
      && Verdict(depth, asked, Walk(st1.mem, root, page)) == (if phys <= asked < phys + PageSize(depth) then 1 else 2)
      && Verdict(depth, asked, Walk(UnmapPath(st1, root, page).mem, root, page)) == 0
  {
    var leaf := LeafEntry(depth, phys, flags, user);
    MapKeepsValid(st, depth, root, page, user, leaf);
    UnmapRefinesRemoval(MapPath(st, root, page, user, leaf), depth, root, page, root, page);
    LeafIsFrameAndLow(depth, phys, flags, user);
    LeafEntryFields(depth, phys, flags, user);
    MapRefinesUpdate(st, depth, root, page, user, LeafEntry(depth, phys, flags, user), root, page);
    AlignDownOf(depth, phys, Low(depth, flags, user));
    if phys <= asked < phys + PageSize(depth) { AlignDownOf(depth, phys, asked - phys); }
  }

  lemma AlignDownOf(depth: nat, phys: nat, offset: nat)
    requires phys % PageSize(depth) == 0 && offset < PageSize(depth)
    ensures AlignDown(depth, phys + offset) == phys
  {
    DivUnique(phys + offset, PageSize(depth), phys / PageSize(depth), offset);
  }
}
