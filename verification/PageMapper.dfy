/** The mapping routines that reach the tables through the direct map. A direct-map pointer is
    represented by the physical frame it stands for. */
module PageMapper {
  import opened Bits
  import opened PageTable
  import opened Addresses
  import opened Mapping

  /** The state after the page at an address has been mapped to a frame; pages and tables of the lower half
      are for user mode. */
  ghost function Mapped(st: State, depth: nat, root: Frame, phys: Frame, v: nat, flags: nat): State {
    var user := UserStatus(v);
    MapPath(st, root, PagePath(depth, v), user, LeafEntry(depth, phys, flags, user))
  }

  class PageTables {
    const depth: nat
    var mem: Memory
    var supply: seq<Frame>
    var kernelRoot: Frame
    ghost var labels: Labels

    ghost function St(): State
      reads this
    {
      State(mem, supply, labels)
    }

    ghost predicate Good()
      reads this
    {
      depth in {3, 4} && Valid(St(), depth) && IsRoot(St(), kernelRoot) && 0 !in labels
    }

    constructor (depth: nat, mem: Memory, supply: seq<Frame>, kernelRoot: Frame, ghost labels: Labels)
      requires depth in {3, 4} && Valid(State(mem, supply, labels), depth)
      requires IsRoot(State(mem, supply, labels), kernelRoot) && 0 !in labels
      ensures Good() && St() == State(mem, supply, labels)
      ensures this.depth == depth && this.kernelRoot == kernelRoot
    {
      this.depth, this.mem, this.supply, this.kernelRoot, this.labels := depth, mem, supply, kernelRoot, labels;
    }

    method CleanNewTable(table: Frame)
      requires IsTable(mem, table)
      modifies this`mem
      ensures mem == old(mem)[table := ZeroTable()]
    {
      var i := 0;
      while i < TABLE_ENTRIES
        invariant 0 <= i <= TABLE_ENTRIES
        invariant IsTable(mem, table) && mem.Keys == old(mem).Keys
        invariant forall g :: g in mem && g != table ==> mem[g] == old(mem)[g]
        invariant forall k :: 0 <= k < i ==> mem[table][k] == 0
      {
        mem := Write(mem, table, i, 0);
        i := i + 1;
      }
      assert mem[table] == ZeroTable();
    }

    /** The table below entry i; a missing one is allocated, linked and cleaned. */
    method NextTable(table: Frame, user: nat, i: nat, ghost path: Path, ghost leaf: Word) returns (next: Frame)
      requires CanMap(St(), depth, table, path, user, leaf)
      requires |path| > 1 && path[0] == i
      modifies this`mem, this`supply, this`labels
      ensures CanMap(St(), depth, next, path[1..], user, leaf)
      ensures MapPath(St(), next, path[1..], user, leaf) == old(MapPath(St(), table, path, user, leaf))
      ensures Walk(mem, next, path[1..]) == old(Walk(mem, table, path))
    {
      assert TableOk(mem, labels, depth, table);
      if !Present(mem[table][i]) {
        LinkNextCanMap(St(), depth, table, path, user, leaf);
        ghost var linked := LinkNext(St(), table, i, user);
        var newTable := supply[0];
        supply := supply[1..];
        mem := Write(mem, table, i, TableEntry(newTable, user));
        labels := labels[newTable := Label(table, labels[table].prefix + [i])];
        CleanNewTable(newTable);
        assert St() == linked;
        next := newTable;
        assert Read(mem, next, path[1]) == 0;
      } else {
        StepDown(mem, labels, depth, table, path);
        next := Base(mem[table][i]);
      }
    }

    /** Fill entry i of the leaf table if it is absent. */
    method FillLeaf(table: Frame, i: nat, leaf: Word, ghost user: nat) returns (filled: bool)
      requires CanMap(St(), depth, table, [i], user, leaf)
      modifies this`mem
      ensures St() == old(MapPath(St(), table, [i], user, leaf))
      ensures filled == old(Walk(mem, table, [i])).None?
    {
      assert TableOk(mem, labels, depth, table);
      assert [i][0] == i;
      filled := !Present(mem[table][i]);
      if filled {
        mem := Write(mem, table, i, leaf);
      }
    }

    /** The part of `map_phys_to_virt_addr_hh` after the root has been chosen. */
    method MapBelow(root: Frame, address: Address, user: nat, leaf: Word) returns (filled: bool)
      requires depth in {3, 4} && CanMap(St(), depth, root, PagePath(depth, address), user, leaf)
      modifies this`mem, this`supply, this`labels
      ensures St() == old(MapPath(St(), root, PagePath(depth, address), user, leaf))
      ensures filled == old(Walk(mem, root, PagePath(depth, address))).None?
    {
      var pml4E, pdprE, pdE, ptE := Pml4Entry(address), PdprEntry(address), PdEntry(address), PtEntry(address);
      ghost var page := PagePath(depth, address);
      ghost var target := MapPath(St(), root, page, user, leaf);
      ghost var before := Walk(mem, root, page);
      var pdprRoot := NextTable(root, user, pml4E, page, leaf);
      ghost var page1 := page[1..];
      var pdRoot := NextTable(pdprRoot, user, pdprE, page1, leaf);
      ghost var page2 := page1[1..];
      if depth == 4 {
        var ptTable := NextTable(pdRoot, user, pdE, page2, leaf);
        assert page2[1..] == [ptE];
        filled := FillLeaf(ptTable, ptE, leaf, user);
      } else {
        assert page2 == [pdE];
        filled := FillLeaf(pdRoot, pdE, leaf, user);
      }
    }

    /** `map_phys_to_virt_addr_hh`; 0 stands for NULL. */
    method MapHh(phys: Frame, address: Address, flags: nat, pml4Root: Frame) returns (r: nat)
      requires Good() && (pml4Root != 0 ==> IsRoot(St(), pml4Root))
      requires Pml4Entry(address) != RECURSIVE_SLOT && 0 !in supply
      requires |supply| >= Missing(mem, if pml4Root == 0 then kernelRoot else pml4Root, PagePath(depth, address))
      modifies this`mem, this`supply, this`labels
      ensures Good()
      ensures var root := if pml4Root == 0 then kernelRoot else pml4Root;
        && St() == old(Mapped(St(), depth, root, phys, address, flags))
        && r == if old(Walk(mem, root, PagePath(depth, address))).None? then address else 0
    {
      var userModeStatus := 0;
      if !IsHigherHalf(address) {
        userModeStatus := USER_LEVEL;
      }
      var root := pml4Root;
      if pml4Root == 0 {
        root := kernelRoot;
      }
      var leaf := LeafEntry(depth, phys, flags, userModeStatus);
      LeafIsLarge(phys, flags, userModeStatus);
      ghost var page := PagePath(depth, address);
      MapKeepsValid(St(), depth, root, page, userModeStatus, leaf);
      MapLabelsFromSupply(St(), depth, root, page, userModeStatus, leaf);
      var filled := MapBelow(root, address, userModeStatus, leaf);
      r := if filled then address else 0;
    }

    /** `unmap_vaddress_hh`, for every address; a frame outside the memory modelled reads as zero. */
    method UnmapHh(address: Address, pml4Root: Frame) returns (r: int)
      requires depth in {3, 4}
      modifies this`mem
      ensures pml4Root == 0 || address == 0 ==> St() == old(St()) && r == -1
      ensures pml4Root != 0 && address != 0 ==>
        && St() == old(UnmapPath(St(), pml4Root, PagePath(depth, address)))
        && r == if old(Walk(mem, pml4Root, PagePath(depth, address))).None? then -1 else 0
      ensures old(Good() && IsRoot(St(), pml4Root)) && Pml4Entry(address) != RECURSIVE_SLOT ==> Good()
    {
      ghost var page := PagePath(depth, address);
      ghost var start := St();
      if Good() && IsRoot(start, pml4Root) && Pml4Entry(address) != RECURSIVE_SLOT {
        UnmapKeepsValid(start, depth, pml4Root, page);
      }
      if pml4Root == 0 || address == 0 {
        return -1;
      }
      var pml4Entry := Read(mem, pml4Root, Pml4Entry(address));
      if !Present(pml4Entry) {
        return -1;
      }
      var pdprTable := Base(pml4Entry);
      assert Walk(mem, pml4Root, page) == Walk(mem, pdprTable, page[1..]);
      assert UnmapPath(start, pml4Root, page) == UnmapPath(start, pdprTable, page[1..]);
      var pdprEntry := Read(mem, pdprTable, PdprEntry(address));
      if !Present(pdprEntry) {
        return -1;
      }
      assert page[1..][1..] == page[2..];
      var pdTable := Base(pdprEntry);
      assert Walk(mem, pml4Root, page) == Walk(mem, pdTable, page[2..]);
      assert UnmapPath(start, pml4Root, page) == UnmapPath(start, pdTable, page[2..]);
      var pdE := PdEntry(address);
      var pdEntry := Read(mem, pdTable, pdE);
      if !Present(pdEntry) {
        return -1;
      }
      if depth == 3 {
        mem := Write(mem, pdTable, pdE, 0);
        return 0;
      }
      assert page[2..][1..] == page[3..];
      var ptTable := Base(pdEntry);
      assert Walk(mem, pml4Root, page) == Walk(mem, ptTable, page[3..]);
      assert UnmapPath(start, pml4Root, page) == UnmapPath(start, ptTable, page[3..]);
      var ptE := PtEntry(address);
      if !Present(Read(mem, ptTable, ptE)) {
        return -1;
      }
      mem := Write(mem, ptTable, ptE, 0);
      return 0;
    }

    /** `vm_walk_table`, for every address: how far the walk got, and the frame it found. */
    method WalkTable(address: Address, root: Frame) returns (level: nat, pte: Option<Frame>)
      requires depth in {3, 4}
      ensures level == WalkLevel(mem, root, PagePath(depth, address))
      ensures pte == match Walk(mem, root, PagePath(depth, address))
                     case None => None
                     case Some(e) => Some(Base(e))
    {
      level, pte := 0, None;
      ghost var page := PagePath(depth, address);
      var pml4Entry := Read(mem, root, Pml4Entry(address));
      if !Present(pml4Entry) {
        return;
      }
      level := level + 1;
      var pdpr := Base(pml4Entry);
      assert Walk(mem, root, page) == Walk(mem, pdpr, page[1..]);
      assert WalkLevel(mem, root, page) == 1 + WalkLevel(mem, pdpr, page[1..]);
      var pdprEntry := Read(mem, pdpr, PdprEntry(address));
      if !Present(pdprEntry) {
        return;
      }
      assert page[1..][1..] == page[2..];
      level := level + 1;
      var pd := Base(pdprEntry);
      assert Walk(mem, root, page) == Walk(mem, pd, page[2..]);
      assert WalkLevel(mem, root, page) == 2 + WalkLevel(mem, pd, page[2..]);
      var pdEntry := Read(mem, pd, PdEntry(address));
      if !Present(pdEntry) {
        return;
      }
      if depth == 3 {
        pte := Some(Base(pdEntry));
        return;
      }
      assert page[2..][1..] == page[3..];
      level := level + 1;
      var pt := Base(pdEntry);
      assert Walk(mem, root, page) == Walk(mem, pt, page[3..]);
      var entry := Read(mem, pt, PtEntry(address));
      if !Present(entry) {
        return;
      }
      pte := Some(Base(entry));
    }
  }
}
