/** Address spaces of tasks: creation of a task root, and runs of task creations, mappings and
    unmappings over many roots in one memory. */
module AddressSpaces {
  import opened Bits
  import opened PageTable
  import opened Mapping
  import opened PageMapper
  import RecursiveMapper

  /** Entry i of the root table of a new task. */
  function RootEntry(mem: Memory, kernel: Frame, n: Frame, i: nat): Word {
    if i <= 255 then 0
    else if i == RECURSIVE_SLOT then Or(Or(n, PRESENT_BIT), WRITE_BIT)
    else Read(mem, kernel, i)
  }

  function RootTable(mem: Memory, kernel: Frame, n: Frame): seq<Word> {
    seq(TABLE_ENTRIES, i requires 0 <= i => RootEntry(mem, kernel, n, i))
  }

  /** The state after the next frame has become the root of a task. */
  ghost function NewTask(st: State, kernel: Frame): State
    requires st.supply != []
  {
    var n := st.supply[0];
    State(st.mem[n := RootTable(st.mem, kernel, n)], st.supply[1..], st.labels[n := Label(n, [])])
  }

  /** `prepare_virtual_memory_environment`, on the frame allocated for a new task. */
  method PrepareVirtualMemory(pt: PageTables) returns (n: Frame)
    requires pt.Good() && pt.supply != [] && pt.supply[0] != 0
    modifies pt
    ensures pt.Good() && n == old(pt.supply)[0] && pt.kernelRoot == old(pt.kernelRoot)
    ensures pt.St() == NewTask(old(pt.St()), pt.kernelRoot)
  {
    ghost var st := pt.St();
    NewTaskKeepsValid(st, pt.depth, pt.kernelRoot);
    n := pt.supply[0];
    pt.supply := pt.supply[1..];
    assert TableOk(pt.mem, pt.labels, pt.depth, pt.kernelRoot);
    var i := 0;
    while i < TABLE_ENTRIES
      invariant 0 <= i <= TABLE_ENTRIES
      invariant IsTable(pt.mem, n) && pt.mem.Keys == st.mem.Keys
      invariant forall g :: g in pt.mem && g != n ==> pt.mem[g] == st.mem[g]
      invariant forall k :: 0 <= k < i ==> pt.mem[n][k] == RootEntry(st.mem, pt.kernelRoot, n, k)
      invariant pt.supply == st.supply[1..] && pt.labels == st.labels && pt.kernelRoot == old(pt.kernelRoot)
    {
      if i <= 255 {
        pt.mem := Write(pt.mem, n, i, 0);
      } else if i == RECURSIVE_SLOT {
        pt.mem := Write(pt.mem, n, i, Or(Or(n, PRESENT_BIT), WRITE_BIT));
      } else {
        pt.mem := Write(pt.mem, n, i, pt.mem[pt.kernelRoot][i]);
      }
      i := i + 1;
    }
    assert pt.mem[n] == RootTable(st.mem, pt.kernelRoot, n);
    assert pt.mem == st.mem[n := RootTable(st.mem, pt.kernelRoot, n)];
    pt.labels := pt.labels[n := Label(n, [])];
  }

  lemma NewTaskKeepsValid(st: State, depth: nat, kernel: Frame)
    requires Valid(st, depth) && IsRoot(st, kernel) && st.supply != []
    ensures Valid(NewTask(st, kernel), depth)
    ensures IsRoot(NewTask(st, kernel), st.supply[0])
  {
    var n := st.supply[0];
    var st1 := NewTask(st, kernel);
    assert TableOk(st.mem, st.labels, depth, kernel);
    forall f | f in st1.labels ensures TableOk(st1.mem, st1.labels, depth, f) {
      if f != n { assert TableOk(st.mem, st.labels, depth, f); }
    }
    forall f, i | f in st1.labels && 0 <= i < TABLE_ENTRIES ensures LinkOk(st1.mem, st1.labels, depth, f, i) {
      assert LinkOk(st.mem, st.labels, depth, kernel, i);
      if f != n { assert LinkOk(st.mem, st.labels, depth, f, i); }
    }
    forall k | 0 <= k < |st1.supply|
      ensures st1.supply[k] !in st1.labels && Aligned(st1.supply[k]) && IsTable(st1.mem, st1.supply[k])
    {
      assert st1.supply[k] == st.supply[k + 1];
    }
  }

  /** Creating a task changes no translation of the roots that exist. */
  lemma {:induction false} NewTaskKeepsWalks(st: State, depth: nat, kernel: Frame, g: Frame, path: Path)
    requires Valid(st, depth) && st.supply != [] && LeadsToLeaf(st.labels, depth, g, path)
    ensures Walk(NewTask(st, kernel).mem, g, path) == Walk(st.mem, g, path)
    decreases |path|
  {
    assert Read(NewTask(st, kernel).mem, g, path[0]) == Read(st.mem, g, path[0]);
    if |path| > 1 && Present(Read(st.mem, g, path[0])) {
      StepDown(st.mem, st.labels, depth, g, path);
      NewTaskKeepsWalks(st, depth, kernel, Base(Read(st.mem, g, path[0])), path[1..]);
    }
  }

  /** A fresh task has an empty lower half, the translations of the kernel in the higher half, and a
      recursive slot of its own. */
  lemma FreshTaskSpace(st: State, depth: nat, kernel: Frame, page: Path)
    requires Valid(st, depth) && IsRoot(st, kernel) && st.supply != []
    requires LeadsToLeaf(st.labels, depth, kernel, page)
    ensures var st1 := NewTask(st, kernel);
      var n := st.supply[0];
      && Walk(st1.mem, n, page) == (if page[0] < LOWER_HALF then None else Walk(st.mem, kernel, page))
      && (page[0] >= LOWER_HALF && Present(Read(st.mem, kernel, page[0])) ==> Shares(st1, kernel, n, page))
      && RecursiveMapper.Recursive(st1.mem, n)
  {
    var st1 := NewTask(st, kernel);
    var n := st.supply[0];
    assert Read(st1.mem, n, page[0]) == RootEntry(st.mem, kernel, n, page[0]);
    assert Aligned(n);
    assert Read(st1.mem, n, RECURSIVE_SLOT) == Or(Or(n, PRESENT_BIT), WRITE_BIT);
    SlotFields(n);
    if page[0] >= LOWER_HALF && |page| > 1 && Present(Read(st.mem, kernel, page[0])) {
      StepDown(st.mem, st.labels, depth, kernel, page);
      NewTaskKeepsWalks(st, depth, kernel, Base(Read(st.mem, kernel, page[0])), page[1..]);
    }
  }

  lemma SlotFields(n: Frame)
    requires Aligned(n)
    ensures var e := Or(Or(n, PRESENT_BIT), WRITE_BIT); Present(e) && !Large(e) && Base(e) == n
  {
    OrAboveFrame(n, 0, PRESENT_BIT);
    OrAboveFrame(n, PRESENT_BIT, WRITE_BIT);
    assert Or(PRESENT_BIT, WRITE_BIT) == PRESENT_BIT + WRITE_BIT;
    AlignedFields(n, PRESENT_BIT + WRITE_BIT);
  }

  // ----- runs -----

  datatype Op =
    | CreateTask
    | MapPage(root: Frame, page: Path, phys: Frame, flags: nat)
    | UnmapPage(root: Frame, page: Path)

  function UserOf(page: Path): nat
    requires page != []
  {
    if page[0] < LOWER_HALF then USER_LEVEL else 0
  }

  ghost predicate Enabled(st: State, depth: nat, op: Op) {
    match op
    case CreateTask => st.supply != []
    case MapPage(r, page, phys, flags) =>
      && IsRoot(st, r) && LeadsToLeaf(st.labels, depth, r, page)
      && Aligned(phys) && flags < 0x1000 && |st.supply| >= Missing(st.mem, r, page)
    case UnmapPage(r, page) => IsRoot(st, r) && LeadsToLeaf(st.labels, depth, r, page)
  }

  ghost function Step(st: State, depth: nat, kernel: Frame, op: Op): State
    requires Enabled(st, depth, op)
  {
    match op
    case CreateTask => NewTask(st, kernel)
    case MapPage(r, page, phys, flags) =>
      MapPath(st, r, page, UserOf(page), LeafEntry(depth, phys, flags, UserOf(page)))
    case UnmapPage(r, page) => UnmapPath(st, r, page)
  }

  ghost predicate EnabledRun(st: State, depth: nat, kernel: Frame, ops: seq<Op>)
    decreases |ops|
  {
    ops == [] || (Enabled(st, depth, ops[0]) && EnabledRun(Step(st, depth, kernel, ops[0]), depth, kernel, ops[1..]))
  }

  ghost function Run(st: State, depth: nat, kernel: Frame, ops: seq<Op>): State
    requires EnabledRun(st, depth, kernel, ops)
    decreases |ops|
  {
    if ops == [] then st else Run(Step(st, depth, kernel, ops[0]), depth, kernel, ops[1..])
  }

  ghost predicate System(st: State, depth: nat, kernel: Frame) {
    depth in {3, 4} && Valid(st, depth) && IsRoot(st, kernel)
  }

  lemma StepKeepsSystem(st: State, depth: nat, kernel: Frame, op: Op)
    requires System(st, depth, kernel) && Enabled(st, depth, op)
    ensures System(Step(st, depth, kernel, op), depth, kernel)
    ensures forall r :: IsRoot(st, r) ==> IsRoot(Step(st, depth, kernel, op), r)
    ensures forall g :: g in st.labels ==>
      g in Step(st, depth, kernel, op).labels && Step(st, depth, kernel, op).labels[g] == st.labels[g]
  {
    match op
    case CreateTask => NewTaskKeepsValid(st, depth, kernel);
    case MapPage(r, page, phys, flags) =>
      LeafEntryFields(depth, phys, flags, UserOf(page));
      MapKeepsValid(st, depth, r, page, UserOf(page), LeafEntry(depth, phys, flags, UserOf(page)));
    case UnmapPage(r, page) => UnmapKeepsValid(st, depth, r, page);
  }

  /** What one operation does to one translation. */
  lemma StepWalks(st: State, depth: nat, kernel: Frame, op: Op, r': Frame, page': Path)
    requires System(st, depth, kernel) && Enabled(st, depth, op)
    requires IsRoot(st, r') && LeadsToLeaf(st.labels, depth, r', page')
    ensures op.CreateTask? || page' != op.page || !Shares(st, op.root, r', page') ==>
      Walk(Step(st, depth, kernel, op).mem, r', page') == Walk(st.mem, r', page')
  {
    match op
    case CreateTask => NewTaskKeepsWalks(st, depth, kernel, r', page');
    case MapPage(r, page, phys, flags) =>
      LeafEntryFields(depth, phys, flags, UserOf(page));
      MapRefinesUpdate(st, depth, r, page, UserOf(page), LeafEntry(depth, phys, flags, UserOf(page)), r', page');
    case UnmapPage(r, page) => UnmapRefinesRemoval(st, depth, r, page, r', page');
  }

  /** The operation names `page` of root r, or of a root that shares it with r. */
  ghost predicate Touches(st: State, op: Op, r: Frame, page: Path)
    requires page != []
  {
    !op.CreateTask? && op.page == page && Shares(st, op.root, r, page)
  }

  /** No operation of a run touches `page` of root r. */
  ghost predicate Untouched(st: State, depth: nat, kernel: Frame, ops: seq<Op>, r: Frame, page: Path)
    requires page != [] && EnabledRun(st, depth, kernel, ops)
    decreases |ops|
  {
    ops == [] ||
    (!Touches(st, ops[0], r, page) && Untouched(Step(st, depth, kernel, ops[0]), depth, kernel, ops[1..], r, page))
  }

  /** Isolation over every run: a translation that no operation of the run touches is the same
      before and after it, however many tasks are created and mapped into in between. */
  lemma {:induction false} RunIsolates(st: State, depth: nat, kernel: Frame, ops: seq<Op>, r: Frame, page: Path)
    requires System(st, depth, kernel) && EnabledRun(st, depth, kernel, ops)
    requires IsRoot(st, r) && LeadsToLeaf(st.labels, depth, r, page) && Untouched(st, depth, kernel, ops, r, page)
    ensures System(Run(st, depth, kernel, ops), depth, kernel)
    ensures Walk(Run(st, depth, kernel, ops).mem, r, page) == Walk(st.mem, r, page)
    decreases |ops|
  {
    if ops != [] {
      StepKeepsSystem(st, depth, kernel, ops[0]);
      StepWalks(st, depth, kernel, ops[0], r, page);
      RunIsolates(Step(st, depth, kernel, ops[0]), depth, kernel, ops[1..], r, page);
    }
  }

  /** In the lower half an operation touches a page exactly if it names the root and the page. */
  lemma TouchesIffNames(st: State, depth: nat, kernel: Frame, op: Op, r: Frame, page: Path)
    requires System(st, depth, kernel) && Enabled(st, depth, op) && IsRoot(st, r)
    requires LeadsToLeaf(st.labels, depth, r, page) && page[0] < LOWER_HALF
    ensures Touches(st, op, r, page) <==> !op.CreateTask? && op.page == page && op.root == r
  {
    if Touches(st, op, r, page) { SharedIsHigherHalf(st, depth, op.root, r, page); }
  }

  /** A task's lower half is its own: only operations that name its root change it. */
  lemma {:induction false} LowerHalfIsPrivate(st: State, depth: nat, kernel: Frame, ops: seq<Op>, r: Frame, page: Path)
    requires System(st, depth, kernel) && EnabledRun(st, depth, kernel, ops)
    requires IsRoot(st, r) && LeadsToLeaf(st.labels, depth, r, page) && page[0] < LOWER_HALF
    requires forall k :: 0 <= k < |ops| ==> ops[k].CreateTask? || ops[k].root != r
    ensures Untouched(st, depth, kernel, ops, r, page)
    ensures Walk(Run(st, depth, kernel, ops).mem, r, page) == Walk(st.mem, r, page)
    decreases |ops|
  {
    if ops != [] {
      TouchesIffNames(st, depth, kernel, ops[0], r, page);
      StepKeepsSystem(st, depth, kernel, ops[0]);
      LowerHalfIsPrivate(Step(st, depth, kernel, ops[0]), depth, kernel, ops[1..], r, page);
    }
    RunIsolates(st, depth, kernel, ops, r, page);
  }

  /** No operation changes an entry of a root that is present. */
  lemma StepKeepsRootEntry(st: State, depth: nat, kernel: Frame, op: Op, r: Frame, i: nat)
    requires System(st, depth, kernel) && Enabled(st, depth, op)
    requires IsRoot(st, r) && i < TABLE_ENTRIES && Present(Read(st.mem, r, i))
    ensures Read(Step(st, depth, kernel, op).mem, r, i) == Read(st.mem, r, i)
  {
    match op
    case CreateTask =>
    case MapPage(q, p, phys, flags) =>
      LeafEntryFields(depth, phys, flags, UserOf(p));
      MapKeepsValid(st, depth, q, p, UserOf(p), LeafEntry(depth, phys, flags, UserOf(p)));
    case UnmapPage(q, p) =>
      UnmapIsLeafWrite(st, q, p);
      if Walk(st.mem, q, p).Some? {
        LastTableLabel(st.mem, st.labels, depth, q, p);
      }
  }

  /** A root keeps its recursive slot through every run. */
  lemma {:induction false} RunKeepsRecursive(st: State, depth: nat, kernel: Frame, ops: seq<Op>, r: Frame)
    requires System(st, depth, kernel) && EnabledRun(st, depth, kernel, ops)
    requires IsRoot(st, r) && RecursiveMapper.Recursive(st.mem, r)
    ensures RecursiveMapper.Recursive(Run(st, depth, kernel, ops).mem, r)
    decreases |ops|
  {
    if ops != [] {
      StepKeepsSystem(st, depth, kernel, ops[0]);
      StepKeepsRootEntry(st, depth, kernel, ops[0], r, RECURSIVE_SLOT);
      RunKeepsRecursive(Step(st, depth, kernel, ops[0]), depth, kernel, ops[1..], r);
    }
  }

  /** Two different roots that share a kernel entry keep sharing it through every operation. */
  lemma StepKeepsSharing(st: State, depth: nat, kernel: Frame, op: Op, r: Frame, r': Frame, page: Path)
    requires System(st, depth, kernel) && Enabled(st, depth, op)
    requires IsRoot(st, r) && IsRoot(st, r') && LeadsToLeaf(st.labels, depth, r, page)
    requires Shares(st, r, r', page)
    ensures Shares(Step(st, depth, kernel, op), r, r', page)
  {
    if r != r' {
      StepKeepsRootEntry(st, depth, kernel, op, r, page[0]);
      StepKeepsRootEntry(st, depth, kernel, op, r', page[0]);
    }
  }

  /** The kernel half stays common: roots that share an entry translate all its pages alike in every
      state that is reachable from there. */
  lemma {:induction false} RunKeepsSharing(st: State, depth: nat, kernel: Frame, ops: seq<Op>, r: Frame, r': Frame,
                                           page: Path)
    requires System(st, depth, kernel) && EnabledRun(st, depth, kernel, ops)
    requires IsRoot(st, r) && IsRoot(st, r') && LeadsToLeaf(st.labels, depth, r, page)
    requires Shares(st, r, r', page)
    ensures Shares(Run(st, depth, kernel, ops), r, r', page)
    ensures Walk(Run(st, depth, kernel, ops).mem, r, page) == Walk(Run(st, depth, kernel, ops).mem, r', page)
    decreases |ops|
  {
    if ops != [] {
      StepKeepsSystem(st, depth, kernel, ops[0]);
      StepKeepsSharing(st, depth, kernel, ops[0], r, r', page);
      RunKeepsSharing(Step(st, depth, kernel, ops[0]), depth, kernel, ops[1..], r, r', page);
    }
  }

  /** A page that the kernel maps after a task was created shows up in that task exactly if it
      already shared the kernel's root entry for it. */
  lemma LateKernelPageVisibleIffShared(st: State, depth: nat, kernel: Frame, task: Frame, page: Path, phys: Frame,
                                       flags: nat)
    requires System(st, depth, kernel) && IsRoot(st, task)
    requires Enabled(st, depth, MapPage(kernel, page, phys, flags)) && Present(flags)
    requires Walk(st.mem, kernel, page).None? && Walk(st.mem, task, page).None?
    ensures var st1 := Step(st, depth, kernel, MapPage(kernel, page, phys, flags));
      Walk(st1.mem, task, page) == Walk(st1.mem, kernel, page) <==> Shares(st, kernel, task, page)
  {
    var user := UserOf(page);
    var leaf := LeafEntry(depth, phys, flags, user);
    LeafEntryFields(depth, phys, flags, user);
    MapRefinesUpdate(st, depth, kernel, page, user, leaf, task, page);
    MapRefinesUpdate(st, depth, kernel, page, user, leaf, kernel, page);
  }

  // ----- a first state -----

  function BootTable(kernel: Frame): seq<Word> {
    ZeroTable()[RECURSIVE_SLOT := Or(Or(kernel, PRESENT_BIT), WRITE_BIT)]
  }

  /** A root whose only entry is its recursive slot, and frames for tables to come. */
  ghost function BootState(kernel: Frame, supply: seq<Frame>): State {
    var mem := map f | f in supply :: ZeroTable();
    State(mem[kernel := BootTable(kernel)], supply, map[kernel := Label(kernel, [])])
  }

  /** From this state every run is a run of the system. */
  lemma BootStateIsSystem(depth: nat, kernel: Frame, supply: seq<Frame>)
    requires depth in {3, 4} && Aligned(kernel) && kernel !in supply
    requires forall k :: 0 <= k < |supply| ==> Aligned(supply[k])
    requires forall j, k :: 0 <= j < k < |supply| ==> supply[j] != supply[k]
    ensures System(BootState(kernel, supply), depth, kernel)
    ensures RecursiveMapper.Recursive(BootState(kernel, supply).mem, kernel)
  {
    var st := BootState(kernel, supply);
    SlotFields(kernel);
    forall i | 0 <= i < TABLE_ENTRIES ensures LinkOk(st.mem, st.labels, depth, kernel, i) {}
  }
}
