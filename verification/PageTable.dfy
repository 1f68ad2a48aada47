/** The page-table tree of the kernel: a radix tree of 512-entry tables held in physical frames.
    The depth is 4 with 4 KiB pages (SMALL_PAGES 1) and 3 with 2 MiB pages (SMALL_PAGES 0).
    Several roots may live in the same memory and share their higher-half subtrees. */
module PageTable {
  import opened Bits

  datatype Option<+T> = None | Some(value: T)

  type Word = nat
  type Frame = nat
  type Path = seq<nat>
  type Memory = map<Frame, seq<Word>>

  const TABLE_ENTRIES: nat := 512
  const LOWER_HALF: nat := 256
  const RECURSIVE_SLOT: nat := 510

  const PRESENT_BIT: nat := 1
  const WRITE_BIT: nat := 2
  const USER_LEVEL: nat := 4
  const HUGEPAGE_BIT: nat := 0x80

  // ----- entries -----

  predicate Present(e: Word) { e % 2 == 1 }

  /** `entry & VM_PAGE_TABLE_BASE_ADDRESS_MASK`, the mask keeping bits 12 to 39. */
  function Base(e: Word): Frame { e / 0x1000 % 0x1000_0000 * 0x1000 }

  predicate Large(e: Word) { e / 0x80 % 2 == 1 }

  predicate Aligned(f: Frame) { f % 0x1000 == 0 && f < 0x100_0000_0000 }

  /** `table | user | WRITE_BIT | PRESENT_BIT`. */
  function TableEntry(table: Frame, user: nat): Word {
    Or(table, Or(Or(user, WRITE_BIT), PRESENT_BIT))
  }

  /** The bits of a leaf entry below the frame; depth 3 uses huge-page entries. */
  function Low(depth: nat, flags: nat, user: nat): nat {
    var f := Or(flags, user);
    if depth == 4 then f else Or(Or(HUGEPAGE_BIT, f), user)
  }

  /** The word written for a mapped page: the frame with its flags. */
  function LeafEntry(depth: nat, phys: Frame, flags: nat, user: nat): Word {
    Or(phys, Low(depth, flags, user))
  }

  /** A word built from an aligned frame and bits below bit 12 decodes to that frame. */
  lemma AlignedFields(frame: Frame, low: nat)
    requires Aligned(frame) && low < 0x1000
    ensures Base(frame + low) == frame
    ensures Present(frame + low) == Present(low)
    ensures Large(frame + low) == Large(low)
  {
    var k := frame / 0x1000;
    assert frame == 0x1000 * k && k < 0x1000_0000;
    BaseAt(k, low);
    LargeAt(k, low);
    PresentAt(0x800 * k, low);
  }

  lemma BaseAt(k: nat, low: nat)
    requires k < 0x1000_0000 && low < 0x1000
    ensures Base(0x1000 * k + low) == 0x1000 * k
  {
    DivUnique(0x1000 * k + low, 0x1000, k, low);
    DivUnique(k, 0x1000_0000, 0, k);
  }

  lemma PresentAt(k: nat, low: nat)
    ensures Present(2 * k + low) == Present(low)
  {
    var q, r := low / 2, low % 2;
    DivUnique(2 * k + low, 2, k + q, r);
  }

  lemma LargeAt(k: nat, low: nat)
    ensures Large(0x1000 * k + low) == Large(low)
  {
    var q, r := low / 0x80, low % 0x80;
    assert low == 0x80 * q + r;
    DivUnique(0x1000 * k + low, 0x80, 32 * k + q, r);
    PresentAt(16 * k, q);
  }

  lemma TableEntryFields(table: Frame, user: nat)
    requires Aligned(table) && user in {0, USER_LEVEL}
    ensures var e := TableEntry(table, user); Present(e) && !Large(e) && Base(e) == table
    ensures TableEntry(table, user) == table + user + WRITE_BIT + PRESENT_BIT
  {
    var low := user + WRITE_BIT + PRESENT_BIT;
    assert Or(Or(user, WRITE_BIT), PRESENT_BIT) == low;
    OrAboveFrame(table, 0, low);
    AlignedFields(table, low);
  }

  lemma EntryBits(e: Word)
    ensures Bit(e, 0) == Present(e) && Bit(e, 7) == Large(e)
  {
    assert Bit(e, 7) == Bit(e / 2 / 2, 5) == Bit(e / 2 / 2 / 2 / 2, 3);
    assert Bit(e / 2 / 2 / 2 / 2, 3) == Bit(e / 2 / 2 / 2 / 2 / 2 / 2 / 2, 0);
    DivDiv(e, 2, 2);
    DivDiv(e, 4, 2);
    DivDiv(e, 8, 2);
    DivDiv(e, 16, 2);
    DivDiv(e, 32, 2);
    DivDiv(e, 64, 2);
  }

  /** What `|` does to the two bits that a walk looks at. */
  lemma OrLow(low: nat, bits: nat)
    requires low < 0x1000 && bits < 0x1000
    ensures var r := Or(low, bits);
      && r < 0x1000
      && (Present(r) <==> Present(low) || Present(bits))
      && (Large(r) <==> Large(low) || Large(bits))
  {
    Pow2At12();
    OrBound(low, bits, 12);
    var r := Or(low, bits);
    assert Bit(r, 0) <==> Bit(low, 0) || Bit(bits, 0) by { OrBit(low, bits, 0); }
    assert Bit(r, 7) <==> Bit(low, 7) || Bit(bits, 7) by { OrBit(low, bits, 7); }
    EntryBits(low);
    EntryBits(bits);
    EntryBits(r);
  }

  /** `|` with bits below the frame leaves the frame alone. */
  lemma OrAboveFrame(frame: Frame, low: nat, bits: nat)
    requires Aligned(frame) && low < 0x1000 && bits < 0x1000
    ensures Or(frame + low, bits) == frame + Or(low, bits)
  {
    Pow2At12();
    OrAbove(frame, low, bits, 12);
  }

  lemma OrLarge(a: nat, b: nat)
    ensures Large(Or(a, b)) <==> Large(a) || Large(b)
  {
    assert Bit(Or(a, b), 7) <==> Bit(a, 7) || Bit(b, 7) by { OrBit(a, b, 7); }
    EntryBits(a);
    EntryBits(b);
    EntryBits(Or(a, b));
  }

  /** Whatever the address and the flags, the entry written at depth 3 is a huge-page entry. */
  lemma LeafIsLarge(phys: Frame, flags: nat, user: nat)
    ensures Large(LeafEntry(3, phys, flags, user))
  {
    var f := Or(flags, user);
    OrLarge(HUGEPAGE_BIT, f);
    OrLarge(Or(HUGEPAGE_BIT, f), user);
    OrLarge(phys, Low(3, flags, user));
  }

  lemma LeafEntryFields(depth: nat, phys: Frame, flags: nat, user: nat)
    requires Aligned(phys) && flags < 0x1000 && user in {0, USER_LEVEL}
    ensures var e := LeafEntry(depth, phys, flags, user);
      && Base(e) == phys
      && (Present(e) <==> Present(flags))
      && (depth == 3 ==> Large(e))
  {
    LeafIsFrameAndLow(depth, phys, flags, user);
    AlignedFields(phys, Low(depth, flags, user));
  }

  lemma LeafIsFrameAndLow(depth: nat, phys: Frame, flags: nat, user: nat)
    requires Aligned(phys) && flags < 0x1000 && user in {0, USER_LEVEL}
    ensures LeafEntry(depth, phys, flags, user) == phys + Low(depth, flags, user)
    ensures var low := Low(depth, flags, user);
      low < 0x1000 && (Present(low) <==> Present(flags)) && (depth == 3 ==> Large(low))
  {
    LowFields(depth, flags, user);
    OrAboveFrame(phys, 0, Low(depth, flags, user));
  }

  lemma LowFields(depth: nat, flags: nat, user: nat)
    requires flags < 0x1000 && user in {0, USER_LEVEL}
    ensures var low := Low(depth, flags, user);
      low < 0x1000 && (Present(low) <==> Present(flags)) && (depth == 3 ==> Large(low))
  {
    var f := Or(flags, user);
    assert f < 0x1000 && (Present(f) <==> Present(flags)) by { OrLow(flags, user); }
    HugeLow(HUGEPAGE_BIT, f, user);
  }

  lemma HugeLow(huge: nat, f: nat, user: nat)
    requires huge < 0x1000 && f < 0x1000 && user < 0x1000 && Large(huge)
    requires !Present(huge) && !Present(user)
    ensures var low := Or(Or(huge, f), user); low < 0x1000 && (Present(low) <==> Present(f)) && Large(low)
  {
    var low := Or(huge, f);
    assert low < 0x1000 && (Present(low) <==> Present(f)) && Large(low) by { OrLow(huge, f); }
    OrLow(low, user);
  }

  // ----- memory -----

  function Read(mem: Memory, f: Frame, i: nat): Word {
    if f in mem && i < |mem[f]| then mem[f][i] else 0
  }

  function SetEntry(table: seq<Word>, i: nat, w: Word): seq<Word>
    requires i < |table|
  {
    table[i := w]
  }

  function Write(mem: Memory, f: Frame, i: nat, w: Word): Memory {
    if f in mem && i < |mem[f]| then mem[f := SetEntry(mem[f], i, w)] else mem
  }

  function ZeroTable(): seq<Word> { seq(TABLE_ENTRIES, _ => 0) }

  predicate IsTable(mem: Memory, f: Frame) {
    f in mem && |mem[f]| == TABLE_ENTRIES
  }

  // ----- walks -----

  /** The leaf entry that translates `path` from table `f`, if every level is present. */
  function Walk(mem: Memory, f: Frame, path: Path): Option<Word>
    requires path != []
    decreases |path|
  {
    var e := Read(mem, f, path[0]);
    if !Present(e) then None
    else if |path| == 1 then Some(e)
    else Walk(mem, Base(e), path[1..])
  }

  /** How many levels above the leaf are present, `vm_walk_results.level`. */
  function WalkLevel(mem: Memory, f: Frame, path: Path): nat
    requires path != []
    decreases |path|
  {
    var e := Read(mem, f, path[0]);
    if |path| == 1 || !Present(e) then 0
    else 1 + WalkLevel(mem, Base(e), path[1..])
  }

  /** The table holding the leaf entry of `path`, if every level above it is present. */
  ghost function LastTable(mem: Memory, f: Frame, path: Path): Option<Frame>
    requires path != []
    decreases |path|
  {
    if |path| == 1 then Some(f)
    else
      var e := Read(mem, f, path[0]);
      if !Present(e) then None else LastTable(mem, Base(e), path[1..])
  }

  function Last(path: Path): nat
    requires path != []
  {
    path[|path| - 1]
  }

  // ----- well-formed trees -----

  /** Where a table hangs: in which table it was linked first, and at which index prefix. */
  datatype Label = Label(parent: Frame, prefix: Path)
  type Labels = map<Frame, Label>

  /** Entry i of table f points to the table labelled for it. Only entries of the higher half of a
      root may point to a table that hangs in another root. */
  ghost predicate LinkOk(mem: Memory, labels: Labels, depth: nat, f: Frame, i: nat)
    requires f in labels
  {
    var e := Read(mem, f, i);
    var l := labels[f];
    Present(e) ==>
      if |l.prefix| + 1 == depth then depth == 3 ==> Large(e)
      else if l.prefix == [] && i == RECURSIVE_SLOT then true
      else
        && !Large(e)
        && Base(e) in labels
        && labels[Base(e)].prefix == l.prefix + [i]
        && (labels[Base(e)].parent == f || (l.prefix == [] && i >= LOWER_HALF))
  }

  ghost predicate TableOk(mem: Memory, labels: Labels, depth: nat, f: Frame)
    requires f in labels
  {
    && IsTable(mem, f)
    && Aligned(f)
    && |labels[f].prefix| < depth
  }

  ghost predicate WellFormed(mem: Memory, labels: Labels, depth: nat) {
    && depth >= 2
    && (forall f :: f in labels ==> TableOk(mem, labels, depth, f))
    && (forall f, i :: f in labels && 0 <= i < TABLE_ENTRIES ==> LinkOk(mem, labels, depth, f, i))
  }

  /** `path` leads from table f to a leaf without entering the recursive slot. */
  ghost predicate LeadsToLeaf(labels: Labels, depth: nat, f: Frame, path: Path) {
    && path != []
    && f in labels
    && |labels[f].prefix| + |path| == depth
    && (forall k :: 0 <= k < |path| ==> path[k] < TABLE_ENTRIES)
    && (labels[f].prefix == [] ==> path[0] != RECURSIVE_SLOT)
  }

  /** One step down keeps a path on track. */
  lemma StepDown(mem: Memory, labels: Labels, depth: nat, f: Frame, path: Path)
    requires WellFormed(mem, labels, depth) && LeadsToLeaf(labels, depth, f, path)
    requires |path| > 1 && Present(Read(mem, f, path[0]))
    ensures var b := Base(Read(mem, f, path[0]));
      && LeadsToLeaf(labels, depth, b, path[1..])
      && labels[b].prefix == labels[f].prefix + [path[0]]
      && (labels[b].parent == f || (labels[f].prefix == [] && path[0] >= LOWER_HALF))
  {
    assert LinkOk(mem, labels, depth, f, path[0]);
  }

  /** The leaf table of a path is labelled with the indices above the leaf. */
  lemma {:induction false} LastTableLabel(mem: Memory, labels: Labels, depth: nat, f: Frame, path: Path)
    requires WellFormed(mem, labels, depth) && LeadsToLeaf(labels, depth, f, path)
    requires LastTable(mem, f, path).Some?
    ensures var t := LastTable(mem, f, path).value;
      t in labels && labels[t].prefix == labels[f].prefix + path[..|path| - 1]
    decreases |path|
  {
    if |path| == 1 {
      assert path[..0] == [];
    } else {
      StepDown(mem, labels, depth, f, path);
      LastTableLabel(mem, labels, depth, Base(Read(mem, f, path[0])), path[1..]);
      assert path[..|path| - 1] == [path[0]] + path[1..][..|path| - 2];
    }
  }

  /** The table k levels above t. */
  ghost function Above(labels: Labels, t: Frame, k: nat): Frame
    decreases k
  {
    if k == 0 || t !in labels then t else Above(labels, labels[t].parent, k - 1)
  }

  lemma {:induction false} AboveStep(labels: Labels, t: Frame, k: nat, f: Frame)
    requires Above(labels, t, k) == f && f in labels
    ensures Above(labels, t, k + 1) == labels[f].parent
    decreases k
  {
    if k > 0 && t in labels {
      AboveStep(labels, labels[t].parent, k - 1, f);
    }
  }

  /** The leaf table of a path determines the table the path starts from, except that roots with a
      common higher-half subtree are told apart only below their first entry. */
  lemma {:induction false} LastTableAbove(mem: Memory, labels: Labels, depth: nat, f: Frame, path: Path)
    requires WellFormed(mem, labels, depth) && LeadsToLeaf(labels, depth, f, path)
    requires LastTable(mem, f, path).Some?
    ensures var t := LastTable(mem, f, path).value;
      && (labels[f].prefix != [] || path[0] < LOWER_HALF ==> Above(labels, t, |path| - 1) == f)
      && (|path| > 1 ==> Above(labels, t, |path| - 2) == Base(Read(mem, f, path[0])))
    decreases |path|
  {
    if |path| > 1 {
      StepDown(mem, labels, depth, f, path);
      var b := Base(Read(mem, f, path[0]));
      LastTableAbove(mem, labels, depth, b, path[1..]);
      AboveStep(labels, LastTable(mem, f, path).value, |path| - 2, b);
    }
  }

  lemma {:induction false} WalkIsLastTableRead(mem: Memory, f: Frame, path: Path)
    requires path != []
    ensures Walk(mem, f, path) ==
      match LastTable(mem, f, path)
      case None => None
      case Some(t) => var e := Read(mem, t, Last(path)); if Present(e) then Some(e) else None
    decreases |path|
  {
    if |path| > 1 && Present(Read(mem, f, path[0])) {
      WalkIsLastTableRead(mem, Base(Read(mem, f, path[0])), path[1..]);
    }
  }

  // ----- the two elementary updates -----

  function Linked(mem: Memory, f: Frame, i: nat, n: Frame, user: nat): Memory {
    Write(mem, f, i, TableEntry(n, user))[n := ZeroTable()]
  }

  ghost predicate CanLink(mem: Memory, labels: Labels, depth: nat, f: Frame, i: nat, n: Frame, user: nat) {
    && f in labels && |labels[f].prefix| + 1 < depth && i < TABLE_ENTRIES
    && !(labels[f].prefix == [] && i == RECURSIVE_SLOT)
    && !Present(Read(mem, f, i))
    && n !in labels && Aligned(n)
    && user in {0, USER_LEVEL}
  }

  /** Hanging an empty table in an absent slot keeps the tree well formed. */
  lemma LinkKeepsWellFormed(mem: Memory, labels: Labels, depth: nat, f: Frame, i: nat, n: Frame, user: nat)
    requires WellFormed(mem, labels, depth) && CanLink(mem, labels, depth, f, i, n, user)
    ensures WellFormed(Linked(mem, f, i, n, user),
                       labels[n := Label(f, labels[f].prefix + [i])], depth)
  {
    var mem1 := Linked(mem, f, i, n, user);
    var labels1 := labels[n := Label(f, labels[f].prefix + [i])];
    TableEntryFields(n, user);
    assert TableOk(mem, labels, depth, f);
    forall g | g in labels1 ensures TableOk(mem1, labels1, depth, g) {
      if g != n { assert TableOk(mem, labels, depth, g); }
    }
    forall g, j | g in labels1 && 0 <= j < TABLE_ENTRIES ensures LinkOk(mem1, labels1, depth, g, j) {
      if g != n {
        assert LinkOk(mem, labels, depth, g, j);
        if !(g == f && i == j) { assert Read(mem1, g, j) == Read(mem, g, j); }
      }
    }
  }

  /** Hanging an empty table changes no translation and moves no leaf table. */
  lemma {:induction false} LinkKeepsWalks(mem: Memory, labels: Labels, depth: nat, f: Frame, i: nat, n: Frame,
                                          user: nat, g: Frame, path: Path)
    requires WellFormed(mem, labels, depth) && CanLink(mem, labels, depth, f, i, n, user)
    requires LeadsToLeaf(labels, depth, g, path)
    ensures Walk(Linked(mem, f, i, n, user), g, path) == Walk(mem, g, path)
    ensures LastTable(mem, g, path).Some? ==>
              LastTable(Linked(mem, f, i, n, user), g, path) == LastTable(mem, g, path)
    decreases |path|
  {
    var mem1 := Linked(mem, f, i, n, user);
    TableEntryFields(n, user);
    assert TableOk(mem, labels, depth, f);
    if g == f && path[0] == i {
      assert Read(mem1, n, path[1]) == 0;
    } else {
      assert Read(mem1, g, path[0]) == Read(mem, g, path[0]);
      if |path| > 1 && Present(Read(mem, g, path[0])) {
        StepDown(mem, labels, depth, g, path);
        LinkKeepsWalks(mem, labels, depth, f, i, n, user, Base(Read(mem, g, path[0])), path[1..]);
      }
    }
  }

  ghost predicate CanWriteLeaf(labels: Labels, depth: nat, f: Frame, i: nat, w: Word) {
    && f in labels && |labels[f].prefix| + 1 == depth && i < TABLE_ENTRIES
    && (Present(w) && depth == 3 ==> Large(w))
  }

  lemma LeafWriteKeepsWellFormed(mem: Memory, labels: Labels, depth: nat, f: Frame, i: nat, w: Word)
    requires WellFormed(mem, labels, depth) && CanWriteLeaf(labels, depth, f, i, w)
    ensures WellFormed(Write(mem, f, i, w), labels, depth)
  {
    var mem1 := Write(mem, f, i, w);
    assert TableOk(mem, labels, depth, f);
    forall g | g in labels ensures TableOk(mem1, labels, depth, g) {
      assert TableOk(mem, labels, depth, g);
    }
    forall g, j | g in labels && 0 <= j < TABLE_ENTRIES ensures LinkOk(mem1, labels, depth, g, j) {
      assert LinkOk(mem, labels, depth, g, j);
      if !(g == f && i == j) { assert Read(mem1, g, j) == Read(mem, g, j); }
    }
  }

  /** Writing a leaf entry changes the translations that end in that entry and no other. */
  lemma {:induction false} LeafWriteWalks(mem: Memory, labels: Labels, depth: nat, f: Frame, i: nat, w: Word,
                                          g: Frame, path: Path)
    requires WellFormed(mem, labels, depth) && CanWriteLeaf(labels, depth, f, i, w)
    requires LeadsToLeaf(labels, depth, g, path)
    ensures LastTable(Write(mem, f, i, w), g, path) == LastTable(mem, g, path)
    ensures Walk(Write(mem, f, i, w), g, path) ==
      if LastTable(mem, g, path) == Some(f) && Last(path) == i
      then (if Present(w) then Some(w) else None)
      else Walk(mem, g, path)
    decreases |path|
  {
    var mem1 := Write(mem, f, i, w);
    assert TableOk(mem, labels, depth, f);
    if |path| > 1 {
      assert Read(mem1, g, path[0]) == Read(mem, g, path[0]);
      if Present(Read(mem, g, path[0])) {
        StepDown(mem, labels, depth, g, path);
        LeafWriteWalks(mem, labels, depth, f, i, w, Base(Read(mem, g, path[0])), path[1..]);
      }
    }
  }
}
