/** The ranges of a task whose window the kernel already uses. */
module TaskRanges {
  import opened Bits
  import opened PageTable
  import opened Addresses
  import opened Mapping
  import opened Backing
  import opened RangeBacking
  import opened AddressSpaces
  import TableCount

  /** Making the next frame the root of a task keeps the rest of the supply whole. */
  lemma NewTaskKeepsWhole(st: State, depth: nat, kernel: Frame)
    requires depth in {3, 4} && Valid(st, depth) && IsRoot(st, kernel)
    requires st.supply != [] && WholeFrames(st, PageSize(depth))
    ensures WholeFrames(NewTask(st, kernel), PageSize(depth))
  {
    NewTaskKeepsValid(st, depth, kernel);
    MoveKeepsWhole(st, NewTask(st, kernel), PageSize(depth));
  }

  /** With frames for its pages and tables, a new task can back a range of its window. */
  lemma TaskCanBack(st: State, kernel: Frame, l: Layout, v: nat, n: nat, flags: nat)
    requires LayoutOk(l) && Valid(st, l.depth) && IsRoot(st, kernel)
    requires WholeFrames(st, PageSize(l.depth)) && flags < 0x1000
    requires |st.supply| >= 1 + n + TableCount.TableBound(l.depth, v / PageSize(l.depth), n) && st.supply != []
    requires l.root == st.supply[0] && l.lo <= v <= PageOn(l.depth, v, n) <= l.hi
    ensures CanBackRange(NewTask(st, kernel), l, v, n, flags)
  {
    NewTaskKeepsValid(st, l.depth, kernel);
    NewTaskKeepsWhole(st, l.depth, kernel);
    FewFramesBackRange(NewTask(st, kernel), l, v, n, flags);
  }

  lemma FrameOfNewTask(st: State, kernel: Frame, l: Layout, a: nat)
    requires LayoutOk(l) && Valid(st, l.depth) && IsRoot(st, kernel) && st.supply != [] && l.root == st.supply[0]
    requires Inside(l, a) && a >= HIGHER_HALF_START
    ensures FrameAt(NewTask(st, kernel), l, a) == Translate(st, kernel, PagePath(l.depth, a))
  {
    NewTaskKeepsValid(st, l.depth, kernel);
    InsideLeads(NewTask(st, kernel), l, a);
    HalfOfAddress(a);
    FreshTaskSpace(st, l.depth, kernel, PagePath(l.depth, a));
  }

  /** A page of the first range that a new task backs gets a frame of its own exactly if the kernel has nothing
      mapped there. A supervisor task, whose window begins where that of the kernel does, thus gets the pages
      of the kernel: its stack stands in frames that the kernel uses, and the frames taken for it are lost. */
  lemma TaskPageIsOwnIff(st: State, kernel: Frame, l: Layout, v: nat, n: nat, flags: nat, k: nat)
    requires LayoutOk(l) && Valid(st, l.depth) && IsRoot(st, kernel)
    requires WholeFrames(st, PageSize(l.depth)) && flags < 0x1000
    requires |st.supply| >= 1 + n + TableCount.TableBound(l.depth, v / PageSize(l.depth), n) && st.supply != []
    requires l.root == st.supply[0] && HIGHER_HALF_START <= l.lo <= v <= PageOn(l.depth, v, n) <= l.hi && k < n
    requires var before := Translate(st, kernel, PagePath(l.depth, PageOn(l.depth, v, k)));
      before.Some? ==> before.value !in st.supply
    ensures var st1, a := NewTask(st, kernel), PageOn(l.depth, v, k);
      var before, after := Translate(st, kernel, PagePath(l.depth, a)), FrameAt(BackRange(st1, l, v, n, flags), l, a);
      && after.Some? && (after.value in st1.supply <==> before.None?) && (before.Some? ==> after == before)
  {
    var st1, a := NewTask(st, kernel), PageOn(l.depth, v, k);
    TaskCanBack(st, kernel, l, v, n, flags);
    RangeInside(l, st1, v, n, flags, k);
    PageOnInside(l.depth, v, n, k);
    FrameOfNewTask(st, kernel, l, a);
    var pages, user := PagesOf(l.depth, v, n), UserStatus(v);
    var low := Low(l.depth, ArchFlags(flags, user), user);
    RangeCanBack(st1, l, v, n, flags);
    RangePagesDiffer(st1, l, v, n, flags);
    assert pages[k] == PagePath(l.depth, a);
    BackMapsIff(st1, l.depth, l.root, pages, user, low, k);
    BackFramesFromSupply(st1, l.depth, l.root, pages, user, low, k);
  }
}
