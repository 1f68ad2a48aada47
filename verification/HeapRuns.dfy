/** The blocks that callers of the kernel heap hold, over whole runs. */
module HeapRuns {
  import opened Bits
  import opened KernelHeap

  // ----- a node in use stays -----

  lemma TakeKeepsUsed(bs: Blocks, k: nat, need: nat, b: Block)
    requires k < |bs| && Fits(bs[k], need) && b in bs && !b.free
    ensures b in TakeAt(bs, k, need)
  {
    var j :| 0 <= j < |bs| && bs[j] == b;
    var t := TakeAt(bs, k, need);
    if Splits(bs[k], need) {
      var i := if j < k then j else j + 1;
      SplitAtIndex(bs, k, need, i);
      assert t[i] == b;
    } else {
      assert t[j] == b;
    }
  }

  lemma MergeKeepsOther(bs: Blocks, i: nat, b: Block)
    requires i + 1 < |bs| && b in bs && b != bs[i] && b != bs[i + 1]
    ensures b in MergeAt(bs, i)
  {
    var j :| 0 <= j < |bs| && bs[j] == b;
    var k := if j < i then j else j - 1;
    MergeAtIndex(bs, i, k);
    assert MergeAt(bs, i)[k] == b;
  }

  lemma FreeKeepsUsed(bs: Blocks, k: nat, b: Block)
    requires k < |bs| && b in bs && !b.free && b != bs[k]
    ensures b in FreeAt(bs, k)
  {
    var freed := bs[k := bs[k].(free := true)];
    var j :| 0 <= j < |bs| && bs[j] == b;
    assert freed[j] == b;
    var right := freed;
    if k + 1 < |bs| && bs[k + 1].free {
      right := MergeAt(freed, k);
      MergeKeepsOther(freed, k, b);
      MergeAtIndex(freed, k, k);
      if k > 0 { MergeAtIndex(freed, k, k - 1); }
    }
    if k > 0 && bs[k - 1].free { MergeKeepsOther(right, k - 1, b); }
  }

  /** A node in use survives every call that does not release its block, with its address and its size. */
  lemma StepKeepsUsed(h: Heap, op: Op, b: Block)
    requires h.blocks != [] && b in h.blocks && !b.free && op != Release(b.addr + HEADER)
    ensures b in Step(h, op).blocks
  {
    match op
    case Alloc(size) =>
      var k := Stop(h.blocks, h.heapEnd, RealSize(size), 0);
      if Malloc(h, size).1.Pointer? { TakeKeepsUsed(h.blocks, k, RealSize(size), b); }
    case Release(ptr) =>
      var k := Find(h.blocks, ptr, 0);
      if InHeap(h, ptr) && k < |h.blocks| { FreeKeepsUsed(h.blocks, k, b); }
  }

  /** So it survives every run in which nobody releases it. */
  lemma {:induction false} RunKeepsUsed(h: Heap, ops: seq<Op>, b: Block)
    requires EnabledRun(h, ops) && b in h.blocks && !b.free && Release(b.addr + HEADER) !in ops
    ensures b in Run(h, ops).blocks
    decreases |ops|
  {
    if ops != [] {
      StepKeepsUsed(h, ops[0], b);
      assert Release(b.addr + HEADER) !in ops[1..];
      RunKeepsUsed(Step(h, ops[0]), ops[1..], b);
    }
  }

  // ----- live blocks -----

  /** A block in the hands of a caller: its pointer and the size that was asked for. */
  datatype Held = Held(ptr: nat, size: nat)

  /** The blocks that are left after one has been released. */
  function Without(live: seq<Held>, ptr: nat): (rest: seq<Held>)
    ensures forall x :: x in rest <==> x in live && x.ptr != ptr
  {
    if live == [] then []
    else if live[0].ptr == ptr then Without(live[1..], ptr)
    else [live[0]] + Without(live[1..], ptr)
  }

  /** Who holds what after a call. */
  function LiveAfter(h: Heap, op: Op, live: seq<Held>): seq<Held> {
    match op
    case Alloc(size) => if Malloc(h, size).1.Pointer? then live + [Held(Malloc(h, size).1.addr, size)] else live
    case Release(ptr) => Without(live, ptr)
  }

  /** Who holds what after a run. */
  ghost function LiveIn(h: Heap, ops: seq<Op>, live: seq<Held>): seq<Held>
    requires EnabledRun(h, ops)
    decreases |ops|
  {
    if ops == [] then live else LiveIn(Step(h, ops[0]), ops[1..], LiveAfter(h, ops[0], live))
  }

  /** Block x is the payload of node b, which is in use and has the size that `kmalloc` looked for. */
  ghost predicate Backs(b: Block, x: Held) {
    !b.free && b.addr + HEADER == x.ptr && b.size >= RealSize(x.size)
  }

  ghost predicate IsBacked(bs: Blocks, x: Held) {
    exists b :: b in bs && Backs(b, x)
  }

  ghost predicate DistinctPointers(live: seq<Held>) {
    forall i, j :: 0 <= i < j < |live| ==> live[i].ptr != live[j].ptr
  }

  /** Every block held is a node in use, and no two are the same. */
  ghost predicate LiveOk(h: Heap, live: seq<Held>) {
    DistinctPointers(live) && forall x :: x in live ==> IsBacked(h.blocks, x)
  }

  lemma {:induction false} WithoutDistinct(live: seq<Held>, ptr: nat)
    requires DistinctPointers(live)
    ensures DistinctPointers(Without(live, ptr))
    decreases |live|
  {
    if live != [] {
      WithoutDistinct(live[1..], ptr);
      var rest, r := Without(live[1..], ptr), Without(live, ptr);
      if live[0].ptr != ptr {
        forall j | 0 < j < |r| ensures r[j].ptr != live[0].ptr {
          assert r[j] == rest[j - 1] && rest[j - 1] in live[1..];
        }
      }
    }
  }

  lemma AppendDistinct(live: seq<Held>, x: Held)
    requires DistinctPointers(live) && forall y :: y in live ==> y.ptr != x.ptr
    ensures DistinctPointers(live + [x])
  {}

  lemma BackedStays(h: Heap, op: Op, x: Held)
    requires h.blocks != [] && IsBacked(h.blocks, x) && op != Release(x.ptr)
    ensures IsBacked(Step(h, op).blocks, x)
  {
    var b :| b in h.blocks && Backs(b, x);
    StepKeepsUsed(h, op, b);
  }

  /** A new block is a node in use that no caller held. */
  lemma NewBlock(h: Heap, size: nat)
    requires Sound(h.blocks) && Malloc(h, size).1.Pointer?
    ensures IsBacked(Malloc(h, size).0.blocks, Held(Malloc(h, size).1.addr, size))
    ensures forall y :: IsBacked(h.blocks, y) ==> y.ptr != Malloc(h, size).1.addr
  {
    var need := RealSize(size);
    var k := Stop(h.blocks, h.heapEnd, need, 0);
    var t := TakeAt(h.blocks, k, need);
    if Splits(h.blocks[k], need) { SplitAtIndex(h.blocks, k, need, k); }
    assert t[k] in t && Backs(t[k], Held(Malloc(h, size).1.addr, size));
    forall y | IsBacked(h.blocks, y) ensures y.ptr != h.blocks[k].addr + HEADER {
      var b :| b in h.blocks && Backs(b, y);
      var j :| 0 <= j < |h.blocks| && h.blocks[j] == b;
      NodesAscend(h.blocks, j, k);
    }
  }

  lemma StepKeepsLive(h: Heap, op: Op, live: seq<Held>)
    requires Sound(h.blocks) && LiveOk(h, live)
    ensures LiveOk(Step(h, op), LiveAfter(h, op, live))
  {
    forall x | x in live && op != Release(x.ptr) ensures IsBacked(Step(h, op).blocks, x) { BackedStays(h, op, x); }
    match op
    case Alloc(size) =>
      if Malloc(h, size).1.Pointer? {
        NewBlock(h, size);
        AppendDistinct(live, Held(Malloc(h, size).1.addr, size));
      }
    case Release(ptr) => WithoutDistinct(live, ptr);
  }

  lemma {:induction false} RunKeepsLive(h: Heap, ops: seq<Op>, live: seq<Held>)
    requires Sound(h.blocks) && LiveOk(h, live) && EnabledRun(h, ops)
    ensures Sound(Run(h, ops).blocks) && LiveOk(Run(h, ops), LiveIn(h, ops, live))
    decreases |ops|
  {
    if ops != [] {
      StepKeeps(h, ops[0]);
      StepKeepsLive(h, ops[0], live);
      RunKeepsLive(Step(h, ops[0]), ops[1..], LiveAfter(h, ops[0], live));
    }
  }

  lemma LiveApart(h: Heap, live: seq<Held>, i: nat, j: nat)
    requires Sound(h.blocks) && LiveOk(h, live) && i < |live| && j < |live| && i != j
    ensures var x, y := live[i], live[j];
      x.ptr + RealSize(x.size) + HEADER <= y.ptr || y.ptr + RealSize(y.size) + HEADER <= x.ptr
  {
    var x, y := live[i], live[j];
    assert x in live && y in live;
    var a :| a in h.blocks && Backs(a, x);
    var b :| b in h.blocks && Backs(b, y);
    var k :| 0 <= k < |h.blocks| && h.blocks[k] == a;
    var l :| 0 <= l < |h.blocks| && h.blocks[l] == b;
    if k < l { NodesDisjoint(h.blocks, k, l); } else { NodesDisjoint(h.blocks, l, k); }
  }

  /** Over every run, of any sizes and pointers, that does not expand the heap: two blocks that were handed
      out and not released since lie apart, each as large as was asked for unless its size wrapped around,
      with the header of the upper one between them. */
  lemma LiveBlocksDisjoint(h: Heap, ops: seq<Op>, i: nat, j: nat)
    requires Sound(h.blocks) && EnabledRun(h, ops) && i != j
    requires i < |LiveIn(h, ops, [])| && j < |LiveIn(h, ops, [])|
    ensures var x, y := LiveIn(h, ops, [])[i], LiveIn(h, ops, [])[j];
      && (x.ptr + RealSize(x.size) + HEADER <= y.ptr || y.ptr + RealSize(y.size) + HEADER <= x.ptr)
      && (x.size < TWO_64 - 48 ==> x.size <= RealSize(x.size))
  {
    var live := LiveIn(h, ops, []);
    RunKeepsLive(h, ops, []);
    LiveApart(Run(h, ops), live, i, j);
    if live[i].size < TWO_64 - 48 { RealSizeSufficesIff(live[i].size); }
  }

  // ----- the page of the heap -----

  lemma {:induction false} EndOfLast(bs: Blocks)
    requires Tiled(bs) && bs != []
    ensures End(bs[|bs| - 1]) == bs[0].addr + Span(bs)
    decreases |bs|
  {
    if |bs| == 1 {
      assert bs == [bs[0]];
      SpanOfOne(bs[0]);
    } else {
      var rest := bs[1..];
      assert Joins(bs, 0);
      forall i | 0 <= i < |rest| - 1 ensures Joins(rest, i) { assert Joins(bs, i + 1); }
      EndOfLast(rest);
    }
  }

  /** The first node is given a whole page behind its header, so the heap ends a header beyond its page. Yet
      the bytes that callers asked for stay on the page, since each size includes a second header; and so do
      all headers exactly if the last node is at least as large as a header. */
  lemma HeapStaysOnPageIff(start: nat, pageSize: nat, ops: seq<Op>)
    requires EnabledRun(InitialHeap(start, pageSize), ops)
    ensures var h1 := Run(InitialHeap(start, pageSize), ops);
      && h1.blocks != []
      && ((forall i :: 0 <= i < |h1.blocks| ==> h1.blocks[i].addr + HEADER <= start + pageSize)
          <==> h1.blocks[|h1.blocks| - 1].size >= HEADER)
    ensures forall x :: x in LiveIn(InitialHeap(start, pageSize), ops, []) && x.size < TWO_64 - 48 ==>
      x.ptr + x.size <= start + pageSize
  {
    var h := InitialHeap(start, pageSize);
    var h1 := Run(h, ops);
    RunKeepsHeap(h, ops);
    RunKeepsLive(h, ops, []);
    EndOfLast(h1.blocks);
    var last := |h1.blocks| - 1;
    forall i | 0 <= i < last
      ensures h1.blocks[i].addr + HEADER <= h1.blocks[last].addr
    {
      NodesDisjoint(h1.blocks, i, last);
    }
    forall x | x in LiveIn(h, ops, []) && x.size < TWO_64 - 48 ensures x.ptr + x.size <= start + pageSize {
      LiveOnPage(h1, start + pageSize, x);
    }
  }

  lemma LiveOnPage(h: Heap, end: nat, x: Held)
    requires Tiled(h.blocks) && h.blocks != [] && End(h.blocks[|h.blocks| - 1]) == end + HEADER
    requires IsBacked(h.blocks, x) && x.size < TWO_64 - 48
    ensures x.ptr + x.size <= end
  {
    var b :| b in h.blocks && Backs(b, x);
    var k :| 0 <= k < |h.blocks| && h.blocks[k] == b;
    RealSizeSufficesIff(x.size);
    if k < |h.blocks| - 1 { NodesDisjoint(h.blocks, k, |h.blocks| - 1); }
  }

  /** A first allocation of 4000 bytes leaves a free node of 16 bytes, the header of which ends beyond the
      page. */
  lemma HeaderLeavesPage() returns (ops: seq<Op>)
    ensures EnabledRun(InitialHeap(0x1000, 0x1000), ops)
    ensures Block(0x1FF0, 16, true) in Run(InitialHeap(0x1000, 0x1000), ops).blocks
  {
    var h0 := InitialHeap(0x1000, 0x1000);
    var h1 := Heap([Block(0x1000, 4048, false), Block(0x1FF0, 16, true)], 0x1FF0);
    assert RealSize(4000) == 4048;
    MallocAt(h0, 4000, 0, h1);
    RunCons(h0, Alloc(4000), [], h1, h1);
    ops := [Alloc(4000)] + [];
    assert h1.blocks[1] in h1.blocks;
  }
}
