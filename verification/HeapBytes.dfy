/** The free bytes of the kernel heap: what `kfree` gives back and `kmalloc` takes, over whole runs. */
module HeapBytes {
  import opened Bits
  import opened KernelHeap
  import opened HeapRuns

  // ----- free bytes -----

  /** The node covers the byte, header included. */
  predicate Covers(b: Block, a: nat) { b.addr <= a < End(b) }

  ghost predicate FreeIn(bs: Blocks, i: nat, a: nat) { i < |bs| && bs[i].free && Covers(bs[i], a) }

  /** The byte lies in a free node. */
  ghost predicate FreeByte(bs: Blocks, a: nat) { exists i: nat :: FreeIn(bs, i, a) }

  /** Setting a node free adds its bytes. */
  lemma SetFreeBytes(bs: Blocks, k: nat, a: nat)
    requires k < |bs|
    ensures FreeByte(bs[k := bs[k].(free := true)], a) <==> FreeByte(bs, a) || Covers(bs[k], a)
  {
    var t := bs[k := bs[k].(free := true)];
    if FreeByte(bs, a) {
      var i: nat :| FreeIn(bs, i, a);
      assert FreeIn(t, i, a);
    }
    if Covers(bs[k], a) { assert FreeIn(t, k, a); }
    if FreeByte(t, a) {
      var i: nat :| FreeIn(t, i, a);
      assert i == k || FreeIn(bs, i, a);
    }
  }

  /** Merging two free nodes that join adds and loses none. */
  lemma MergeBytes(bs: Blocks, i: nat, a: nat)
    requires i + 1 < |bs| && Joins(bs, i) && bs[i].free && bs[i + 1].free
    ensures FreeByte(MergeAt(bs, i), a) <==> FreeByte(bs, a)
  {
    var t := MergeAt(bs, i);
    MergeAtIndex(bs, i, i);
    if FreeByte(bs, a) {
      var j: nat :| FreeIn(bs, j, a);
      var k := if j <= i then j else j - 1;
      MergeAtIndex(bs, i, k);
      assert FreeIn(t, k, a);
    }
    if FreeByte(t, a) {
      var k: nat :| FreeIn(t, k, a);
      MergeAtIndex(bs, i, k);
      var j := if k < i || (k == i && Covers(bs[i], a)) then k else k + 1;
      assert FreeIn(bs, j, a);
    }
  }

  /** Freeing a node makes its bytes free and no others. */
  lemma FreeAtBytes(bs: Blocks, k: nat, a: nat)
    requires Tiled(bs) && k < |bs|
    ensures FreeByte(FreeAt(bs, k), a) <==> FreeByte(bs, a) || Covers(bs[k], a)
  {
    var freed := bs[k := bs[k].(free := true)];
    SetFreeBytes(bs, k, a);
    assert k + 1 < |bs| ==> Joins(bs, k);
    assert k > 0 ==> Joins(bs, k - 1);
    var right := freed;
    if k + 1 < |bs| && bs[k + 1].free {
      right := MergeAt(freed, k);
      MergeBytes(freed, k, a);
      MergeAtIndex(freed, k, k);
      if k > 0 { MergeAtIndex(freed, k, k - 1); }
    }
    if k > 0 && bs[k - 1].free { MergeBytes(right, k - 1, a); }
  }

  /** The bytes of the node freed end up in one free node. */
  lemma FreeAtCovers(bs: Blocks, k: nat) returns (n: nat)
    requires Tiled(bs) && k < |bs|
    ensures n < |FreeAt(bs, k)| && FreeAt(bs, k)[n].free
    ensures FreeAt(bs, k)[n].addr <= bs[k].addr && End(bs[k]) <= End(FreeAt(bs, k)[n])
  {
    var freed := bs[k := bs[k].(free := true)];
    assert k > 0 ==> Joins(bs, k - 1);
    var right := freed;
    if k + 1 < |bs| && bs[k + 1].free {
      right := MergeAt(freed, k);
      MergeAtIndex(freed, k, k);
      if k > 0 { MergeAtIndex(freed, k, k - 1); }
    }
    n := k;
    if k > 0 && bs[k - 1].free {
      MergeAtIndex(right, k - 1, k - 1);
      n := k - 1;
    }
  }

  /** `kfree` of a block in use that is not above the end pointer: all bytes of its node are free afterwards, in
      one node, and every other byte is free exactly if it was. */
  lemma KfreeBytes(h: Heap, k: nat, a: nat) returns (n: nat)
    requires Sound(h.blocks) && k < |h.blocks| && !h.blocks[k].free && h.blocks[k].addr + HEADER <= h.heapEnd
    ensures Kfree(h, h.blocks[k].addr + HEADER).heapEnd == h.heapEnd
    ensures var bs := Kfree(h, h.blocks[k].addr + HEADER).blocks;
      && (FreeByte(bs, a) <==> FreeByte(h.blocks, a) || h.blocks[k].addr <= a < End(h.blocks[k]))
      && n < |bs| && bs[n].free && bs[n].addr <= h.blocks[k].addr && End(h.blocks[k]) <= End(bs[n])
  {
    FindIsNode(h.blocks, k);
    NodesAscend(h.blocks, 0, k);
    FreeAtBytes(h.blocks, k, a);
    n := FreeAtCovers(h.blocks, k);
  }

  lemma NodesApart(bs: Blocks, i: nat, j: nat, a: nat)
    requires Tiled(bs) && i < |bs| && j < |bs| && Covers(bs[i], a) && Covers(bs[j], a)
    ensures i == j
  {
    if i < j { NodesDisjoint(bs, i, j); } else if j < i { NodesDisjoint(bs, j, i); }
  }

  /** Taking a free node makes the bytes of the node taken, and no others, unavailable. */
  lemma TakeAtBytes(bs: Blocks, k: nat, need: nat, a: nat)
    requires Tiled(bs) && k < |bs| && Fits(bs[k], need)
    ensures k < |TakeAt(bs, k, need)|
    ensures FreeByte(TakeAt(bs, k, need), a) <==> FreeByte(bs, a) && !Covers(TakeAt(bs, k, need)[k], a)
  {
    var t := TakeAt(bs, k, need);
    if Splits(bs[k], need) { SplitAtIndex(bs, k, need, k); }
    if FreeByte(t, a) {
      var j: nat :| FreeIn(t, j, a);
      if Splits(bs[k], need) { SplitAtIndex(bs, k, need, j); }
      var i := if Splits(bs[k], need) && j > k then j - 1 else j;
      assert FreeIn(bs, i, a);
      if Covers(bs[k], a) { NodesApart(bs, i, k, a); }
    }
    if FreeByte(bs, a) && !Covers(t[k], a) {
      var i: nat :| FreeIn(bs, i, a);
      var j := if Splits(bs[k], need) && i >= k then i + 1 else i;
      if Splits(bs[k], need) { SplitAtIndex(bs, k, need, j); }
      assert FreeIn(t, j, a);
    }
  }

  /** `kmalloc` takes exactly one node: a header and at least what was asked for, at most as much more as is not
      worth a node of its own. */
  lemma MallocBytes(h: Heap, size: nat, a: nat)
    requires Sound(h.blocks) && size < TWO_64 - 48 && Malloc(h, size).1.Pointer?
    ensures var (h1, r) := Malloc(h, size);
      var k := Find(h1.blocks, r.addr, 0);
      && k < |h1.blocks| && !h1.blocks[k].free && h1.blocks[k].addr == r.addr - HEADER
      && size + 32 < h1.blocks[k].size <= size + 80
      && (FreeByte(h1.blocks, a) <==> FreeByte(h.blocks, a) && !Covers(h1.blocks[k], a))
  {
    var need := RealSize(size);
    var k := Stop(h.blocks, h.heapEnd, need, 0);
    var h1 := Malloc(h, size).0;
    RealSizeSufficesIff(size);
    TakeKeepsSound(h.blocks, k, need);
    TakeAtBytes(h.blocks, k, need, a);
    if Splits(h.blocks[k], need) { SplitAtIndex(h.blocks, k, need, k); }
    FindIsNode(h1.blocks, k);
  }

  /** What `kmalloc` answers: a block exactly if a free node fits before the search passes the node that the
      end pointer names; NULL for size 0 or if the search runs off the list; else it expands the heap. */
  lemma MallocAnswers(h: Heap, size: nat)
    ensures var need, r := RealSize(size), Malloc(h, size).1;
      && (r.Pointer? <==> size > 0 && exists k: nat :: FirstFit(h, need, k))
      && (r.Expands? <==> size > 0 && (forall k: nat :: !FirstFit(h, need, k)) && HasNode(h.blocks, h.heapEnd))
      && (r.Pointer? ==> exists k: nat :: FirstFit(h, need, k) && r.addr == h.blocks[k].addr + HEADER)
  {
    var need := RealSize(size);
    var k := Stop(h.blocks, h.heapEnd, need, 0);
    if k < |h.blocks| && Fits(h.blocks[k], need) { assert FirstFit(h, need, k); }
    forall j: nat | FirstFit(h, need, j) ensures j == k {}
  }

  /** Node k is the first free one that is large enough, and the end pointer names none before it. */
  ghost predicate FirstFit(h: Heap, need: nat, k: nat) {
    && k < |h.blocks| && h.blocks[k].free && h.blocks[k].size >= need
    && forall j :: 0 <= j < k ==> !(h.blocks[j].free && h.blocks[j].size >= need) && h.blocks[j].addr != h.heapEnd
  }

  // ----- blocks in use over runs -----

  /** A node in use has its payload at the pointer. */
  ghost predicate UsedAt(bs: Blocks, ptr: nat) {
    exists b :: b in bs && !b.free && b.addr + HEADER == ptr
  }

  lemma UsedAtIndex(bs: Blocks, i: nat)
    requires i < |bs|
    ensures !bs[i].free ==> UsedAt(bs, bs[i].addr + HEADER)
  {
    assert bs[i] in bs;
  }

  /** Freeing a node of a sound heap ends the use of it and of no other. */
  lemma FreeUsed(bs: Blocks, k: nat, ptr: nat)
    requires Sound(bs) && k < |bs|
    ensures UsedAt(FreeAt(bs, k), ptr) <==> UsedAt(bs, ptr) && ptr != bs[k].addr + HEADER
  {
    var t := FreeAt(bs, k);
    if UsedAt(bs, ptr) && ptr != bs[k].addr + HEADER {
      var b :| b in bs && !b.free && b.addr + HEADER == ptr;
      FreeKeepsUsed(bs, k, b);
    }
    if UsedAt(t, ptr) {
      var b :| b in t && !b.free && b.addr + HEADER == ptr;
      FreeAddsNone(bs, k, b);
    }
  }

  lemma MergeAddsNone(bs: Blocks, i: nat, b: Block)
    requires i + 1 < |bs| && bs[i].free && b in MergeAt(bs, i) && !b.free
    ensures exists j :: 0 <= j < |bs| && j != i && bs[j] == b
  {
    var t := MergeAt(bs, i);
    var k :| 0 <= k < |t| && t[k] == b;
    MergeAtIndex(bs, i, k);
    assert k != i;
    assert bs[if k < i then k else k + 1] == b;
  }

  lemma FreeAddsNone(bs: Blocks, k: nat, b: Block)
    requires Sound(bs) && k < |bs| && b in FreeAt(bs, k) && !b.free
    ensures b in bs && b.addr != bs[k].addr
  {
    var freed := bs[k := bs[k].(free := true)];
    var right := if k + 1 < |bs| && bs[k + 1].free then MergeAt(freed, k) else freed;
    if k + 1 < |bs| && bs[k + 1].free && k > 0 { MergeAtIndex(freed, k, k - 1); }
    if k > 0 && bs[k - 1].free { MergeAddsNone(right, k - 1, b); }
    assert b in right;
    if k + 1 < |bs| && bs[k + 1].free { MergeAddsNone(freed, k, b); }
    var j :| 0 <= j < |bs| && freed[j] == b;
    assert j != k && bs[j] == b;
    NodesAscend(bs, j, k);
  }

  lemma TakeUsed(bs: Blocks, k: nat, need: nat, ptr: nat)
    requires k < |bs| && Fits(bs[k], need)
    ensures UsedAt(TakeAt(bs, k, need), ptr) <==> UsedAt(bs, ptr) || ptr == bs[k].addr + HEADER
  {
    var t := TakeAt(bs, k, need);
    if Splits(bs[k], need) { SplitAtIndex(bs, k, need, k); }
    UsedAtIndex(t, k);
    if UsedAt(bs, ptr) {
      var b :| b in bs && !b.free && b.addr + HEADER == ptr;
      TakeKeepsUsed(bs, k, need, b);
    }
    if UsedAt(t, ptr) {
      var b :| b in t && !b.free && b.addr + HEADER == ptr;
      var j :| 0 <= j < |t| && t[j] == b;
      if Splits(bs[k], need) { SplitAtIndex(bs, k, need, j); }
      if j != k { UsedAtIndex(bs, if Splits(bs[k], need) && j > k then j - 1 else j); }
    }
  }

  /** The blocks that are out after a call: one more for a pointer returned, one less for a pointer released
      that is not above the end pointer. */
  function OutAfter(h: Heap, op: Op, out: set<nat>): set<nat> {
    match op
    case Alloc(size) => if Malloc(h, size).1.Pointer? then out + {Malloc(h, size).1.addr} else out
    case Release(ptr) => if ptr <= h.heapEnd then out - {ptr} else out
  }

  ghost function OutIn(h: Heap, ops: seq<Op>, out: set<nat>): set<nat>
    requires EnabledRun(h, ops)
    decreases |ops|
  {
    if ops == [] then out else OutIn(Step(h, ops[0]), ops[1..], OutAfter(h, ops[0], out))
  }

  /** The nodes in use are the blocks that are out. */
  ghost predicate OutOk(h: Heap, out: set<nat>) {
    forall ptr :: UsedAt(h.blocks, ptr) <==> ptr in out
  }

  lemma ReleaseUsed(h: Heap, p: nat, ptr: nat)
    requires Sound(h.blocks)
    ensures UsedAt(Kfree(h, p).blocks, ptr) <==> UsedAt(h.blocks, ptr) && !(ptr == p && p <= h.heapEnd)
  {
    var k := Find(h.blocks, p, 0);
    if k < |h.blocks| {
      NodesAscend(h.blocks, 0, k);
      if p <= h.heapEnd { FreeUsed(h.blocks, k, ptr); }
    }
  }

  /** Releasing a pointer that is not that of a block in use, a second time or by mistake, changes nothing. */
  lemma StrayReleaseIsNoop(h: Heap, ptr: nat)
    requires Sound(h.blocks) && !UsedAt(h.blocks, ptr)
    ensures Kfree(h, ptr) == h
  {
    var k := Find(h.blocks, ptr, 0);
    if k < |h.blocks| {
      UsedAtIndex(h.blocks, k);
      assert k + 1 < |h.blocks| ==> !FreePair(h.blocks, k);
      assert k > 0 ==> !FreePair(h.blocks, k - 1);
      assert h.blocks[k := h.blocks[k].(free := true)] == h.blocks;
    }
  }

  lemma StepKeepsOut(h: Heap, op: Op, out: set<nat>)
    requires Sound(h.blocks) && OutOk(h, out)
    ensures OutOk(Step(h, op), OutAfter(h, op, out))
  {
    forall ptr ensures UsedAt(Step(h, op).blocks, ptr) <==> ptr in OutAfter(h, op, out) {
      match op
      case Alloc(size) =>
        var k := Stop(h.blocks, h.heapEnd, RealSize(size), 0);
        if Malloc(h, size).1.Pointer? { TakeUsed(h.blocks, k, RealSize(size), ptr); }
      case Release(p) => ReleaseUsed(h, p, ptr);
    }
  }

  /** Over every run, of any sizes and pointers, that does not expand the heap: the nodes in use are exactly the
      blocks that were handed out and not released since, where a release above the end pointer does not count. */
  lemma {:induction false} RunKeepsOut(h: Heap, ops: seq<Op>, out: set<nat>)
    requires Sound(h.blocks) && OutOk(h, out) && EnabledRun(h, ops)
    ensures Sound(Run(h, ops).blocks) && OutOk(Run(h, ops), OutIn(h, ops, out))
    decreases |ops|
  {
    if ops != [] {
      StepKeeps(h, ops[0]);
      StepKeepsOut(h, ops[0], out);
      RunKeepsOut(Step(h, ops[0]), ops[1..], OutAfter(h, ops[0], out));
    }
  }

  /** When every block has been released, the heap is what it was at first: one free node. */
  lemma AllReleased(start: nat, pageSize: nat, ops: seq<Op>)
    requires EnabledRun(InitialHeap(start, pageSize), ops)
    ensures OutIn(InitialHeap(start, pageSize), ops, {}) == {} <==>
      Run(InitialHeap(start, pageSize), ops).blocks == [Block(start, pageSize, true)]
  {
    var h := InitialHeap(start, pageSize);
    var bs, out := Run(h, ops).blocks, OutIn(h, ops, {});
    assert OutOk(h, {});
    RunKeepsOut(h, ops, {});
    RunKeepsHeap(h, ops);
    if out == {} {
      forall i | 0 <= i < |bs| ensures bs[i].free {
        UsedAtIndex(bs, i);
      }
      assert |bs| > 1 ==> FreePair(bs, 0);
      assert bs == [bs[0]];
      SpanOfOne(bs[0]);
    } else {
      var ptr :| ptr in out;
      assert UsedAt(bs, ptr);
    }
  }

  // ----- the end pointer while nothing is released -----

  /** All nodes but the last are in use, and the end pointer names the last. */
  ghost predicate Packed(h: Heap) {
    && h.blocks != [] && h.heapEnd == h.blocks[|h.blocks| - 1].addr
    && forall i :: 0 <= i < |h.blocks| - 1 ==> !h.blocks[i].free
  }

  lemma AllocKeepsPacked(h: Heap, size: nat)
    requires Sound(h.blocks) && Packed(h)
    ensures Packed(Malloc(h, size).0)
  {
    var need := RealSize(size);
    var k := Stop(h.blocks, h.heapEnd, need, 0);
    if Malloc(h, size).1.Pointer? {
      var t := TakeAt(h.blocks, k, need);
      assert k == |h.blocks| - 1;
      if Splits(h.blocks[k], need) {
        forall i | 0 <= i < |t| - 1 ensures !t[i].free { SplitAtIndex(h.blocks, k, need, i); }
        SplitAtIndex(h.blocks, k, need, k + 1);
      }
    }
  }

  lemma {:induction false} AllocsKeepPacked(h: Heap, ops: seq<Op>)
    requires Sound(h.blocks) && Packed(h) && EnabledRun(h, ops)
    requires forall i :: 0 <= i < |ops| ==> ops[i].Alloc?
    ensures Sound(Run(h, ops).blocks) && Packed(Run(h, ops))
    decreases |ops|
  {
    if ops != [] {
      StepKeeps(h, ops[0]);
      AllocKeepsPacked(h, ops[0].size);
      AllocsKeepPacked(Step(h, ops[0]), ops[1..]);
    }
  }

  /** As long as nothing is released the end pointer names the last node, so that every block can be released
      but one that lies in that node. */
  lemma EndIsLastUntilRelease(start: nat, pageSize: nat, ops: seq<Op>, i: nat)
    requires EnabledRun(InitialHeap(start, pageSize), ops) && forall j :: 0 <= j < |ops| ==> ops[j].Alloc?
    requires i < |Run(InitialHeap(start, pageSize), ops).blocks|
    ensures var h := Run(InitialHeap(start, pageSize), ops);
      && h.heapEnd == h.blocks[|h.blocks| - 1].addr
      && (h.blocks[i].addr + HEADER <= h.heapEnd <==> i < |h.blocks| - 1)
  {
    var h := Run(InitialHeap(start, pageSize), ops);
    AllocsKeepPacked(InitialHeap(start, pageSize), ops);
    if i < |h.blocks| - 1 { NodesDisjoint(h.blocks, i, |h.blocks| - 1); }
  }

  // ----- expanding -----

  /** Expanding a heap whose end pointer names the last node adds exactly the bytes of the new node, header
      included, to the free ones, keeps the blocks in use, and lets the end pointer name the new area. */
  lemma ExpandBytes(h: Heap, a: nat, size: nat, b: nat, ptr: nat)
    requires Sound(h.blocks) && h.blocks[|h.blocks| - 1].addr == h.heapEnd
    ensures var h1 := Expand(h, |h.blocks| - 1, a, size);
      && (FreeByte(h1.blocks, b) <==> FreeByte(h.blocks, b) || a <= b < a + HEADER + size)
      && (UsedAt(h1.blocks, ptr) <==> UsedAt(h.blocks, ptr))
      && h1.heapEnd == a
  {
    var e := |h.blocks| - 1;
    var linked := h.blocks[..e + 1] + [Block(a, size, true)];
    assert linked == h.blocks + [Block(a, size, true)];
    AppendBytes(h.blocks, a, size, b, ptr);
    if h.blocks[e].free && End(h.blocks[e]) == a {
      assert Joins(linked, e);
      MergeBytes(linked, e, b);
      MergeUsed(linked, e, ptr);
    }
  }

  lemma AppendBytes(bs: Blocks, a: nat, size: nat, b: nat, ptr: nat)
    ensures var t := bs + [Block(a, size, true)];
      && (FreeByte(t, b) <==> FreeByte(bs, b) || a <= b < a + HEADER + size)
      && (UsedAt(t, ptr) <==> UsedAt(bs, ptr))
  {
    var n := Block(a, size, true);
    var t := bs + [n];
    assert t[|bs|] == n && forall i :: 0 <= i < |bs| ==> t[i] == bs[i];
    if FreeByte(bs, b) {
      var i: nat :| FreeIn(bs, i, b);
      assert FreeIn(t, i, b);
    }
    if a <= b < a + HEADER + size { assert FreeIn(t, |bs|, b); }
    if FreeByte(t, b) {
      var i: nat :| FreeIn(t, i, b);
      assert i == |bs| || FreeIn(bs, i, b);
    }
    if UsedAt(bs, ptr) {
      var x :| x in bs && !x.free && x.addr + HEADER == ptr;
      assert x in t;
    }
  }

  lemma MergeUsed(bs: Blocks, i: nat, ptr: nat)
    requires i + 1 < |bs| && bs[i].free && bs[i + 1].free
    ensures UsedAt(MergeAt(bs, i), ptr) <==> UsedAt(bs, ptr)
  {
    if UsedAt(bs, ptr) {
      var b :| b in bs && !b.free && b.addr + HEADER == ptr;
      MergeKeepsOther(bs, i, b);
    }
    if UsedAt(MergeAt(bs, i), ptr) {
      var b :| b in MergeAt(bs, i) && !b.free && b.addr + HEADER == ptr;
      MergeAddsNone(bs, i, b);
    }
  }
}
