/** The kernel heap: a first-fit allocator over a doubly linked list of nodes that lie one after the
    other in memory, each a 32-byte header followed by its payload. */
module KernelHeap {
  import opened Bits

  const HEADER: nat := 32
  const ALIGNMENT: nat := 16
  const MINIMUM_ALLOCABLE: nat := 0x20

  // ----- the heap as a list of blocks -----

  datatype Block = Block(addr: nat, size: nat, free: bool)
  type Blocks = seq<Block>

  function End(b: Block): nat { b.addr + HEADER + b.size }

  ghost predicate Joins(bs: Blocks, i: nat)
    requires i + 1 < |bs|
  {
    End(bs[i]) == bs[i + 1].addr
  }

  /** Each node starts where the one before it ends. */
  ghost predicate Tiled(bs: Blocks) {
    forall i :: 0 <= i < |bs| - 1 ==> Joins(bs, i)
  }

  ghost predicate FreePair(bs: Blocks, i: nat)
    requires i + 1 < |bs|
  {
    bs[i].free && bs[i + 1].free
  }

  /** No two neighbours are both free. */
  ghost predicate Coalesced(bs: Blocks) {
    forall i :: 0 <= i < |bs| - 1 ==> !FreePair(bs, i)
  }

  ghost predicate AlignedBlock(b: Block) {
    b.addr % ALIGNMENT == 0 && b.size % ALIGNMENT == 0
  }

  ghost predicate AlignedBlocks(bs: Blocks) {
    forall i :: 0 <= i < |bs| ==> AlignedBlock(bs[i])
  }

  /** The bytes that headers and payloads take together. */
  function Span(bs: Blocks): nat {
    if bs == [] then 0 else HEADER + bs[0].size + Span(bs[1..])
  }

  lemma {:induction false} SpanConcat(a: Blocks, b: Blocks)
    ensures Span(a + b) == Span(a) + Span(b)
    decreases |a|
  {
    if a == [] {
      assert a + b == b;
    } else {
      SpanConcat(a[1..], b);
      assert (a + b)[1..] == a[1..] + b;
    }
  }

  /** `align`, in 64-bit arithmetic. */
  function Align(size: nat): nat { (size / ALIGNMENT + 1) * ALIGNMENT % TWO_64 }

  /** The payload that `kmalloc` asks for: the request plus a header, rounded up, with the
      wrap-around of both 64-bit additions. */
  function RealSize(size: nat): nat { Align((size + HEADER) % TWO_64) }

  /** The payload is large enough exactly for requests that do not wrap around. */
  lemma RealSizeSufficesIff(size: nat)
    requires size < TWO_64
    ensures RealSize(size) >= size <==> size < TWO_64 - 48
    ensures size < TWO_64 - 48 ==> size + HEADER < RealSize(size) <= size + HEADER + ALIGNMENT
    ensures RealSize(size) % ALIGNMENT == 0
  {
    if size < TWO_64 - 48 {
      assert (size + 32) % TWO_64 == size + 32;
      var q := (size + 32) / 16;
      assert size + 32 == 16 * q + (size + 32) % 16;
      assert (q + 1) * 16 <= size + 48 < TWO_64;
    } else if size < TWO_64 - 32 {
      assert (size + 32) / 16 == 0xFFF_FFFF_FFFF_FFFF;
    } else {
      assert (size + 32) % TWO_64 == size + 32 - TWO_64 < 32;
    }
  }

  predicate Fits(b: Block, need: nat) { b.free && b.size >= need }

  /** The first block from i on that fits or that the heap end pointer names. */
  function Stop(bs: Blocks, heapEnd: nat, need: nat, i: nat): (k: nat)
    requires i <= |bs|
    ensures i <= k <= |bs|
    ensures k < |bs| ==> Fits(bs[k], need) || bs[k].addr == heapEnd
    ensures forall j :: i <= j < k ==> !Fits(bs[j], need) && bs[j].addr != heapEnd
    decreases |bs| - i
  {
    if i == |bs| || Fits(bs[i], need) || bs[i].addr == heapEnd then i else Stop(bs, heapEnd, need, i + 1)
  }

  /** A block is worth splitting when more than the minimum remains. */
  predicate Splits(b: Block, need: nat)
    requires b.size >= need
  {
    b.size - need > MINIMUM_ALLOCABLE
  }

  function SplitAt(bs: Blocks, i: nat, need: nat): Blocks
    requires i < |bs| && bs[i].size >= need && Splits(bs[i], need)
  {
    var b := bs[i];
    bs[..i] + [Block(b.addr, need, false), Block(b.addr + HEADER + need, b.size - need - HEADER, true)] + bs[i + 1..]
  }

  function TakeAt(bs: Blocks, i: nat, need: nat): Blocks
    requires i < |bs| && Fits(bs[i], need)
  {
    if Splits(bs[i], need) then SplitAt(bs, i, need) else bs[i := bs[i].(free := false)]
  }

  function MergeAt(bs: Blocks, i: nat): Blocks
    requires i + 1 < |bs|
  {
    bs[..i] + [Merged(bs[i], bs[i + 1])] + bs[i + 2..]
  }

  function FreeAt(bs: Blocks, i: nat): Blocks
    requires i < |bs|
  {
    var freed := bs[i := bs[i].(free := true)];
    var right := if i + 1 < |bs| && bs[i + 1].free then MergeAt(freed, i) else freed;
    if i > 0 && bs[i - 1].free then MergeAt(right, i - 1) else right
  }

  /** What every operation keeps. */
  ghost predicate Sound(bs: Blocks) {
    bs != [] && Tiled(bs) && Coalesced(bs)
  }

  /** Blocks after a split, position by position. */
  lemma SplitAtIndex(bs: Blocks, i: nat, need: nat, j: nat)
    requires i < |bs| && bs[i].size >= need && Splits(bs[i], need) && j <= |bs|
    ensures var t := SplitAt(bs, i, need);
      && |t| == |bs| + 1
      && t[j] == (if j < i then bs[j]
                  else if j == i then Block(bs[i].addr, need, false)
                  else if j == i + 1 then Block(bs[i].addr + HEADER + need, bs[i].size - need - HEADER, true)
                  else bs[j - 1])
  {}

  lemma SplitKeepsSound(bs: Blocks, i: nat, need: nat)
    requires Sound(bs) && i < |bs| && Fits(bs[i], need) && Splits(bs[i], need)
    ensures Sound(SplitAt(bs, i, need))
  {
    var t := SplitAt(bs, i, need);
    forall j | 0 <= j < |t| - 1 ensures Joins(t, j) && !FreePair(t, j) {
      SplitAtIndex(bs, i, need, j);
      SplitAtIndex(bs, i, need, j + 1);
      if j < i {
        assert Joins(bs, j) && !FreePair(bs, j);
      } else if j > i {
        assert j < |bs|;
        assert Joins(bs, j - 1) && !FreePair(bs, j - 1);
      }
    }
  }

  lemma MarkUsedKeepsSound(bs: Blocks, i: nat)
    requires Sound(bs) && i < |bs|
    ensures Sound(bs[i := bs[i].(free := false)])
  {
    var t := bs[i := bs[i].(free := false)];
    forall j | 0 <= j < |t| - 1 ensures Joins(t, j) && !FreePair(t, j) {
      assert Joins(bs, j) && !FreePair(bs, j);
    }
  }

  lemma TakeKeepsSound(bs: Blocks, i: nat, need: nat)
    requires Sound(bs) && i < |bs| && Fits(bs[i], need)
    ensures Sound(TakeAt(bs, i, need))
  {
    if Splits(bs[i], need) { SplitKeepsSound(bs, i, need); } else { MarkUsedKeepsSound(bs, i); }
  }

  /** Taking a block loses no byte. */
  lemma TakeKeepsSpan(bs: Blocks, i: nat, need: nat)
    requires i < |bs| && Fits(bs[i], need)
    ensures Span(TakeAt(bs, i, need)) == Span(bs)
  {
    if Splits(bs[i], need) {
      var a, b := Block(bs[i].addr, need, false), Block(bs[i].addr + HEADER + need, bs[i].size - need - HEADER, true);
      SpanReplace(bs, i, 1, [a, b]);
      SpanOfPair(a, b);
    } else {
      var a := bs[i].(free := false);
      SpanReplace(bs, i, 1, [a]);
      SpanOfOne(a);
      assert bs[i := a] == bs[..i] + [a] + bs[i + 1..];
    }
  }

  lemma SpanOfOne(a: Block)
    ensures Span([a]) == HEADER + a.size
  {
    assert [a][1..] == [];
  }

  lemma SpanOfPair(a: Block, b: Block)
    ensures Span([a, b]) == HEADER + a.size + HEADER + b.size
  {
    assert [a, b][1..] == [b];
    SpanOfOne(b);
  }

  lemma TakeKeepsAligned(bs: Blocks, i: nat, need: nat)
    requires i < |bs| && Fits(bs[i], need) && AlignedBlocks(bs) && need % ALIGNMENT == 0
    ensures AlignedBlocks(TakeAt(bs, i, need))
  {
    var t := TakeAt(bs, i, need);
    assert AlignedBlock(bs[i]);
    forall j | 0 <= j < |t| ensures AlignedBlock(t[j]) {
      if Splits(bs[i], need) { SplitAtIndex(bs, i, need, j); }
      if j < |bs| { assert AlignedBlock(bs[j]); }
      if 0 < j { assert AlignedBlock(bs[j - 1]); }
    }
  }

  lemma ThreeParts(bs: Blocks, i: nat, k: nat)
    requires i + k <= |bs|
    ensures bs == bs[..i] + bs[i..i + k] + bs[i + k..]
  {}

  /** Replacing k blocks changes the span by the difference of their spans. */
  lemma SpanReplace(bs: Blocks, i: nat, k: nat, mid: Blocks)
    requires i + k <= |bs|
    ensures Span(bs[..i] + mid + bs[i + k..]) == Span(bs) - Span(bs[i..i + k]) + Span(mid)
    ensures k == 1 ==> Span(bs[i..i + k]) == HEADER + bs[i].size
    ensures k == 2 ==> Span(bs[i..i + k]) == HEADER + bs[i].size + HEADER + bs[i + 1].size
  {
    var tail := bs[i + k..];
    SpanConcat(bs[..i] + mid, tail);
    SpanConcat(bs[..i], mid);
    SpanConcat(bs[..i] + bs[i..i + k], tail);
    SpanConcat(bs[..i], bs[i..i + k]);
    ThreeParts(bs, i, k);
    if k == 1 {
      assert bs[i..i + k] == [bs[i]];
      SpanOfOne(bs[i]);
    } else if k == 2 {
      assert bs[i..i + k] == [bs[i], bs[i + 1]];
      SpanOfPair(bs[i], bs[i + 1]);
    }
  }

  function Merged(a: Block, b: Block): Block { Block(a.addr, a.size + HEADER + b.size, a.free) }

  lemma MergeAtIndex(bs: Blocks, i: nat, j: nat)
    requires i + 1 < |bs| && j < |bs| - 1
    ensures var t := MergeAt(bs, i);
      && |t| == |bs| - 1
      && t[j] == if j < i then bs[j] else if j == i then Merged(bs[i], bs[i + 1]) else bs[j + 1]
  {}

  lemma MergeKeepsTiled(bs: Blocks, i: nat)
    requires Tiled(bs) && i + 1 < |bs|
    ensures Tiled(MergeAt(bs, i))
  {
    var t := MergeAt(bs, i);
    forall j | 0 <= j < |t| - 1 ensures Joins(t, j) {
      MergeAtIndex(bs, i, j);
      MergeAtIndex(bs, i, j + 1);
      assert Joins(bs, i);
      if j < i {
        assert Joins(bs, j);
      } else {
        assert Joins(bs, j + 1);
      }
    }
  }

  lemma MergeKeepsSpan(bs: Blocks, i: nat)
    requires i + 1 < |bs|
    ensures Span(MergeAt(bs, i)) == Span(bs)
  {
    SpanReplace(bs, i, 2, [Merged(bs[i], bs[i + 1])]);
    SpanOfOne(Merged(bs[i], bs[i + 1]));
  }

  lemma SumOfMultiples(a: nat, b: nat)
    requires a % 16 == 0 && b % 16 == 0
    ensures (a + 32 + b) % 16 == 0
  {}

  lemma MergedAligned(a: Block, b: Block)
    requires AlignedBlock(a) && AlignedBlock(b)
    ensures AlignedBlock(Merged(a, b))
  {
    SumOfMultiples(a.size, b.size);
  }

  lemma MergeKeepsAligned(bs: Blocks, i: nat)
    requires i + 1 < |bs| && AlignedBlocks(bs)
    ensures AlignedBlocks(MergeAt(bs, i))
  {
    var t := MergeAt(bs, i);
    MergedAligned(bs[i], bs[i + 1]);
    forall j | 0 <= j < |t| ensures AlignedBlock(t[j]) {
      MergeAtIndex(bs, i, j);
      assert AlignedBlock(bs[j]) && AlignedBlock(bs[j + 1]);
    }
  }

  /** At most one pair of free neighbours: the one at i, if any. */
  ghost predicate CoalescedBut(bs: Blocks, i: int, k: int) {
    forall j :: 0 <= j < |bs| - 1 && j != i && j != k ==> !FreePair(bs, j)
  }

  /** Merging a free pair removes it. */
  lemma MergeRemovesPair(bs: Blocks, i: nat, k: int)
    requires i + 1 < |bs| && CoalescedBut(bs, i, k) && k <= i && bs[i + 1].free
    ensures CoalescedBut(MergeAt(bs, i), k, k)
  {
    var t := MergeAt(bs, i);
    forall j | 0 <= j < |t| - 1 && j != k ensures !FreePair(t, j) {
      MergeAtIndex(bs, i, j);
      MergeAtIndex(bs, i, j + 1);
      if j < i {
        assert !FreePair(bs, j);
      } else {
        assert !FreePair(bs, j + 1);
      }
    }
  }

  /** Freeing keeps the tiling and merges with every free neighbour. */
  lemma FreeKeepsSound(bs: Blocks, i: nat)
    requires Sound(bs) && i < |bs|
    ensures Sound(FreeAt(bs, i))
  {
    var freed := bs[i := bs[i].(free := true)];
    forall j | 0 <= j < |bs| - 1 ensures Joins(freed, j) && (j != i && j != i - 1 ==> !FreePair(freed, j)) {
      assert Joins(bs, j) && !FreePair(bs, j);
    }
    assert CoalescedBut(freed, i, i - 1);
    var right := freed;
    if i + 1 < |bs| && bs[i + 1].free {
      right := MergeAt(freed, i);
      MergeKeepsTiled(freed, i);
      MergeRemovesPair(freed, i, i - 1);
      MergeAtIndex(freed, i, i);
    }
    assert CoalescedBut(right, i - 1, i - 1);
    if i > 0 {
      if i + 1 < |bs| && bs[i + 1].free { MergeAtIndex(freed, i, i - 1); }
      if bs[i - 1].free {
        MergeKeepsTiled(right, i - 1);
        MergeRemovesPair(right, i - 1, -1);
      } else {
        assert !FreePair(right, i - 1);
      }
    }
  }

  /** Freeing loses no byte. */
  lemma FreeKeepsSpan(bs: Blocks, i: nat)
    requires i < |bs|
    ensures Span(FreeAt(bs, i)) == Span(bs)
  {
    var a := bs[i].(free := true);
    var freed := bs[i := a];
    SpanReplace(bs, i, 1, [a]);
    SpanOfOne(a);
    assert freed == bs[..i] + [a] + bs[i + 1..];
    var right := freed;
    if i + 1 < |bs| && bs[i + 1].free {
      right := MergeAt(freed, i);
      MergeKeepsSpan(freed, i);
    }
    if i > 0 && bs[i - 1].free {
      MergeKeepsSpan(right, i - 1);
    }
  }

  lemma FreeKeepsAligned(bs: Blocks, i: nat)
    requires i < |bs| && AlignedBlocks(bs)
    ensures AlignedBlocks(FreeAt(bs, i))
  {
    var freed := bs[i := bs[i].(free := true)];
    assert AlignedBlocks(freed) by {
      forall j | 0 <= j < |freed| ensures AlignedBlock(freed[j]) { assert AlignedBlock(bs[j]); }
    }
    var right := freed;
    if i + 1 < |bs| && bs[i + 1].free {
      right := MergeAt(freed, i);
      MergeKeepsAligned(freed, i);
    }
    if i > 0 && bs[i - 1].free {
      MergeKeepsAligned(right, i - 1);
    }
  }

  /** Taking a block of a sound heap and freeing it again restores the list exactly. */
  lemma FreeUndoesTake(bs: Blocks, i: nat, need: nat)
    requires Sound(bs) && i < |bs| && Fits(bs[i], need)
    ensures FreeAt(TakeAt(bs, i, need), i) == bs
  {
    var t := TakeAt(bs, i, need);
    assert i > 0 ==> !FreePair(bs, i - 1);
    assert i + 1 < |bs| ==> !FreePair(bs, i);
    if Splits(bs[i], need) {
      var freed := t[i := t[i].(free := true)];
      assert t[i + 1].free;
      assert MergeAt(freed, i) == bs;
    } else {
      assert t[i := t[i].(free := true)] == bs;
    }
  }

  /** Nodes of a tiled heap do not overlap. */
  lemma {:induction false} NodesDisjoint(bs: Blocks, i: nat, j: nat)
    requires Tiled(bs) && i < j < |bs|
    ensures End(bs[i]) <= bs[j].addr
    decreases j
  {
    assert Joins(bs, j - 1);
    if i < j - 1 { NodesDisjoint(bs, i, j - 1); }
  }

  lemma NodesAscend(bs: Blocks, i: nat, j: nat)
    requires Tiled(bs) && i < |bs| && j < |bs|
    ensures bs[i].addr < bs[j].addr <==> i < j
    ensures bs[i].addr == bs[j].addr <==> i == j
  {
    if i < j { NodesDisjoint(bs, i, j); }
    if j < i { NodesDisjoint(bs, j, i); }
  }

  // ----- the two operations -----

  /** The node list and `kernel_heap_end`. */
  datatype Heap = Heap(blocks: Blocks, heapEnd: nat)

  datatype Result = Null | Pointer(addr: nat) | Expands

  /** `kmalloc`, up to the point where it would expand the heap. */
  function Malloc(h: Heap, size: nat): (Heap, Result) {
    var need := RealSize(size);
    var k := Stop(h.blocks, h.heapEnd, need, 0);
    if size == 0 || k == |h.blocks| then (h, Null)
    else if !Fits(h.blocks[k], need) then (h, Expands)
    else (Heap(TakeAt(h.blocks, k, need), EndAfterTake(h, k, need)), Pointer(h.blocks[k].addr + HEADER))
  }

  /** `create_kheap_node` moves the end pointer along when it splits the node at the heap end. */
  function EndAfterTake(h: Heap, k: nat, need: nat): nat
    requires k < |h.blocks| && Fits(h.blocks[k], need)
  {
    if Splits(h.blocks[k], need) && h.blocks[k].addr == h.heapEnd then h.blocks[k].addr + HEADER + need else h.heapEnd
  }

  /** The first node from i on whose payload starts at the pointer. */
  function Find(bs: Blocks, ptr: nat, i: nat): (k: nat)
    requires i <= |bs|
    ensures i <= k <= |bs| && (k < |bs| ==> bs[k].addr + HEADER == ptr)
    ensures forall j :: i <= j < k ==> bs[j].addr + HEADER != ptr
    decreases |bs| - i
  {
    if i == |bs| || bs[i].addr + HEADER == ptr then i else Find(bs, ptr, i + 1)
  }

  /** The guard of `kfree`. */
  predicate InHeap(h: Heap, ptr: nat)
    requires h.blocks != []
  {
    ptr != 0 && h.blocks[0].addr <= ptr <= h.heapEnd
  }

  /** `kfree`. */
  function Kfree(h: Heap, ptr: nat): Heap
    requires h.blocks != []
  {
    var k := Find(h.blocks, ptr, 0);
    if !InHeap(h, ptr) || k == |h.blocks| then h else h.(blocks := FreeAt(h.blocks, k))
  }

  /** The block `kmalloc` returns lies in the first free node that is large enough, holds the request,
      is aligned if the heap is, and its bytes belong to no other node, header included. */
  lemma MallocBlock(h: Heap, size: nat, other: nat)
    requires Sound(h.blocks) && 0 < size < TWO_64 - 48 && Malloc(h, size).1.Pointer?
    ensures var h1 := Malloc(h, size).0;
      var k := Stop(h.blocks, h.heapEnd, RealSize(size), 0);
      var ptr := Malloc(h, size).1.addr;
      && k < |h.blocks| && h.blocks[k].free && h.blocks[k].addr + HEADER == ptr
      && (forall j :: 0 <= j < k ==> !Fits(h.blocks[j], RealSize(size)))
      && k < |h1.blocks| && !h1.blocks[k].free && h1.blocks[k].addr + HEADER == ptr && h1.blocks[k].size >= size
      && (other < |h1.blocks| && other != k ==>
            ptr + size <= h1.blocks[other].addr || End(h1.blocks[other]) <= ptr - HEADER)
      && (AlignedBlocks(h.blocks) ==> ptr % ALIGNMENT == 0)
  {
    var h1 := Malloc(h, size).0;
    var need := RealSize(size);
    var k := Stop(h.blocks, h.heapEnd, need, 0);
    RealSizeSufficesIff(size);
    TakeKeepsSound(h.blocks, k, need);
    if AlignedBlocks(h.blocks) { assert AlignedBlock(h.blocks[k]); }
    if Splits(h.blocks[k], need) { SplitAtIndex(h.blocks, k, need, k); }
    if other < |h1.blocks| && other != k {
      if k < other { NodesDisjoint(h1.blocks, k, other); } else { NodesDisjoint(h1.blocks, other, k); }
    }
  }

  /** Freeing a block straight after allocating it restores the node list exactly if the new end
      pointer is not below the block: the end pointer named a later place, or a split moved it. */
  lemma FreeAfterMallocRestoresIff(h: Heap, size: nat)
    requires Sound(h.blocks) && h.blocks[0].addr > 0 && Malloc(h, size).1.Pointer?
    ensures var ptr := Malloc(h, size).1.addr;
      var node := h.blocks[Stop(h.blocks, h.heapEnd, RealSize(size), 0)];
      Kfree(Malloc(h, size).0, ptr).blocks == h.blocks
      <==> ptr <= h.heapEnd || (node.addr == h.heapEnd && Splits(node, RealSize(size)))
  {
    var need := RealSize(size);
    var k := Stop(h.blocks, h.heapEnd, need, 0);
    var h1 := Malloc(h, size).0;
    var ptr := Malloc(h, size).1.addr;
    TakeKeepsSound(h.blocks, k, need);
    if Splits(h.blocks[k], need) {
      SplitAtIndex(h.blocks, k, need, k);
      SplitAtIndex(h.blocks, k, need, 0);
    }
    NodesAscend(h.blocks, 0, k);
    assert h1.blocks[k].addr == h.blocks[k].addr && !h1.blocks[k].free;
    FindIsNode(h1.blocks, k);
    FreeUndoesTake(h.blocks, k, need);
  }

  lemma FindIsNode(bs: Blocks, k: nat)
    requires Tiled(bs) && k < |bs|
    ensures Find(bs, bs[k].addr + HEADER, 0) == k
  {
    NodesAscend(bs, Find(bs, bs[k].addr + HEADER, 0), k);
  }

  /** `kfree` frees a block in use exactly if the end pointer is not below the block; otherwise the
      heap is unchanged and the block is lost. */
  lemma KfreeEffectiveIff(h: Heap, k: nat)
    requires Sound(h.blocks) && h.blocks[0].addr > 0 && k < |h.blocks| && !h.blocks[k].free
    ensures var ptr := h.blocks[k].addr + HEADER;
      && (Kfree(h, ptr) == h <==> ptr > h.heapEnd)
      && (ptr <= h.heapEnd ==> Kfree(h, ptr).blocks == FreeAt(h.blocks, k))
  {
    FindIsNode(h.blocks, k);
    NodesAscend(h.blocks, 0, k);
    FreeChanges(h.blocks, k);
  }

  lemma FreeChanges(bs: Blocks, k: nat)
    requires k < |bs| && !bs[k].free
    ensures FreeAt(bs, k) != bs
  {
    var freed := bs[k := bs[k].(free := true)];
    if k + 1 < |bs| && bs[k + 1].free { MergeAtIndex(freed, k, 0); }
    assert freed[k] != bs[k];
  }

  // ----- runs -----

  datatype Op = Alloc(size: nat) | Release(ptr: nat)

  function Step(h: Heap, op: Op): Heap
    requires h.blocks != []
  {
    match op
    case Alloc(size) => Malloc(h, size).0
    case Release(ptr) => Kfree(h, ptr)
  }

  /** A run of calls none of which reaches the expansion of the heap. */
  ghost predicate EnabledRun(h: Heap, ops: seq<Op>)
    decreases |ops|
  {
    h.blocks != [] &&
    (ops == [] || ((ops[0].Alloc? ==> !Malloc(h, ops[0].size).1.Expands?) && EnabledRun(Step(h, ops[0]), ops[1..])))
  }

  ghost function Run(h: Heap, ops: seq<Op>): Heap
    requires EnabledRun(h, ops)
    decreases |ops|
  {
    if ops == [] then h else Run(Step(h, ops[0]), ops[1..])
  }

  lemma StepKeeps(h: Heap, op: Op)
    requires Sound(h.blocks)
    ensures var h1 := Step(h, op);
      && Sound(h1.blocks) && Span(h1.blocks) == Span(h.blocks) && h1.blocks[0].addr == h.blocks[0].addr
      && (AlignedBlocks(h.blocks) ==> AlignedBlocks(h1.blocks))
  {
    match op
    case Alloc(size) =>
      var need := RealSize(size);
      var k := Stop(h.blocks, h.heapEnd, need, 0);
      if size != 0 && k < |h.blocks| && Fits(h.blocks[k], need) {
        TakeKeepsSound(h.blocks, k, need);
        TakeKeepsSpan(h.blocks, k, need);
        RealSizeAligned(size);
        if AlignedBlocks(h.blocks) { TakeKeepsAligned(h.blocks, k, need); }
        if Splits(h.blocks[k], need) { SplitAtIndex(h.blocks, k, need, 0); }
      }
    case Release(ptr) =>
      var k := Find(h.blocks, ptr, 0);
      if InHeap(h, ptr) && k < |h.blocks| {
        FreeKeepsSound(h.blocks, k);
        FreeKeepsSpan(h.blocks, k);
        if AlignedBlocks(h.blocks) { FreeKeepsAligned(h.blocks, k); }
        FreeKeepsStart(h.blocks, k);
      }
  }

  lemma RealSizeAligned(size: nat)
    ensures RealSize(size) % ALIGNMENT == 0
  {
    var q := (size + HEADER) % TWO_64 / ALIGNMENT + 1;
    assert q * 16 % TWO_64 == q % 0x1000_0000_0000_0000 * 16;
  }

  lemma FreeKeepsStart(bs: Blocks, k: nat)
    requires k < |bs|
    ensures FreeAt(bs, k) != [] && FreeAt(bs, k)[0].addr == bs[0].addr
  {
    var freed := bs[k := bs[k].(free := true)];
    var right := freed;
    if k + 1 < |bs| && bs[k + 1].free {
      right := MergeAt(freed, k);
      MergeAtIndex(freed, k, 0);
    }
    if k > 0 && bs[k - 1].free { MergeAtIndex(right, k - 1, 0); }
  }

  /** Over every run of allocations and releases, of any sizes and any pointers, that does not expand
      the heap: the nodes tile the same span, no two free nodes are neighbours, and the alignment of
      the heap start is kept by every node. */
  lemma {:induction false} RunKeepsHeap(h: Heap, ops: seq<Op>)
    requires Sound(h.blocks) && EnabledRun(h, ops)
    ensures var h1 := Run(h, ops);
      && Sound(h1.blocks) && Span(h1.blocks) == Span(h.blocks) && h1.blocks[0].addr == h.blocks[0].addr
      && (AlignedBlocks(h.blocks) ==> AlignedBlocks(h1.blocks))
    decreases |ops|
  {
    if ops != [] {
      StepKeeps(h, ops[0]);
      RunKeepsHeap(Step(h, ops[0]), ops[1..]);
    }
  }

  /** The heap that `initialize_kheap` sets up. */
  function InitialHeap(start: nat, pageSize: nat): (h: Heap)
    ensures Sound(h.blocks) && Span(h.blocks) == HEADER + pageSize
    ensures start % ALIGNMENT == 0 && pageSize % ALIGNMENT == 0 ==> AlignedBlocks(h.blocks)
  {
    SpanOfOne(Block(start, pageSize, true));
    Heap([Block(start, pageSize, true)], start)
  }

  // ----- the end pointer -----

  /** `expand_heap` for a node e that the end pointer names, with a fresh area at address a. */
  function Expand(h: Heap, e: nat, a: nat, size: nat): Heap
    requires e < |h.blocks| && h.blocks[e].addr == h.heapEnd
  {
    var bs := h.blocks[..e + 1] + [Block(a, size, true)];
    Heap(if h.blocks[e].free && End(h.blocks[e]) == a then MergeAt(bs, e) else bs, a)
  }

  ghost predicate HasNode(bs: Blocks, addr: nat) {
    exists i :: 0 <= i < |bs| && bs[i].addr == addr
  }

  /** Expanding the heap keeps every node exactly if the end pointer names the last node; otherwise
      the nodes behind the end pointer drop out of the list. */
  lemma ExpandKeepsNodesIff(h: Heap, e: nat, a: nat, size: nat)
    requires Sound(h.blocks) && e < |h.blocks| && h.blocks[e].addr == h.heapEnd
    requires forall i :: 0 <= i < |h.blocks| ==> End(h.blocks[i]) <= a
    ensures (forall i :: 0 <= i < |h.blocks| ==> HasNode(Expand(h, e, a, size).blocks, h.blocks[i].addr))
      <==> e == |h.blocks| - 1
  {
    var linked := h.blocks[..e + 1] + [Block(a, size, true)];
    var bs := Expand(h, e, a, size).blocks;
    if e == |h.blocks| - 1 {
      forall i | 0 <= i < |h.blocks| ensures HasNode(bs, h.blocks[i].addr) {
        if |bs| == |linked| - 1 { MergeAtIndex(linked, e, i); }
        assert bs[i].addr == h.blocks[i].addr;
      }
    } else {
      var lost := h.blocks[e + 1].addr;
      forall j | 0 <= j < |bs| ensures bs[j].addr != lost {
        if |bs| == |linked| - 1 { MergeAtIndex(linked, e, j); }
        if j <= e { NodesAscend(h.blocks, j, e + 1); }
      }
    }
  }

  lemma MallocAt(h: Heap, size: nat, k: nat, h1: Heap)
    requires size > 0 && k < |h.blocks| && Fits(h.blocks[k], RealSize(size))
    requires forall j :: 0 <= j < k ==> !Fits(h.blocks[j], RealSize(size)) && h.blocks[j].addr != h.heapEnd
    requires TakeAt(h.blocks, k, RealSize(size)) == h1.blocks && EndAfterTake(h, k, RealSize(size)) == h1.heapEnd
    ensures Malloc(h, size) == (h1, Pointer(h.blocks[k].addr + HEADER))
  {
    assert Stop(h.blocks, h.heapEnd, RealSize(size), 0) == k;
  }

  lemma RunCons(h: Heap, op: Op, rest: seq<Op>, h1: Heap, last: Heap)
    requires h.blocks != [] && Step(h, op) == h1 && (op.Alloc? ==> !Malloc(h, op.size).1.Expands?)
    requires EnabledRun(h1, rest) && Run(h1, rest) == last
    ensures EnabledRun(h, [op] + rest) && Run(h, [op] + rest) == last
  {
    assert ([op] + rest)[1..] == rest;
  }

  /** Allocating, releasing and allocating a larger block leaves the end pointer inside a block. */
  lemma StaleEndPointer(rest: seq<Op>, last: Heap)
    requires var h3 := Heap([Block(0x1000, 336, false), Block(0x1170, 3728, true)], 0x10B0);
      EnabledRun(h3, rest) && Run(h3, rest) == last
    ensures var ops := [Alloc(100)] + ([Release(0x1020)] + ([Alloc(300)] + rest));
      EnabledRun(InitialHeap(0x1000, 0x1000), ops) && Run(InitialHeap(0x1000, 0x1000), ops) == last
  {
    var h0 := InitialHeap(0x1000, 0x1000);
    var h1 := Heap([Block(0x1000, 144, false), Block(0x10B0, 3920, true)], 0x10B0);
    var h2 := Heap([Block(0x1000, 0x1000, true)], 0x10B0);
    var h3 := Heap([Block(0x1000, 336, false), Block(0x1170, 3728, true)], 0x10B0);
    MallocAt(h2, 300, 0, h3);
    RunCons(h2, Alloc(300), rest, h3, last);
    assert Kfree(h1, 0x1020) == h2;
    RunCons(h1, Release(0x1020), [Alloc(300)] + rest, h2, last);
    MallocAt(h0, 100, 0, h1);
    RunCons(h0, Alloc(100), [Release(0x1020)] + ([Alloc(300)] + rest), h1, last);
  }

  /** A block in use that `kfree` does not free. */
  ghost predicate Stuck(h: Heap, k: nat) {
    k < |h.blocks| && !h.blocks[k].free && Kfree(h, h.blocks[k].addr + HEADER) == h
  }

  /** A block in use can be stuck after a single call: a first allocation that takes the whole first node
      leaves the end pointer at the node, below the block. */
  lemma FirstBlockCanBeStuck()
    ensures exists ops, k ::
      EnabledRun(InitialHeap(0x1000, 0x1000), ops) && Stuck(Run(InitialHeap(0x1000, 0x1000), ops), k)
  {
    var h0 := InitialHeap(0x1000, 0x1000);
    var h1 := Heap([Block(0x1000, 0x1000, false)], 0x1000);
    assert RealSize(4040) == 4080;
    MallocAt(h0, 4040, 0, h1);
    RunCons(h0, Alloc(4040), [], h1, h1);
    assert Stuck(h1, 0);
  }

  ghost predicate EndNamesMiddle(h: Heap) {
    exists e :: 0 <= e < |h.blocks| - 1 && h.blocks[e].addr == h.heapEnd
  }

  /** Filling the rest, releasing the first block and splitting it creates a node in the middle. */
  lemma SplitAtStaleEnd(h6: Heap)
    requires h6 == Heap([Block(0x1000, 144, false), Block(0x10B0, 160, true), Block(0x1170, 3728, false)], 0x10B0)
    ensures var h3 := Heap([Block(0x1000, 336, false), Block(0x1170, 3728, true)], 0x10B0);
      var rest := [Alloc(3680)] + ([Release(0x1020)] + ([Alloc(100)] + []));
      EnabledRun(h3, rest) && Run(h3, rest) == h6
  {
    var h3 := Heap([Block(0x1000, 336, false), Block(0x1170, 3728, true)], 0x10B0);
    var h4 := Heap([Block(0x1000, 336, false), Block(0x1170, 3728, false)], 0x10B0);
    var h5 := Heap([Block(0x1000, 336, true), Block(0x1170, 3728, false)], 0x10B0);
    MallocAt(h5, 100, 0, h6);
    RunCons(h5, Alloc(100), [], h6, h6);
    assert Kfree(h4, 0x1020) == h5;
    RunCons(h4, Release(0x1020), [Alloc(100)] + [], h5, h6);
    MallocAt(h3, 3680, 1, h4);
    RunCons(h3, Alloc(3680), [Release(0x1020)] + ([Alloc(100)] + []), h4, h6);
  }

  /** The end pointer can come to name a node that is not the last one: freeing merges away the node
      it names, and a later split in the middle of the heap creates a node at the same place. */
  lemma EndPointerCanNameMiddle()
    ensures exists ops ::
      EnabledRun(InitialHeap(0x1000, 0x1000), ops) && EndNamesMiddle(Run(InitialHeap(0x1000, 0x1000), ops))
  {
    var h6 := Heap([Block(0x1000, 144, false), Block(0x10B0, 160, true), Block(0x1170, 3728, false)], 0x10B0);
    SplitAtStaleEnd(h6);
    StaleEndPointer([Alloc(3680)] + ([Release(0x1020)] + ([Alloc(100)] + [])), h6);
    assert h6.blocks[1].addr == h6.heapEnd;
  }
}
