/** The kernel heap as it lies in memory: nodes with `next` and `prev` pointers, updated in place. */
module HeapNodes {
  import opened Bits
  import opened KernelHeap

  /** A node header; 0 is the null pointer. */
  datatype Node = Node(size: nat, isFree: bool, next: nat, prev: nat)

  type Memory = map<nat, Node>

  /** The nodes at the addresses of `list` are linked in that order, both ways. */
  ghost predicate LinkedAt(mem: Memory, list: seq<nat>, i: nat)
    requires i < |list|
  {
    && list[i] in mem && list[i] > 0
    && mem[list[i]].next == (if i + 1 < |list| then list[i + 1] else 0)
    && mem[list[i]].prev == (if i > 0 then list[i - 1] else 0)
  }

  ghost predicate Linked(mem: Memory, list: seq<nat>) {
    forall i :: 0 <= i < |list| ==> LinkedAt(mem, list, i)
  }

  ghost function BlockAt(mem: Memory, a: nat): Block
    requires a in mem
  {
    Block(a, mem[a].size, mem[a].isFree)
  }

  /** The memory holds the block list bs. */
  ghost predicate Holds(mem: Memory, list: seq<nat>, bs: Blocks) {
    && |list| == |bs| && Linked(mem, list)
    && (forall i :: 0 <= i < |bs| ==> BlockIs(mem, list, bs, i))
  }

  ghost predicate BlockIs(mem: Memory, list: seq<nat>, bs: Blocks, i: nat)
    requires i < |list| == |bs|
  {
    list[i] in mem && bs[i] == BlockAt(mem, list[i])
  }

  ghost predicate Distinct(list: seq<nat>) {
    forall i, j :: 0 <= i < j < |list| ==> list[i] != list[j]
  }

  lemma HeldNodesDistinct(mem: Memory, list: seq<nat>, bs: Blocks)
    requires Holds(mem, list, bs) && Tiled(bs)
    ensures Distinct(list)
  {
    forall i, j | 0 <= i < j < |list| ensures list[i] != list[j] {
      assert BlockIs(mem, list, bs, i) && BlockIs(mem, list, bs, j);
      NodesAscend(bs, i, j);
    }
  }

  // ----- what the pointer updates do to the list -----

  function SetFree(mem: Memory, a: nat, free: bool): Memory
    requires a in mem
  {
    mem[a := mem[a].(isFree := free)]
  }

  lemma SetFreeHolds(mem: Memory, list: seq<nat>, bs: Blocks, i: nat, free: bool)
    requires Holds(mem, list, bs) && Distinct(list) && i < |list|
    ensures LinkedAt(mem, list, i)
    ensures Holds(SetFree(mem, list[i], free), list, bs[i := bs[i].(free := free)])
  {
    assert LinkedAt(mem, list, i);
    var mem1, bs1 := SetFree(mem, list[i], free), bs[i := bs[i].(free := free)];
    forall j | 0 <= j < |list| ensures LinkedAt(mem1, list, j) && BlockIs(mem1, list, bs1, j) {
      assert LinkedAt(mem, list, j) && BlockIs(mem, list, bs, j);
      if i < j { assert list[i] != list[j]; } else if j < i { assert list[j] != list[i]; }
    }
  }

  /** `merge_memory_nodes` on neighbours. */
  function MergeNodes(mem: Memory, left: nat, right: nat): Memory
    requires left in mem && right in mem
  {
    var size := mem[left].size + mem[right].size + HEADER;
    var merged := mem[left := Node(size, mem[left].isFree, mem[right].next, mem[left].prev)];
    var after := mem[right].next;
    if after != 0 && after in merged then merged[after := merged[after].(prev := left)] else merged
  }

  lemma MergeHolds(mem: Memory, list: seq<nat>, bs: Blocks, i: nat)
    requires Holds(mem, list, bs) && Distinct(list) && i + 1 < |list|
    ensures LinkedAt(mem, list, i) && LinkedAt(mem, list, i + 1)
    ensures Holds(MergeNodes(mem, list[i], list[i + 1]), list[..i + 1] + list[i + 2..], MergeAt(bs, i))
    ensures Distinct(list[..i + 1] + list[i + 2..])
  {
    assert LinkedAt(mem, list, i) && LinkedAt(mem, list, i + 1);
    assert BlockIs(mem, list, bs, i) && BlockIs(mem, list, bs, i + 1);
    assert i + 2 < |list| ==> LinkedAt(mem, list, i + 2) && list[i] != list[i + 2];
    var mem1, list1, bs1 := MergeNodes(mem, list[i], list[i + 1]), list[..i + 1] + list[i + 2..], MergeAt(bs, i);
    forall j | 0 <= j < |list1| ensures LinkedAt(mem1, list1, j) && BlockIs(mem1, list1, bs1, j) {
      MergeAtIndex(bs, i, j);
      var k := if j <= i then j else j + 1;
      assert list1[j] == list[k];
      assert LinkedAt(mem, list, k) && BlockIs(mem, list, bs, k);
      if k < i { assert list[k] != list[i]; } else if k > i { assert list[i] != list[k]; }
      if i + 2 < |list| {
        if k < i + 2 { assert list[k] != list[i + 2]; } else if k > i + 2 { assert list[i + 2] != list[k]; }
      }
    }
  }

  /** `create_kheap_node` followed by the two writes of `kmalloc` to the split node. */
  function SplitNode(mem: Memory, a: nat, need: nat): Memory
    requires a in mem && mem[a].size >= need + HEADER
  {
    var n := a + HEADER + need;
    var after := mem[a].next;
    var m1 := mem[n := Node(mem[a].size - need - HEADER, true, after, a)];
    var m2 := if after != 0 && after in m1 then m1[after := m1[after].(prev := n)] else m1;
    m2[a := Node(need, false, n, mem[a].prev)]
  }

  lemma SplitHoldsAt(mem: Memory, list: seq<nat>, bs: Blocks, i: nat, need: nat, j: nat)
    requires Holds(mem, list, bs) && Distinct(list) && i < |list| && j <= |list|
    requires bs[i].size >= need && Splits(bs[i], need) && list[i] in mem && mem[list[i]].size == bs[i].size
    requires list[i] + HEADER + need !in list
    ensures |SplitAt(bs, i, need)| == |list| + 1
    ensures var n := list[i] + HEADER + need;
      var mem1, list1 := SplitNode(mem, list[i], need), list[..i + 1] + [n] + list[i + 1..];
      LinkedAt(mem1, list1, j) && BlockIs(mem1, list1, SplitAt(bs, i, need), j)
  {
    var n := list[i] + HEADER + need;
    var list1 := list[..i + 1] + [n] + list[i + 1..];
    assert LinkedAt(mem, list, i) && BlockIs(mem, list, bs, i);
    assert i + 1 < |list| ==> LinkedAt(mem, list, i + 1) && list[i] != list[i + 1];
    SplitAtIndex(bs, i, need, j);
    if j != i + 1 {
      var k := if j <= i then j else j - 1;
      assert list1[j] == list[k] && list[k] in list;
      assert LinkedAt(mem, list, k) && BlockIs(mem, list, bs, k);
      if k < i { assert list[k] != list[i]; } else if k > i { assert list[i] != list[k]; }
      if i + 1 < |list| {
        if k < i + 1 { assert list[k] != list[i + 1]; } else if k > i + 1 { assert list[i + 1] != list[k]; }
      }
    } else {
      assert list1[j] == n;
      assert list[i] in list;
    }
  }

  lemma SplitHolds(mem: Memory, list: seq<nat>, bs: Blocks, i: nat, need: nat)
    requires Holds(mem, list, bs) && Distinct(list) && i < |list|
    requires bs[i].size >= need && Splits(bs[i], need)
    requires list[i] + HEADER + need !in list
    ensures LinkedAt(mem, list, i) && mem[list[i]].size == bs[i].size
    ensures var n := list[i] + HEADER + need;
      Holds(SplitNode(mem, list[i], need), list[..i + 1] + [n] + list[i + 1..], SplitAt(bs, i, need))
  {
    assert LinkedAt(mem, list, i) && BlockIs(mem, list, bs, i);
    var n := list[i] + HEADER + need;
    var mem1, list1, bs1 := SplitNode(mem, list[i], need), list[..i + 1] + [n] + list[i + 1..], SplitAt(bs, i, need);
    forall j | 0 <= j < |list1| ensures LinkedAt(mem1, list1, j) && BlockIs(mem1, list1, bs1, j) {
      SplitHoldsAt(mem, list, bs, i, need, j);
    }
  }

  // ----- the heap -----

  const MERGE_RIGHT: nat := 1
  const MERGE_LEFT: nat := 2

  class NodeHeap {
    const start: nat
    var mem: Memory
    var heapEnd: nat
    ghost var list: seq<nat>
    ghost var heap: Heap

    ghost predicate Valid()
      reads this
    {
      && Sound(heap.blocks) && Holds(mem, list, heap.blocks)
      && heap.blocks[0].addr == start && heap.heapEnd == heapEnd
    }

    /** `initialize_kheap`. */
    constructor (start: nat, pageSize: nat)
      requires start > 0
      ensures Valid() && heap == InitialHeap(start, pageSize) && this.start == start
    {
      this.start, heapEnd := start, start;
      mem := map[start := Node(pageSize, true, 0, 0)];
      list, heap := [start], InitialHeap(start, pageSize);
      new;
      assert LinkedAt(mem, list, 0) && BlockIs(mem, list, heap.blocks, 0);
    }

    /** `can_merge`, on the node at position i. */
    method CanMerge(node: nat, ghost i: nat, ghost bs: Blocks) returns (available: nat)
      requires Tiled(bs) && Holds(mem, list, bs) && i < |list| && list[i] == node
      ensures available == (if i + 1 < |bs| && bs[i + 1].free then MERGE_RIGHT else 0)
                         + (if i > 0 && bs[i - 1].free then MERGE_LEFT else 0)
    {
      assert LinkedAt(mem, list, i) && BlockIs(mem, list, bs, i);
      var prev, next := mem[node].prev, mem[node].next;
      available := 0;
      if i > 0 {
        assert LinkedAt(mem, list, i - 1) && BlockIs(mem, list, bs, i - 1) && Joins(bs, i - 1);
      }
      if i + 1 < |list| {
        assert LinkedAt(mem, list, i + 1) && BlockIs(mem, list, bs, i + 1) && Joins(bs, i);
      }
      if prev != 0 && mem[prev].isFree {
        if prev + HEADER + mem[prev].size == node {
          available := available + MERGE_LEFT;
        }
      }
      if next != 0 && mem[next].isFree {
        if node + HEADER + mem[node].size == next {
          available := available + MERGE_RIGHT;
        }
      }
    }

    /** `merge_memory_nodes` on the nodes at positions i and i + 1. */
    method MergeMemoryNodes(left: nat, right: nat, ghost i: nat, ghost bs: Blocks)
      requires Tiled(bs) && Holds(mem, list, bs) && i + 1 < |list| && list[i] == left && list[i + 1] == right
      modifies this`mem, this`list
      ensures Holds(mem, list, MergeAt(bs, i)) && list == old(list[..i + 1] + list[i + 2..])
    {
      HeldNodesDistinct(mem, list, bs);
      MergeHolds(mem, list, bs, i);
      assert BlockIs(mem, list, bs, i) && BlockIs(mem, list, bs, i + 1) && Joins(bs, i);
      assert i + 2 < |list| ==> LinkedAt(mem, list, i + 2);
      ghost var merged := MergeNodes(mem, left, right);
      if left + mem[left].size + HEADER == right {
        mem := mem[left := mem[left].(size := mem[left].size + mem[right].size + HEADER)];
        mem := mem[left := mem[left].(next := mem[right].next)];
        if mem[right].next != 0 {
          var next := mem[right].next;
          mem := mem[next := mem[next].(prev := left)];
        }
      }
      list := list[..i + 1] + list[i + 2..];
      assert mem == merged;
    }

    /** `kfree`. */
    method Free(ptr: nat)
      requires Valid()
      modifies this`mem, this`list, this`heap
      ensures Valid() && heap == Kfree(old(heap), ptr)
    {
      if ptr == 0 {
        return;
      }
      if ptr < start || ptr > heapEnd {
        return;
      }
      var current := start;
      ghost var i := 0;
      assert LinkedAt(mem, list, 0) && BlockIs(mem, list, heap.blocks, 0);
      while current != 0
        invariant i <= |list| && Valid() && heap == old(heap) && mem == old(mem) && list == old(list)
        invariant current == if i < |list| then list[i] else 0
        invariant i < |list| ==> list[i] > 0
        invariant forall j :: 0 <= j < i ==> heap.blocks[j].addr + HEADER != ptr
        decreases |list| - i
      {
        assert LinkedAt(mem, list, i) && BlockIs(mem, list, heap.blocks, i);
        if current + HEADER == ptr {
          FindIsNode(heap.blocks, i);
          FreeNode(current, i);
          return;
        }
        current := mem[current].next;
        i := i + 1;
        assert i < |list| ==> LinkedAt(mem, list, i);
      }
      assert Find(heap.blocks, ptr, 0) == |heap.blocks|;
    }

    /** The part of `kfree` that follows when the node has been found. */
    method FreeNode(current: nat, ghost i: nat)
      requires Valid() && i < |list| && list[i] == current
      modifies this`mem, this`list, this`heap
      ensures Valid() && heap == old(heap).(blocks := FreeAt(old(heap.blocks), i))
    {
      ghost var bs := heap.blocks;
      HeldNodesDistinct(mem, list, bs);
      FreeKeepsSound(bs, i);
      FreeKeepsStart(bs, i);
      SetFreeHolds(mem, list, bs, i, true);
      ghost var freed := bs[i := bs[i].(free := true)];
      assert Tiled(freed) by {
        forall j | 0 <= j < |freed| - 1 ensures Joins(freed, j) { assert Joins(bs, j); }
      }
      mem := mem[current := mem[current].(isFree := true)];
      var available := CanMerge(current, i, freed);
      ghost var right := freed;
      if available == MERGE_RIGHT || available == MERGE_RIGHT + MERGE_LEFT {
        assert LinkedAt(mem, list, i) && LinkedAt(mem, list, i + 1);
        MergeMemoryNodes(current, mem[current].next, i, freed);
        MergeKeepsTiled(freed, i);
        right := MergeAt(freed, i);
      }
      if available == MERGE_LEFT || available == MERGE_RIGHT + MERGE_LEFT {
        assert LinkedAt(mem, list, i) && LinkedAt(mem, list, i - 1);
        MergeMemoryNodes(mem[current].prev, current, i - 1, right);
      }
      heap := heap.(blocks := FreeAt(bs, i));
    }

    /** `create_kheap_node`, and the writes of `kmalloc` to the node it splits. */
    method WriteSplit(current: nat, need: nat)
      requires current in mem && mem[current].size >= need + HEADER
      requires var n, next := current + HEADER + need, mem[current].next;
        next != 0 ==> next in mem && next != current && next != n
      modifies this`mem, this`heapEnd
      ensures mem == SplitNode(old(mem), current, need)
      ensures heapEnd == if current == old(heapEnd) then current + HEADER + need else old(heapEnd)
    {
      ghost var result := SplitNode(mem, current, need);
      var newNode := current + HEADER + need;
      mem := mem[newNode := Node(mem[current].size - (need + HEADER), true, mem[current].next, current)];
      if mem[current].next != 0 {
        var next := mem[current].next;
        mem := mem[next := mem[next].(prev := newNode)];
      }
      mem := mem[current := mem[current].(next := newNode)];
      if current == heapEnd {
        heapEnd := newNode;
      }
      mem := mem[current := mem[current].(isFree := false)];
      mem := mem[current := mem[current].(size := need)];
      assert mem == result;
    }

    /** Splitting the node at position i. */
    method SplitCurrent(current: nat, need: nat, ghost i: nat)
      requires Valid() && i < |list| && list[i] == current && Fits(heap.blocks[i], need) && Splits(heap.blocks[i], need)
      modifies this
      ensures Valid() && heap == Heap(SplitAt(old(heap.blocks), i, need), EndAfterTake(old(heap), i, need))
    {
      ghost var bs := heap.blocks;
      HeldNodesDistinct(mem, list, bs);
      SplitPointIsNew(mem, list, bs, i, need);
      SplitHolds(mem, list, bs, i, need);
      TakeKeepsSound(bs, i, need);
      SplitAtIndex(bs, i, need, 0);
      assert BlockIs(mem, list, bs, i);
      assert i + 1 < |list| ==> LinkedAt(mem, list, i + 1) && list[i + 1] in list;
      ghost var end := EndAfterTake(heap, i, need);
      WriteSplit(current, need);
      list := list[..i + 1] + [current + HEADER + need] + list[i + 1..];
      heap := Heap(SplitAt(bs, i, need), end);
    }

    /** `kmalloc` up to the point where it would expand the heap. */
    method Allocate(size: nat) returns (r: Result)
      requires Valid()
      modifies this
      ensures Valid() && (heap, r) == Malloc(old(heap), size)
    {
      var current := start;
      if size == 0 {
        return Null;
      }
      var need := RealSize(size);
      ghost var i := 0;
      assert LinkedAt(mem, list, 0) && BlockIs(mem, list, heap.blocks, 0);
      while current != 0
        invariant i <= |list| && Valid() && heap == old(heap)
        invariant current == if i < |list| then list[i] else 0
        invariant i < |list| ==> list[i] > 0
        invariant Stop(heap.blocks, heapEnd, need, i) == Stop(heap.blocks, heapEnd, need, 0)
        decreases |list| - i
      {
        assert LinkedAt(mem, list, i) && BlockIs(mem, list, heap.blocks, i);
        if mem[current].isFree {
          if mem[current].size >= need {
            if mem[current].size - need > MINIMUM_ALLOCABLE {
              SplitCurrent(current, need, i);
            } else {
              HeldNodesDistinct(mem, list, heap.blocks);
              SetFreeHolds(mem, list, heap.blocks, i, false);
              TakeKeepsSound(heap.blocks, i, need);
              mem := mem[current := mem[current].(isFree := false)];
              heap := heap.(blocks := TakeAt(heap.blocks, i, need));
            }
            return Pointer(current + HEADER);
          }
        }
        if current == heapEnd {
          return Expands;
        }
        current := mem[current].next;
        i := i + 1;
        assert i < |list| ==> LinkedAt(mem, list, i);
      }
      return Null;
    }
  }

  /** The header of a new node falls into the payload of the node that is split. */
  lemma SplitPointIsNew(mem: Memory, list: seq<nat>, bs: Blocks, i: nat, need: nat)
    requires Holds(mem, list, bs) && Tiled(bs) && i < |bs| && bs[i].size >= need && Splits(bs[i], need)
    ensures list[i] + HEADER + need !in list
  {
    assert BlockIs(mem, list, bs, i);
    forall j | 0 <= j < |list| ensures list[j] != list[i] + HEADER + need {
      assert BlockIs(mem, list, bs, j);
      if i < j { NodesDisjoint(bs, i, j); } else if j < i { NodesDisjoint(bs, j, i); }
    }
  }
}
