/** The frame allocator as the source of the frames that mapping and backing take. */
module FrameSupply {
  import opened Bits
  import opened PageTable
  import opened Addresses
  import opened Mapping
  import opened Backing
  import Bitmap
  import Pmm
  import FrameRuns

  /** Page table entries hold addresses of 40 bits. */
  const MEMORY_LIMIT: nat := 0x100_0000_0000

  /** The addresses that a run of single allocations hands out. */
  ghost function HandedOut(calls: seq<Pmm.Call>, pageSize: nat): (fs: seq<Frame>)
    requires forall i :: 0 <= i < |calls| ==> calls[i].AllocFrame? && calls[i].found >= 0
    ensures |fs| == |calls| && forall i :: 0 <= i < |calls| ==> fs[i] == Pmm.FrameAddress(calls[i].found, pageSize)
  {
    seq(|calls|, i requires 0 <= i < |calls| => Pmm.FrameAddress(calls[i].found, pageSize))
  }

  /** Frame k was free before the run and is no boot frame. */
  ghost predicate WasFree(s: Pmm.State, k: int) { s.boot <= k < |s.flags| && !s.flags[k] }

  /** The frames that a run of single allocations finds were free before it, and no two are the same. */
  lemma {:induction false} FoundFramesFresh(s: Pmm.State, calls: seq<Pmm.Call>)
    requires Pmm.Consistent(s) && s.boot > 0 && FrameRuns.SingleRun(s, calls)
    ensures forall i :: 0 <= i < |calls| ==> WasFree(s, calls[i].found)
    ensures forall i, j :: 0 <= i < j < |calls| ==> calls[i].found != calls[j].found
    decreases |calls|
  {
    if calls != [] {
      var c, rest := calls[0], calls[1..];
      Pmm.NextKeepsConsistent(s, c);
      Pmm.AllocReturnsFreshFrame(s, c.owner, c.found);
      var s1 := Pmm.Next(s, c);
      FoundFramesFresh(s1, rest);
      forall i | 1 <= i < |calls| ensures WasFree(s, calls[i].found) && calls[i].found != c.found {
        assert calls[i] == rest[i - 1];
        assert WasFree(s1, rest[i - 1].found);
      }
      forall i, j | 0 <= i < j < |calls| ensures calls[i].found != calls[j].found {
        if i > 0 { assert calls[i] == rest[i - 1] && calls[j] == rest[j - 1]; }
      }
    }
  }

  /** Page tables lie in frames in use. */
  ghost predicate TablesInUse(s: Pmm.State, labels: Labels, pageSize: nat)
    requires pageSize > 0
  {
    forall g :: g in labels ==> g / pageSize < |s.flags| && s.flags[g / pageSize]
  }

  lemma FrameIsWhole(s: Pmm.State, labels: Labels, depth: nat, k: nat)
    requires depth in {3, 4} && TablesInUse(s, labels, PageSize(depth)) && WasFree(s, k)
    requires |s.flags| * PageSize(depth) <= MEMORY_LIMIT
    ensures var f := Pmm.FrameAddress(k, PageSize(depth));
      && f == k * PageSize(depth) && f % PageSize(depth) == 0 && Aligned(f)
      && f !in labels && Clear(labels, PageSize(depth), f)
  {
    var size := PageSize(depth);
    DivUnique(k * size, size, k, 0);
    MulMono(size, k + 1, |s.flags|);
    Pmm.FrameAddressStarts(k, size);
    if depth == 3 {
      assert k * size == 0x1000 * (512 * k);
      DivUnique(k * size, 0x1000, 512 * k, 0);
    }
  }

  /** What the next single allocations of a consistent allocator hand out is a supply as mapping and backing
      assume it: distinct, page aligned, without a page table in it, and held by nobody. */
  lemma AllocatorSupplies(s: Pmm.State, calls: seq<Pmm.Call>, depth: nat, mem: Memory, labels: Labels)
    requires depth in {3, 4} && Pmm.Consistent(s) && s.boot > 0 && FrameRuns.SingleRun(s, calls)
    requires TablesInUse(s, labels, PageSize(depth)) && |s.flags| * PageSize(depth) <= MEMORY_LIMIT
    requires forall i :: 0 <= i < |calls| ==>
      calls[i].found >= 0 && IsTable(mem, Pmm.FrameAddress(calls[i].found, PageSize(depth)))
    ensures var st := State(mem, HandedOut(calls, PageSize(depth)), labels);
      FreshFrames(st) && WholeFrames(st, PageSize(depth))
    ensures forall i, j :: 0 <= i < |calls| && 0 <= j < |s.holdings| ==> calls[i].found != s.holdings[j].frame
  {
    var size, fs := PageSize(depth), HandedOut(calls, PageSize(depth));
    FoundFramesFresh(s, calls);
    forall k | 0 <= k < |fs|
      ensures fs[k] == calls[k].found * size
      ensures fs[k] !in labels && Aligned(fs[k]) && fs[k] % size == 0 && Clear(labels, size, fs[k])
    {
      assert WasFree(s, calls[k].found);
      FrameIsWhole(s, labels, depth, calls[k].found);
    }
    forall j, k | 0 <= j < k < |fs| ensures fs[j] != fs[k] {
      assert calls[j].found != calls[k].found;
      DivUnique(fs[j], size, calls[j].found, 0);
      DivUnique(fs[k], size, calls[k].found, 0);
    }
    forall i, j | 0 <= i < |calls| && 0 <= j < |s.holdings| ensures calls[i].found != s.holdings[j].frame {
      assert WasFree(s, calls[i].found);
    }
  }
}
