/** What the callers of the virtual range allocator get: the areas at the addresses returned. */
module VmmResults {
  import opened Bits
  import opened PageTable
  import opened Addresses
  import opened Mapping
  import opened Backing
  import opened RangeBacking
  import opened Vmm
  import opened VmmRanges
  import opened VmmBytes

  /** Where the area of a call begins, given the address it returned: for a stack, flag bit 8, the address is
      taken for the end of 0x10000 bytes. */
  function AreaStart(c: AllocCall, r: nat): int { if Bit(c.flags, 8) then r - 0x1_0000 else r }

  lemma FlagBitsAre(flags: nat)
    ensures AddressOnly(flags) <==> Bit(flags, 7)
    ensures IsStack(flags) <==> Bit(flags, 8)
  {
    EntryBits(flags);
    EntryBits(flags / 2);
    assert Bit(flags, 8) == Bit(flags / 2, 7);
    DivDiv(flags, 2, 0x80);
  }

  /** A call that is not refused returns the address it was asked for, if that lies beyond all that has been
      given out, and else the next one; its area is exactly the range it records. */
  lemma ReturnedIsRecorded(s: Space, l: Layout, c: AllocCall)
    requires s.containers != [] && !Refused(s, l, c.size)
    ensures var r := Returned(s, l, c.base, c.size, c.flags);
      var items := Recorded(AllocAt(s, l, c.base, c.size, c.flags).containers);
      && r.Some? && items != []
      && var item := items[|items| - 1];
      && AreaStart(c, r.value) == item.base == (if c.base > s.next then c.base else s.next)
      && c.size <= item.size < c.size + PageSize(l.depth) && item.flags == c.flags
  {
    FlagBitsAre(c.flags);
    AllocKeepsRecords(s, l, c.base, c.size, c.flags);
  }

  /** A refused call returns NULL, and only it. */
  lemma ReturnsNullIff(s: Space, l: Layout, c: AllocCall)
    ensures Returned(s, l, c.base, c.size, c.flags).None? <==>
      c.size == 0 || (s.curIndex >= ItemsPerPage(l.depth) && s.pages.supply == [])
  {}

  // ----- runs -----

  /** What the calls of a run return. */
  ghost function Results(s: Space, l: Layout, calls: seq<AllocCall>): (rs: seq<Option<nat>>)
    requires s.containers != []
    ensures |rs| == |calls|
    decreases |calls|
  {
    if calls == [] then []
    else
      var c := calls[0];
      [Returned(s, l, c.base, c.size, c.flags)] +
      Results(AllocAt(s, l, c.base, c.size, c.flags), l, calls[1..])
  }

  /** Item k records the area that a call returned. */
  ghost predicate Records(items: seq<Item>, k: nat, c: AllocCall, r: Option<nat>) {
    && k < |items| && r.Some?
    && items[k].base == AreaStart(c, r.value) && items[k].size >= c.size && items[k].flags == c.flags
  }

  lemma FirstIsRecorded(s: Space, l: Layout, calls: seq<AllocCall>)
    requires s.containers != [] && calls != [] && Results(s, l, calls)[0].Some?
    ensures Records(Recorded(Run(s, l, calls).containers), |Recorded(s.containers)|, calls[0], Results(s, l, calls)[0])
  {
    var c := calls[0];
    AllocKeepsRecords(s, l, c.base, c.size, c.flags);
    ReturnedIsRecorded(s, l, c);
    RunKeepsRecords(AllocAt(s, l, c.base, c.size, c.flags), l, calls[1..]);
  }

  /** Every successful call of a run has its area on record at the end of it. */
  lemma {:induction false} ResultIsRecorded(s: Space, l: Layout, calls: seq<AllocCall>, i: nat) returns (k: nat)
    requires s.containers != [] && i < |calls| && Results(s, l, calls)[i].Some?
    ensures |Recorded(s.containers)| <= k
    ensures Records(Recorded(Run(s, l, calls).containers), k, calls[i], Results(s, l, calls)[i])
    decreases |calls|
  {
    var c := calls[0];
    var s1 := AllocAt(s, l, c.base, c.size, c.flags);
    AllocKeepsRecords(s, l, c.base, c.size, c.flags);
    if i == 0 {
      FirstIsRecorded(s, l, calls);
      k := |Recorded(s.containers)|;
    } else {
      k := ResultIsRecorded(s1, l, calls[1..], i - 1);
    }
  }

  /** Two calls have two records. */
  lemma {:induction false} ResultsAreRecorded(s: Space, l: Layout, calls: seq<AllocCall>, i: nat, j: nat)
    returns (k: nat, m: nat)
    requires s.containers != [] && i < j < |calls|
    requires Results(s, l, calls)[i].Some? && Results(s, l, calls)[j].Some?
    ensures k < m
    ensures Records(Recorded(Run(s, l, calls).containers), k, calls[i], Results(s, l, calls)[i])
    ensures Records(Recorded(Run(s, l, calls).containers), m, calls[j], Results(s, l, calls)[j])
    decreases |calls|
  {
    var c := calls[0];
    var s1 := AllocAt(s, l, c.base, c.size, c.flags);
    if i == 0 {
      AllocKeepsRecords(s, l, c.base, c.size, c.flags);
      FirstIsRecorded(s, l, calls);
      k := |Recorded(s.containers)|;
      m := ResultIsRecorded(s1, l, calls[1..], j - 1);
    } else {
      k, m := ResultsAreRecorded(s1, l, calls[1..], i - 1, j - 1);
    }
  }

  /** Over every run, whatever the flags and the addresses asked for: the areas of two calls do not overlap. */
  lemma ResultsDisjoint(s: Space, l: Layout, calls: seq<AllocCall>, i: nat, j: nat)
    requires Inv(s, l) && EnabledRun(s, l, calls) && i < j < |calls|
    requires Results(s, l, calls)[i].Some? && Results(s, l, calls)[j].Some?
    ensures var rs := Results(s, l, calls);
      l.lo <= AreaStart(calls[i], rs[i].value)
      && AreaStart(calls[i], rs[i].value) + calls[i].size <= AreaStart(calls[j], rs[j].value)
      && AreaStart(calls[j], rs[j].value) + calls[j].size <= l.hi
  {
    RunKeepsInv(s, l, calls);
    var k, m := ResultsAreRecorded(s, l, calls, i, j);
  }

  /** Byte a lies in the area of call i, which asks for memory behind it. */
  ghost predicate InArea(s: Space, l: Layout, calls: seq<AllocCall>, i: nat, a: nat)
    requires s.containers != []
  {
    && i < |calls| && Results(s, l, calls)[i].Some? && !Bit(calls[i].flags, 7)
    && var start := AreaStart(calls[i], Results(s, l, calls)[i].value);
    start <= a < start + calls[i].size
  }

  lemma AreaIsBacked(s: Space, l: Layout, calls: seq<AllocCall>, i: nat, a: nat) returns (k: nat)
    requires s.containers != [] && InArea(s, l, calls, i, a)
    ensures BackedAt(Run(s, l, calls), k, a)
  {
    FlagBitsAre(calls[i].flags);
    k := ResultIsRecorded(s, l, calls, i);
  }

  /** And if the run asks for aligned addresses only: every byte of every area is backed by a physical byte in
      which no byte of any area but itself stands, no page table, and nothing that is still to be handed out. */
  lemma AreasAreBacked(s: Space, l: Layout, calls: seq<AllocCall>, i: nat, a: nat, j: nat, b: nat)
    requires Inv(s, l) && AlignedSpace(s, l) && EnabledRun(s, l, calls) && RunAsksAligned(s, l, calls)
    requires InArea(s, l, calls, i, a) && InArea(s, l, calls, j, b)
    ensures var st := Run(s, l, calls).pages;
      && Phys(st, l, a).Some? && Phys(st, l, b).Some? && (Phys(st, l, a) == Phys(st, l, b) <==> a == b)
      && OwnByte(st, PageSize(l.depth), Phys(st, l, a).value)
    ensures i != j ==> a != b
  {
    var k := AreaIsBacked(s, l, calls, i, a);
    var m := AreaIsBacked(s, l, calls, j, b);
    RunBytesAreDistinct(s, l, calls, k, a, m, b);
    if i < j { ResultsDisjoint(s, l, calls, i, j); } else if j < i { ResultsDisjoint(s, l, calls, j, i); }
  }
}
