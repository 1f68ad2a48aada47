/** The physical frame allocator: frames are handed out by a moving pointer before the bitmap exists
    and by the bitmap afterwards. */
module Pmm {
  import opened Bits
  import opened Bitmap
  import BitmapRuns

  const PAGE_DIR_SIZE: nat := 0x1000

  // ----- marking a range -----

  /** The flags after frames a to a + n - 1 have been set. */
  function Marked(u: Flags, a: nat, n: nat): (r: Flags)
    requires a + n <= |u|
    ensures |r| == |u|
    ensures forall k :: 0 <= k < |u| ==> r[k] == (u[k] || a <= k < a + n)
  {
    seq(|u|, k requires 0 <= k < |u| => u[k] || a <= k < a + n)
  }

  lemma MarkedStep(u: Flags, a: nat, n: nat)
    requires a + n < |u|
    ensures Marked(u, a, n)[a + n := true] == Marked(u, a, n + 1)
    ensures Marked(u, a, 0) == u
  {}

  lemma CountMarkedNone(u: Flags, a: nat)
    requires a <= |u|
    ensures Count(Marked(u, a, 0)) == Count(u)
  {
    assert Marked(u, a, 0) == u;
  }

  lemma CountMarkedStep(u: Flags, a: nat, n: nat)
    requires a + n < |u|
    ensures Count(Marked(u, a, n + 1)) == Count(Marked(u, a, n)) + if u[a + n] then 0 else 1
  {
    MarkedStep(u, a, n);
    CountUpdate(Marked(u, a, n), a + n, true);
  }

  /** How many of the n frames from a on are in use. */
  function UsedIn(u: Flags, a: nat, n: nat): (k: nat)
    requires a + n <= |u|
    ensures k <= n
  {
    if n == 0 then 0 else UsedIn(u, a, n - 1) + if u[a + n - 1] then 1 else 0
  }

  lemma {:induction false} UsedInIff(u: Flags, a: nat, n: nat)
    requires a + n <= |u|
    ensures UsedIn(u, a, n) == 0 <==> FreeRun(u, a, n)
    decreases n
  {
    if n > 0 {
      UsedInIff(u, a, n - 1);
      FreeRunStep(u, a, n - 1);
    }
  }

  /** Numbers that grow by one for each frame that is free add up to n less the frames in use. */
  lemma {:induction false} GrownBy(u: Flags, a: nat, n: nat, counts: seq<int>)
    requires a + n <= |u| && |counts| > n
    requires forall k :: 0 <= k < n ==> counts[k + 1] == counts[k] + if u[a + k] then 0 else 1
    ensures counts[n] + UsedIn(u, a, n) == counts[0] + n
    decreases n
  {
    if n > 0 { GrownBy(u, a, n - 1, counts); }
  }

  lemma CountMarkedUsed(u: Flags, a: nat, n: nat)
    requires a + n <= |u|
    ensures Count(Marked(u, a, n)) + UsedIn(u, a, n) == Count(u) + n
  {
    var counts := seq(n + 1, k requires 0 <= k <= n => Count(Marked(u, a, k)));
    forall k | 0 <= k < n ensures counts[k + 1] == counts[k] + if u[a + k] then 0 else 1 {
      CountMarkedStep(u, a, k);
    }
    CountMarkedNone(u, a);
    GrownBy(u, a, n, counts);
  }

  /** Marking n frames adds n to the count exactly if all of them were free. */
  lemma CountMarkedIff(u: Flags, a: nat, n: nat)
    requires a + n <= |u|
    ensures Count(u) <= Count(Marked(u, a, n)) <= Count(u) + n
    ensures Count(Marked(u, a, n)) == Count(u) + n <==> FreeRun(u, a, n)
  {
    UsedInIff(u, a, n);
    CountMarkedUsed(u, a, n);
  }

  lemma CountMarked(u: Flags, a: nat, n: nat)
    requires FreeRun(u, a, n)
    ensures Count(Marked(u, a, n)) == Count(u) + n
  {
    CountMarkedIff(u, a, n);
  }

  lemma FreeRunStep(u: Flags, a: nat, n: nat)
    requires a + n < |u|
    ensures FreeRun(u, a, n + 1) <==> FreeRun(u, a, n) && !u[a + n]
  {}

  // ----- reserving an area -----

  /** The number of frames that an area of `size` bytes takes. */
  function AreaFrames(size: nat, pageSize: nat): nat
    requires pageSize > 0
  {
    size / pageSize + if size % pageSize != 0 then 1 else 0
  }

  /** They hold the area, and one less would not. */
  lemma AreaFramesSuffice(size: nat, pageSize: nat)
    requires pageSize > 0
    ensures size <= AreaFrames(size, pageSize) * pageSize < size + pageSize
  {
    var q := size / pageSize;
    assert size == pageSize * q + size % pageSize;
    assert (q + 1) * pageSize == pageSize * q + pageSize;
  }

  /** The physical address of a frame, in 64-bit arithmetic. */
  function FrameAddress(frame: nat, pageSize: nat): nat { frame * pageSize % TWO_64 }

  /** A search result as the callers take it: -1 becomes the largest 64-bit number. */
  function Unsigned(found: int): nat { if found < 0 then TWO_64 - 1 else found }

  /** What is handed out for a search that failed is not 0, which stands for NULL, but an address beyond
      every frame. */
  lemma FailureAddress(pageSize: nat)
    requires 0 < pageSize < TWO_64
    ensures FrameAddress(Unsigned(-1), pageSize) == TWO_64 - pageSize
  {
    assert (TWO_64 - 1) * pageSize == TWO_64 * (pageSize - 1) + (TWO_64 - pageSize);
    DivUnique((TWO_64 - 1) * pageSize, TWO_64, pageSize - 1, TWO_64 - pageSize);
  }

  /** Below the end of the 64-bit space the address is that of the first byte of the frame. */
  ghost predicate StartsFrame(address: nat, frame: nat, pageSize: nat)
    requires pageSize > 0
  {
    frame * pageSize < TWO_64 ==> address == frame * pageSize && address / pageSize == frame && address % pageSize == 0
  }

  lemma FrameAddressStarts(frame: nat, pageSize: nat)
    requires pageSize > 0
    ensures StartsFrame(FrameAddress(frame, pageSize), frame, pageSize)
  {
    DivUnique(frame * pageSize, pageSize, frame, 0);
  }

  /** How many of the n frames from `location` on are free before the first one in use. */
  function FreePrefix(u: Flags, location: nat, n: nat): (m: nat)
    requires location + n <= |u|
    ensures m <= n && FreeRun(u, location, m) && (m < n ==> u[location + m])
    decreases n
  {
    if n == 0 || u[location] then 0 else 1 + FreePrefix(u, location + 1, n - 1)
  }

  ghost predicate AllUsed(u: Flags, a: nat, b: nat)
    requires b <= |u|
  {
    forall k :: a <= k < b ==> u[k]
  }

  /** No free frame follows one that is in use. */
  ghost predicate UsedAtTheEnd(u: Flags, a: nat, b: nat)
    requires b <= |u|
  {
    forall j, k :: a <= j < k < b && u[j] ==> u[k]
  }

  lemma TailUsed(u: Flags, a: nat, b: nat, j: nat)
    requires a <= j < b <= |u| && u[j] && UsedAtTheEnd(u, a, b)
    ensures AllUsed(u, j, b)
  {}

  lemma UsedAfterFree(u: Flags, a: nat, m: nat, b: nat)
    requires a + m <= b <= |u| && FreeRun(u, a, m) && AllUsed(u, a + m, b)
    ensures UsedAtTheEnd(u, a, b)
  {}

  lemma MarkedAllIff(u: Flags, a: nat, m: nat, b: nat)
    requires a + m <= b <= |u|
    ensures AllUsed(Marked(u, a, m), a, b) <==> AllUsed(u, a + m, b)
  {
    var r := Marked(u, a, m);
    assert forall k :: a + m <= k < b ==> r[k] == u[k];
  }

  /** `pmm_reserve_area` marks the free frames at the start of an area and stops at the first frame
      in use, so it marks the whole area exactly if no free frame follows one that is in use. */
  lemma ReserveMarksAllIff(u: Flags, location: nat, n: nat)
    requires location + n <= |u|
    ensures AllUsed(Marked(u, location, FreePrefix(u, location, n)), location, location + n)
      <==> UsedAtTheEnd(u, location, location + n)
  {
    var m := FreePrefix(u, location, n);
    MarkedAllIff(u, location, m, location + n);
    if AllUsed(u, location + m, location + n) { UsedAfterFree(u, location, m, location + n); }
    if m < n && UsedAtTheEnd(u, location, location + n) { TailUsed(u, location, location + n, location + m); }
  }

  // ----- the memory map -----

  /** An area of physical memory; kind 1 is available. */
  datatype MapEntry = MapEntry(addr: nat, len: nat, kind: nat)

  predicate Unusable(e: MapEntry, upper: nat) { e.addr < upper && e.kind > 1 }

  /** The areas that are reserved lie within the bitmap. */
  ghost predicate EntriesFit(entries: seq<MapEntry>, upper: nat, pageSize: nat, size: nat)
    requires pageSize > 0
  {
    forall i :: 0 <= i < |entries| && Unusable(entries[i], upper) ==>
      entries[i].addr / pageSize + AreaFrames(entries[i].len, pageSize) <= size
  }

  /** The reservations that the memory map asks for. */
  function Reservations(entries: seq<MapEntry>, upper: nat, pageSize: nat): seq<Call>
    requires pageSize > 0
  {
    if entries == [] then []
    else
      var e, rest := entries[0], Reservations(entries[1..], upper, pageSize);
      if Unusable(e, upper) then [Reserve(e.addr / pageSize, AreaFrames(e.len, pageSize))] + rest else rest
  }

  lemma {:induction false} ReservationsEnabled(s: State, entries: seq<MapEntry>, upper: nat, pageSize: nat)
    requires pageSize > 0 && EntriesFit(entries, upper, pageSize, |s.flags|)
    ensures EnabledRun(s, Reservations(entries, upper, pageSize))
    decreases |entries|
  {
    if entries != [] {
      var e := entries[0];
      if Unusable(e, upper) {
        var c := Reserve(e.addr / pageSize, AreaFrames(e.len, pageSize));
        ReservationsEnabled(Next(s, c), entries[1..], upper, pageSize);
        assert Reservations(entries, upper, pageSize)[1..] == Reservations(entries[1..], upper, pageSize);
      } else {
        ReservationsEnabled(s, entries[1..], upper, pageSize);
      }
    }
  }

  /** Frame k is one of those that reserving an entry goes over. */
  predicate InEntry(e: MapEntry, pageSize: nat, k: nat)
    requires pageSize > 0
  {
    e.addr / pageSize <= k < e.addr / pageSize + AreaFrames(e.len, pageSize)
  }

  lemma {:induction false} ReservationsKeepUsed(s: State, entries: seq<MapEntry>, upper: nat, pageSize: nat, k: nat)
    requires pageSize > 0 && EnabledRun(s, Reservations(entries, upper, pageSize)) && k < |s.flags| && s.flags[k]
    ensures var s1 := Run(s, Reservations(entries, upper, pageSize)); |s1.flags| == |s.flags| && s1.flags[k]
    decreases |entries|
  {
    if entries != [] {
      var e, rest := entries[0], Reservations(entries[1..], upper, pageSize);
      if Unusable(e, upper) {
        assert Reservations(entries, upper, pageSize)[1..] == rest;
        ReservationsKeepUsed(Next(s, Reserve(e.addr / pageSize, AreaFrames(e.len, pageSize))), entries[1..], upper,
          pageSize, k);
      } else {
        ReservationsKeepUsed(s, entries[1..], upper, pageSize, k);
      }
    }
  }

  /** After the reservations the first frame of every entry that is not available, and begins below the end of
      memory, is in use. */
  lemma {:induction false} UnusableReserved(s: State, entries: seq<MapEntry>, upper: nat, pageSize: nat, i: nat)
    requires pageSize > 0 && EnabledRun(s, Reservations(entries, upper, pageSize)) && i < |entries|
    requires entries[i].addr < upper && entries[i].kind > 1 && entries[i].len > 0
    ensures var s1 := Run(s, Reservations(entries, upper, pageSize));
      entries[i].addr / pageSize < |s1.flags| && s1.flags[entries[i].addr / pageSize]
    decreases |entries|
  {
    var e, rest := entries[0], Reservations(entries[1..], upper, pageSize);
    var c := Reserve(e.addr / pageSize, AreaFrames(e.len, pageSize));
    if Unusable(e, upper) { assert Reservations(entries, upper, pageSize)[1..] == rest; }
    if i == 0 {
      SomeFrames(e.len, pageSize);
      ReservationsKeepUsed(Next(s, c), entries[1..], upper, pageSize, e.addr / pageSize);
    } else {
      UnusableReserved(if Unusable(e, upper) then Next(s, c) else s, entries[1..], upper, pageSize, i - 1);
    }
  }

  lemma SomeFrames(len: nat, pageSize: nat)
    requires len > 0 && pageSize > 0
    ensures AreaFrames(len, pageSize) > 0
  {
    AreaFramesSuffice(len, pageSize);
  }

  /** They leave every frame alone that lies in none of these entries. */
  lemma {:induction false} OthersNotReserved(s: State, entries: seq<MapEntry>, upper: nat, pageSize: nat, k: nat)
    requires pageSize > 0 && EnabledRun(s, Reservations(entries, upper, pageSize)) && k < |s.flags|
    requires forall i :: 0 <= i < |entries| && InEntry(entries[i], pageSize, k) ==>
      entries[i].addr >= upper || entries[i].kind <= 1
    ensures var s1 := Run(s, Reservations(entries, upper, pageSize));
      |s1.flags| == |s.flags| && s1.flags[k] == s.flags[k]
    decreases |entries|
  {
    if entries != [] {
      var e, rest := entries[0], Reservations(entries[1..], upper, pageSize);
      if Unusable(e, upper) {
        assert Reservations(entries, upper, pageSize)[1..] == rest;
        assert !InEntry(e, pageSize, k);
        OthersNotReserved(Next(s, Reserve(e.addr / pageSize, AreaFrames(e.len, pageSize))), entries[1..], upper,
          pageSize, k);
      } else {
        OthersNotReserved(s, entries[1..], upper, pageSize, k);
      }
    }
  }

  lemma NextReservation(s: State, entries: seq<MapEntry>, i: nat, upper: nat, pageSize: nat, size: nat)
    requires pageSize > 0 && i < |entries| && EntriesFit(entries, upper, pageSize, size)
    requires EnabledRun(s, Reservations(entries[i..], upper, pageSize))
    ensures var e, rest := entries[i], Reservations(entries[i + 1..], upper, pageSize);
      if Unusable(e, upper) then
        var c := Reserve(e.addr / pageSize, AreaFrames(e.len, pageSize));
        && e.addr / pageSize + AreaFrames(e.len, pageSize) <= size && Enabled(s, c) && EnabledRun(Next(s, c), rest)
        && Run(s, Reservations(entries[i..], upper, pageSize)) == Run(Next(s, c), rest)
      else Reservations(entries[i..], upper, pageSize) == rest
  {
    assert entries[i..][1..] == entries[i + 1..];
    if Unusable(entries[i], upper) {
      assert Reservations(entries[i..], upper, pageSize)[1..] == Reservations(entries[i + 1..], upper, pageSize);
    }
  }

  // ----- the allocator -----

  class FrameAllocator {
    const pageSize: nat
    const memorySize: nat
    const memoryMap: array<nat>
    var bitmapSize: nat
    var usedFrames: nat
    var initialized: bool
    var anonPhysicalLoc: nat
    ghost var flags: Flags
    ghost var issued: seq<nat>

    /** Frames issued before initialisation ascend and lie below the pointer. */
    ghost predicate BumpValid()
      reads this
    {
      && (forall k :: 0 <= k < |issued| ==> issued[k] + PAGE_DIR_SIZE <= anonPhysicalLoc)
      && (forall j, k :: 0 <= j < k < |issued| ==> issued[j] + PAGE_DIR_SIZE <= issued[k])
    }

    /** The bitmap and the counter as a state of the runs below, with these holdings. */
    ghost function S(holdings: seq<Holding>): State
      reads this
    {
      State(flags, usedFrames, holdings, 0)
    }

    ghost predicate Valid()
      reads this, memoryMap
    {
      && pageSize > 0 && memoryMap.Length <= 0xFFFF
      && Represents(memoryMap[..], flags)
      && usedFrames == Count(flags)
      && bitmapSize < |flags|
      && BumpValid()
      && initialized
    }

    constructor (pageSize: nat, memorySize: nat, rows: nat, start: nat)
      requires pageSize > 0 && rows <= 0xFFFF
      ensures BumpValid() && !initialized && issued == [] && anonPhysicalLoc == start
      ensures this.pageSize == pageSize && this.memorySize == memorySize && memoryMap.Length == rows && fresh(memoryMap)
    {
      this.pageSize, this.memorySize := pageSize, memorySize;
      memoryMap := new nat[rows](_ => 0);
      bitmapSize, usedFrames, initialized, anonPhysicalLoc := 0, 0, false, start;
      flags, issued := [], [];
    }

    /** `pmm_prepare_new_pagetable` before initialisation: the pointer skips frames that the memory
        map does not offer, hands out the next one and moves past it. */
    method BumpFrame(available: nat -> bool) returns (frame: nat)
      requires BumpValid() && !initialized
      modifies this`anonPhysicalLoc, this`issued
      ensures BumpValid()
      ensures issued == old(issued) + [frame] && anonPhysicalLoc == frame + PAGE_DIR_SIZE
      ensures old(anonPhysicalLoc) <= frame && (available(frame) || frame >= memorySize)
      ensures (frame - old(anonPhysicalLoc)) % PAGE_DIR_SIZE == 0
      ensures forall j :: 0 <= j && old(anonPhysicalLoc) + PAGE_DIR_SIZE * j < frame ==>
        !available(old(anonPhysicalLoc) + PAGE_DIR_SIZE * j)
    {
      ghost var steps := 0;
      while !available(anonPhysicalLoc) && anonPhysicalLoc < memorySize
        invariant anonPhysicalLoc == old(anonPhysicalLoc) + PAGE_DIR_SIZE * steps && issued == old(issued)
        invariant forall j :: 0 <= j < steps ==> !available(old(anonPhysicalLoc) + PAGE_DIR_SIZE * j)
        decreases memorySize - anonPhysicalLoc
      {
        anonPhysicalLoc := anonPhysicalLoc + PAGE_DIR_SIZE;
        steps := steps + 1;
      }
      anonPhysicalLoc := anonPhysicalLoc + PAGE_DIR_SIZE;
      frame := anonPhysicalLoc - PAGE_DIR_SIZE;
      issued := issued + [frame];
    }

    /** `_initialize_bitmap` as called by `pmm_setup`, with the end of the area the pointer has used,
        and the phase change. */
    method Setup(memoryAvailable: nat)
      requires BumpValid() && !initialized && pageSize > 0 && 0 < memoryMap.Length <= 0xFFFF
      requires memoryMap.Length == (memoryAvailable / pageSize + 1) / 64 + 1
      requires KernelEntries(anonPhysicalLoc + pageSize, pageSize) / 64 < memoryMap.Length
      modifies this, memoryMap
      ensures Valid() && issued == old(issued) && anonPhysicalLoc == old(anonPhysicalLoc)
      ensures bitmapSize == memoryAvailable / pageSize + 1
      ensures var entries := KernelEntries(anonPhysicalLoc + pageSize, pageSize);
        flags == FirstUsed(entries, 64 * memoryMap.Length) && usedFrames == entries
      ensures S([]).(boot := usedFrames) == AfterSetup(anonPhysicalLoc, pageSize, 64 * memoryMap.Length)
    {
      bitmapSize := memoryAvailable / pageSize + 1;
      var kernelEntries := KernelEntries(anonPhysicalLoc + pageSize, pageSize);
      MarkFirstFrames(memoryMap, kernelEntries);
      flags := FirstUsed(kernelEntries, 64 * memoryMap.Length);
      usedFrames := kernelEntries;
      CountOfPrefix(flags, kernelEntries);
      initialized := true;
    }

    /** `_bitmap_set_bit` for any location: beyond the bitmap it writes outside it and changes no flag. */
    method Mark(location: nat)
      requires Represents(memoryMap[..], flags)
      modifies this`flags, memoryMap
      ensures Represents(memoryMap[..], flags)
      ensures flags == if location < |old(flags)| then old(flags)[location := true] else old(flags)
    {
      if location / 64 < memoryMap.Length {
        SetBit(memoryMap, location, flags);
        flags := flags[location := true];
      }
    }

    /** `pmm_alloc_frame`; 0 stands for NULL. A search that fails is not recognised: the count grows, no
        frame is marked, and what is returned is no frame. */
    method AllocFrame() returns (address: nat, ghost frame: int)
      requires Valid()
      modifies this`usedFrames, this`flags, memoryMap
      ensures old(usedFrames) >= bitmapSize ==>
        frame == 0 && address == 0 && Valid() && flags == old(flags) && usedFrames == old(usedFrames)
      ensures old(usedFrames) < bitmapSize ==>
        FrameFound(old(flags), frame) && address == FrameAddress(Unsigned(frame), pageSize)
      ensures old(usedFrames) < bitmapSize && frame >= 0 ==>
        && Valid() && Follows(old(S([])), Call.AllocFrame(0, frame), flags, usedFrames)
        && StartsFrame(address, frame, pageSize)
        && (frame < bitmapSize <==> FreeInside(old(flags), bitmapSize))
      ensures frame == -1 ==>
        !FreeInside(old(flags), bitmapSize) && !Valid() && flags == old(flags) && usedFrames == old(usedFrames) + 1
    {
      frame := 0;
      if usedFrames >= bitmapSize {
        return 0, 0;
      }
      ghost var u, used := flags, usedFrames;
      var found := RequestFrame(memoryMap, flags);
      frame := found;
      FoundInsideIff(u, bitmapSize, found);
      if found >= 0 {
        AllocFollows(u, used, found);
        FrameAddressStarts(found, pageSize);
      }
      var location := Unsigned(found);
      if location > 0 {
        CountAfter(u, found);
        Mark(location);
        usedFrames := usedFrames + 1;
        return FrameAddress(location, pageSize), frame;
      }
      return 0, frame;
    }

    /** The marking loop of `pmm_alloc_area`, which counts up from any 64-bit number and wraps around. */
    method MarkFrames(location: nat, n: nat)
      requires Represents(memoryMap[..], flags) && location < TWO_64 && n < TWO_64 && |flags| < TWO_64
      modifies this`flags, memoryMap
      ensures Represents(memoryMap[..], flags) && flags == MarkedFrom(old(flags), location, n)
    {
      ghost var u := flags;
      var i := 0;
      MarkedFromNone(u, location);
      while i < n
        invariant 0 <= i <= n && Represents(memoryMap[..], flags) && flags == MarkedFrom(u, location, i)
      {
        MarkedFromStep(u, location, i);
        Mark((location + i) % TWO_64);
        i := i + 1;
      }
    }

    /** `pmm_alloc_area` for n pages. The result of the search is not examined: if it failed, the loop marks
        the lowest frames instead. */
    method AllocArea(n: nat) returns (address: nat, ghost start: int)
      requires Valid() && n < TWO_64
      modifies this`usedFrames, this`flags, memoryMap
      ensures old(usedFrames) >= bitmapSize ==>
        start == 0 && address == 0 && Valid() && flags == old(flags) && usedFrames == old(usedFrames)
      ensures old(usedFrames) < bitmapSize ==>
        && start == SearchResult(RowsOf(old(flags), memoryMap.Length), n)
        && address == FrameAddress(Unsigned(start), pageSize)
        && (start >= 0 ==> StartsFrame(address, start, pageSize))
        && AreaTaken(old(S([])), n, start, flags, usedFrames)
        && (Valid() <==> usedFrames == Count(flags))
    {
      start := 0;
      if usedFrames >= bitmapSize {
        return 0, 0;
      }
      var frames := RequestFrames(memoryMap, n, flags);
      start := frames;
      AreaLocation(flags, memoryMap.Length, n, start);
      TakeArea(n, frames);
      address := FrameAddress(Unsigned(frames), pageSize);
      if start >= 0 { FrameAddressStarts(start, pageSize); }
    }

    /** Mark the frames of an area. */
    method MarkArea(n: nat, start: int)
      requires Represents(memoryMap[..], flags) && |flags| < TWO_64 && n < TWO_64
      requires Unsigned(start) < TWO_64 && (start >= 0 ==> start + n <= |flags|)
      modifies this`flags, memoryMap
      ensures Represents(memoryMap[..], flags) && |flags| == |old(flags)|
      ensures flags ==
        if start >= 0 then Marked(old(flags), start, n) else Marked(old(flags), 0, LowMarks(old(flags), n))
    {
      MarkedFromIs(flags, start, n);
      MarkFrames(Unsigned(start), n);
    }

    /** Mark and count the frames of an area. */
    method TakeArea(n: nat, start: int)
      requires Represents(memoryMap[..], flags) && |flags| <= 0x40_0000 && usedFrames == Count(flags) && n < TWO_64
      requires start >= -1 && Unsigned(start) < TWO_64 && (start >= 0 ==> n > 0 && start + n <= |flags|)
      modifies this`usedFrames, this`flags, memoryMap
      ensures Represents(memoryMap[..], flags) && |flags| == |old(flags)|
      ensures AreaTaken(old(S([])), n, start, flags, usedFrames)
    {
      ghost var s := S([]);
      MarkArea(n, start);
      AreaTakenBy(s, n, start, flags);
      usedFrames := (usedFrames + n) % TWO_32;
    }

    /** `pmm_free_frame`, with a 32-bit counter: the counter stays right exactly if the address lies in a
        frame in use. */
    method FreeFrame(address: nat)
      requires Valid()
      modifies this`usedFrames, this`flags, memoryMap
      ensures var frame := address / pageSize;
        && (Valid() <==> frame < |old(flags)| && old(flags)[frame])
        && Represents(memoryMap[..], flags)
        && flags == (if frame < |old(flags)| then old(flags)[frame := false] else old(flags))
        && usedFrames == (if old(usedFrames) == 0 then 0xFFFF_FFFF else old(usedFrames) - 1)
        && (Valid() ==> Follows(old(S([Holding(0, frame)])), Free(0), flags, usedFrames))
    {
      var frame := address / pageSize;
      if frame / 64 < memoryMap.Length {
        FreeBit(memoryMap, frame, flags);
        CountUpdate(flags, frame, false);
        flags := flags[frame := false];
      }
      usedFrames := if usedFrames == 0 then 0xFFFF_FFFF else usedFrames - 1;
    }

    /** `pmm_reserve_area`. */
    method ReserveArea(startingAddress: nat, size: nat)
      requires Valid() && startingAddress / pageSize + AreaFrames(size, pageSize) <= |flags|
      modifies this`usedFrames, this`flags, memoryMap
      ensures Valid()
      ensures Follows(old(S([])), Reserve(startingAddress / pageSize, AreaFrames(size, pageSize)), flags, usedFrames)
    {
      var location, numberOfFrames := startingAddress / pageSize, AreaFrames(size, pageSize);
      ReserveFrom(location, numberOfFrames);
    }

    method ReserveFrom(first: nat, n: nat)
      requires Valid() && first + n <= |flags|
      modifies this`usedFrames, this`flags, memoryMap
      ensures Valid()
      ensures Follows(old(S([])), Reserve(first, n), flags, usedFrames)
    {
      CountMarked(flags, first, FreePrefix(flags, first, n));
      ReserveFrames(first, n);
    }

    /** `_mmap_setup`: the entries of the memory map that are not available and begin below the end of the
        last available one are reserved one after the other. */
    method ReserveUnusable(entries: seq<MapEntry>, upper: nat, ghost size: nat)
      requires Valid() && size == |flags|
      requires EntriesFit(entries, upper, pageSize, size)
      modifies this`usedFrames, this`flags, memoryMap
      ensures Valid() && EnabledRun(old(S([])), Reservations(entries, upper, pageSize))
      ensures S([]) == if old(usedFrames) > 0 then Run(old(S([])), Reservations(entries, upper, pageSize))
        else old(S([]))
    {
      ghost var all := Reservations(entries, upper, pageSize);
      ReservationsEnabled(S([]), entries, upper, pageSize);
      if usedFrames == 0 {
        return;
      }
      ghost var target := Run(S([]), all);
      var counter := 0;
      assert entries[0..] == entries;
      while counter < |entries|
        invariant 0 <= counter <= |entries| && Valid() && |flags| == size
        invariant EnabledRun(S([]), Reservations(entries[counter..], upper, pageSize))
        invariant Run(S([]), Reservations(entries[counter..], upper, pageSize)) == target
      {
        ReserveEntry(entries, counter, upper, size, target);
        counter := counter + 1;
      }
    }

    /** The body of that loop. */
    method ReserveEntry(entries: seq<MapEntry>, i: nat, upper: nat, ghost size: nat, ghost target: State)
      requires Valid() && |flags| == size && i < |entries| && EntriesFit(entries, upper, pageSize, size)
      requires EnabledRun(S([]), Reservations(entries[i..], upper, pageSize))
      requires Run(S([]), Reservations(entries[i..], upper, pageSize)) == target
      modifies this`usedFrames, this`flags, memoryMap
      ensures Valid() && |flags| == size
      ensures EnabledRun(S([]), Reservations(entries[i + 1..], upper, pageSize))
      ensures Run(S([]), Reservations(entries[i + 1..], upper, pageSize)) == target
    {
      var e := entries[i];
      NextReservation(S([]), entries, i, upper, pageSize, size);
      if e.addr < upper && e.kind > 1 {
        ReserveArea(e.addr, e.len);
      }
    }

    /** The body of the loop of `pmm_reserve_area`. */
    method TryReserve(location: nat) returns (moved: bool)
      requires Represents(memoryMap[..], flags) && location < |flags|
      modifies this`usedFrames, this`flags, memoryMap
      ensures Represents(memoryMap[..], flags) && moved == !old(flags)[location]
      ensures flags == (if moved then old(flags)[location := true] else old(flags))
      ensures usedFrames == old(usedFrames) + if moved then 1 else 0
    {
      var inUse := TestBit(memoryMap, location, flags);
      moved := !inUse;
      if moved {
        SetBit(memoryMap, location, flags);
        flags := flags[location := true];
        usedFrames := usedFrames + 1;
      }
    }

    /** The loop of `pmm_reserve_area`: the location moves only past free frames. */
    method ReserveFrames(first: nat, n: nat)
      requires Represents(memoryMap[..], flags) && first + n <= |flags|
      modifies this`usedFrames, this`flags, memoryMap
      ensures Represents(memoryMap[..], flags)
      ensures var m := FreePrefix(old(flags), first, n);
        flags == Marked(old(flags), first, m) && usedFrames == old(usedFrames) + m
    {
      ghost var u := flags;
      ghost var m := FreePrefix(u, first, n);
      var location, numberOfFrames := first, n;
      assert Marked(u, first, 0) == u;
      while numberOfFrames > 0
        invariant 0 <= numberOfFrames <= n && first <= location <= first + m
        invariant location == first + m || location == first + n - numberOfFrames
        invariant location <= first + n - numberOfFrames
        invariant Represents(memoryMap[..], flags) && flags == Marked(u, first, location - first)
        invariant usedFrames == old(usedFrames) + (location - first)
      {
        assert flags[location] == u[location];
        MarkedStep(u, first, location - first);
        var moved := TryReserve(location);
        if moved {
          location := location + 1;
        }
        numberOfFrames := numberOfFrames - 1;
      }
    }
  }

  /** Freeing the address that an allocation returned restores the bitmap and the count, if the frame found
      lies inside memory. */
  method AllocThenFree(a: FrameAllocator) returns (address: nat, ghost frame: int)
    requires a.Valid() && a.usedFrames < a.bitmapSize && FreeInside(a.flags, a.bitmapSize)
    requires a.bitmapSize * a.pageSize <= TWO_64
    modifies a`usedFrames, a`flags, a.memoryMap
    ensures a.Valid() && a.flags == old(a.flags) && a.usedFrames == old(a.usedFrames)
    ensures 0 <= frame < a.bitmapSize && !old(a.flags)[frame] && address == frame * a.pageSize
  {
    ghost var u := a.flags;
    address, frame := AllocInside(a);
    AddressOfFrame(address, frame, a.bitmapSize, a.pageSize);
    if address != 0 {
      FreeAgain(a, address, frame, u);
    }
  }

  method AllocInside(a: FrameAllocator) returns (address: nat, ghost frame: nat)
    requires a.Valid() && a.usedFrames < a.bitmapSize && FreeInside(a.flags, a.bitmapSize)
    modifies a`usedFrames, a`flags, a.memoryMap
    ensures a.Valid() && frame < a.bitmapSize < |old(a.flags)| && !old(a.flags)[frame]
    ensures StartsFrame(address, frame, a.pageSize)
    ensures frame == 0 ==> a.flags == old(a.flags) && a.usedFrames == old(a.usedFrames)
    ensures frame > 0 ==> a.flags == old(a.flags)[frame := true] && a.usedFrames == old(a.usedFrames) + 1
  {
    ghost var found: int;
    address, found := a.AllocFrame();
    frame := found;
  }

  lemma AddressOfFrame(address: nat, frame: nat, bitmapSize: nat, pageSize: nat)
    requires pageSize > 0 && frame < bitmapSize && bitmapSize * pageSize <= TWO_64
    requires StartsFrame(address, frame, pageSize)
    ensures address == frame * pageSize && address / pageSize == frame && (address == 0 <==> frame == 0)
  {
    InsideAddress(frame, bitmapSize, pageSize);
  }

  method FreeAgain(a: FrameAllocator, address: nat, ghost frame: nat, ghost u: Flags)
    requires a.Valid() && frame < |u| && !u[frame] && a.flags == u[frame := true] && address / a.pageSize == frame
    modifies a`usedFrames, a`flags, a.memoryMap
    ensures a.Valid() && a.flags == u && a.usedFrames == old(a.usedFrames) - 1
  {
    CountUpdate(u, frame, true);
    a.FreeFrame(address);
    assert u[frame := true][frame := false] == u;
  }

  lemma InsideAddress(frame: nat, bitmapSize: nat, pageSize: nat)
    requires frame < bitmapSize && bitmapSize * pageSize <= TWO_64 && pageSize > 0
    ensures frame * pageSize + pageSize <= TWO_64
  {
    MulMono(pageSize, frame + 1, bitmapSize);
  }

  // ----- runs -----

  /** A frame in the hands of a caller. */
  datatype Holding = Holding(owner: nat, frame: nat)

  /** The bitmap, the counter, and who holds what. Frames below `boot` belong to the kernel image and
      to the tables made before initialisation. */
  datatype State = State(flags: Flags, used: nat, holdings: seq<Holding>, boot: nat)

  /** One call, with the result of its search. */
  datatype Call =
    | AllocFrame(owner: nat, found: int)
    | AllocArea(owner: nat, n: nat, start: nat)
    | Reserve(location: nat, n: nat)
    | Free(index: nat)

  ghost predicate Enabled(s: State, c: Call) {
    match c
    case AllocFrame(_, found) => |s.flags| % 64 == 0 && FrameFound(s.flags, found) && found >= 0
    case AllocArea(_, n, start) => n > 0 && FreeRun(s.flags, start, n)
    case Reserve(location, n) => location + n <= |s.flags|
    case Free(index) => index < |s.holdings| && s.holdings[index].frame < |s.flags|
  }

  function AreaHoldings(owner: nat, start: nat, n: nat): (h: seq<Holding>)
    ensures |h| == n && forall i :: 0 <= i < n ==> h[i] == Holding(owner, start + i)
  {
    seq(n, i requires 0 <= i => Holding(owner, start + i))
  }

  ghost function Next(s: State, c: Call): State
    requires Enabled(s, c)
  {
    match c
    case AllocFrame(owner, found) =>
      if found == 0 then s
      else s.(flags := s.flags[found := true], used := s.used + 1, holdings := s.holdings + [Holding(owner, found)])
    case AllocArea(owner, n, start) =>
      s.(flags := Marked(s.flags, start, n), used := s.used + n, holdings := s.holdings + AreaHoldings(owner, start, n))
    case Reserve(location, n) =>
      var m := FreePrefix(s.flags, location, n);
      s.(flags := Marked(s.flags, location, m), used := s.used + m)
    case Free(index) =>
      var frame := s.holdings[index].frame;
      s.(flags := s.flags[frame := false], used := if s.used == 0 then 0 else s.used - 1,
         holdings := s.holdings[..index] + s.holdings[index + 1..])
  }

  /** A call leaves these flags and this count. */
  ghost predicate Follows(s: State, c: Call, flags: Flags, used: nat) {
    Enabled(s, c) && Next(s, c).flags == flags && Next(s, c).used == used
  }

  lemma AllocFollows(u: Flags, used: nat, found: int)
    requires |u| % 64 == 0 && FrameFound(u, found) && found >= 0
    ensures Follows(State(u, used, [], 0), Call.AllocFrame(0, found), if found > 0 then u[found := true] else u,
                    used + if found > 0 then 1 else 0)
  {}

  /** Who holds what, and who asks, makes no difference to them. */
  lemma FollowsWhoeverHolds(s: State, c: Call, flags: Flags, used: nat, holdings: seq<Holding>, boot: nat, owner: nat,
                            index: nat)
    requires Follows(s, c, flags, used)
    requires c.Free? ==> index < |holdings| && holdings[index].frame == s.holdings[c.index].frame
    ensures var s1 := State(s.flags, s.used, holdings, boot);
      var c1 := match c
                case AllocFrame(_, found) => Call.AllocFrame(owner, found)
                case AllocArea(_, n, start) => Call.AllocArea(owner, n, start)
                case Reserve(location, n) => c
                case Free(_) => Free(index);
      Follows(s1, c1, flags, used)
  {}

  lemma CountAfter(u: Flags, found: int)
    requires |u| % 64 == 0 && FrameFound(u, found)
    ensures found >= 0 ==> Count(u[found := true]) == Count(u) + 1
  {
    if found >= 0 { CountUpdate(u, found, true); }
  }

  /** The flags after n locations from `location` on have been set, counting in 64 bits. */
  ghost function MarkedFrom(u: Flags, location: nat, n: nat): (r: Flags)
    ensures |r| == |u|
    ensures forall k :: 0 <= k < |u| ==> r[k] == (u[k] || (k + TWO_64 - location % TWO_64) % TWO_64 < n)
  {
    seq(|u|, k requires 0 <= k < |u| => u[k] || (k + TWO_64 - location % TWO_64) % TWO_64 < n)
  }

  lemma MarkedFromNone(u: Flags, location: nat)
    ensures MarkedFrom(u, location, 0) == u
  {}

  /** Location k is the i-th from `location` on. */
  lemma IthLocation(location: nat, i: nat, k: nat)
    requires location < TWO_64 && i < TWO_64 && k < TWO_64
    ensures (k + TWO_64 - location % TWO_64) % TWO_64 == i <==> k == (location + i) % TWO_64
  {}

  lemma MarkedFromStep(u: Flags, location: nat, i: nat)
    requires location < TWO_64 && i < TWO_64 && |u| < TWO_64
    ensures var at, r := (location + i) % TWO_64, MarkedFrom(u, location, i);
      MarkedFrom(u, location, i + 1) == if at < |u| then r[at := true] else r
  {
    var at, r := (location + i) % TWO_64, MarkedFrom(u, location, i);
    var r1, r2 := MarkedFrom(u, location, i + 1), if at < |u| then r[at := true] else r;
    forall k | 0 <= k < |u| ensures r1[k] == r2[k] { IthLocation(location, i, k); }
  }

  /** From a frame on that leaves room for n, n frames are marked; from -1 on, the n - 1 lowest ones. */
  lemma MarkedFromIs(u: Flags, start: int, n: nat)
    requires |u| < TWO_64 && n < TWO_64 && (start >= 0 ==> start + n <= |u|)
    ensures MarkedFrom(u, Unsigned(start), n)
      == if start >= 0 then Marked(u, start, n) else Marked(u, 0, LowMarks(u, n))
  {
  }

  lemma AreaLocation(u: Flags, m: nat, n: nat, start: int)
    requires |u| == 64 * m && m <= 0xFFFF && start == SearchResult(RowsOf(u, m), n)
    ensures start >= -1 && Unsigned(start) < TWO_64 && (start >= 0 ==> n > 0 && start + n <= |u|)
  {
    if n > 0 { BitmapRuns.FoundLeavesRoom(u, m, n); }
  }

  lemma NoWrap(used: nat, n: nat)
    requires used + n < TWO_32
    ensures (used + n) % TWO_32 == used + n
  {}

  /** After an area of n frames has been taken at the result of the search: if the search found something,
      those frames are marked, and the count is right exactly if they were free; if not, the lowest n - 1
      frames are marked and the count is wrong. */
  ghost predicate AreaTaken(s: State, n: nat, start: int, flags: Flags, used: nat) {
    && used == (s.used + n) % TWO_32
    && (start >= 0 ==>
          && start + n <= |s.flags| && flags == Marked(s.flags, start, n)
          && (used == Count(flags) <==> FreeRun(s.flags, start, n))
          && (FreeRun(s.flags, start, n) ==> Follows(s, Call.AllocArea(0, n, start), flags, used)))
    && (start < 0 ==> flags == Marked(s.flags, 0, LowMarks(s.flags, n)))
    && (start < 0 && 0 < n < 0x8000_0000 ==> used != Count(flags))
  }

  /** How many frames the loop marks when it starts one location before the first. */
  function LowMarks(u: Flags, n: nat): (m: nat)
    ensures m <= |u|
  {
    if n == 0 then 0 else if n > |u| then |u| else n - 1
  }

  lemma AreaTakenBy(s: State, n: nat, start: int, u1: Flags)
    requires |s.flags| <= 0x40_0000 && s.used == Count(s.flags)
    requires start >= 0 ==> n > 0 && start + n <= |s.flags| && u1 == Marked(s.flags, start, n)
    requires start < 0 ==> u1 == Marked(s.flags, 0, LowMarks(s.flags, n))
    ensures AreaTaken(s, n, start, u1, (s.used + n) % TWO_32)
  {
    if start >= 0 {
      NoWrap(s.used, n);
      CountMarkedIff(s.flags, start, n);
    } else if 0 < n < 0x8000_0000 {
      NoWrap(s.used, n);
      CountMarkedIff(s.flags, 0, LowMarks(s.flags, n));
    }
  }

  /** The counter is the number of frames in use, every frame held is in use and has one holder, and
      the boot frames are in use and held by nobody. */
  ghost predicate Consistent(s: State) {
    && s.used == Count(s.flags)
    && s.boot <= |s.flags|
    && (forall k :: 0 <= k < s.boot ==> s.flags[k])
    && (forall i :: 0 <= i < |s.holdings| ==> s.boot <= s.holdings[i].frame < |s.flags| && s.flags[s.holdings[i].frame])
    && (forall i, j :: 0 <= i < j < |s.holdings| ==> s.holdings[i].frame != s.holdings[j].frame)
  }

  lemma AllocFrameKeepsConsistent(s: State, owner: nat, found: int)
    requires Consistent(s) && Enabled(s, AllocFrame(owner, found))
    ensures Consistent(Next(s, AllocFrame(owner, found)))
  {
    CountUpdate(s.flags, found, true);
  }

  lemma AllocAreaKeepsConsistent(s: State, owner: nat, n: nat, start: nat)
    requires Consistent(s) && Enabled(s, AllocArea(owner, n, start))
    ensures Consistent(Next(s, AllocArea(owner, n, start)))
  {
    var s1 := Next(s, AllocArea(owner, n, start));
    CountMarked(s.flags, start, n);
    forall i | 0 <= i < |s1.holdings|
      ensures s.boot <= s1.holdings[i].frame < |s1.flags| && s1.flags[s1.holdings[i].frame]
    {
      if i >= |s.holdings| {
        assert s1.holdings[i].frame == start + (i - |s.holdings|);
        assert !s.flags[s1.holdings[i].frame];
      }
    }
    forall i, j | 0 <= i < j < |s1.holdings| ensures s1.holdings[i].frame != s1.holdings[j].frame {
      if i < |s.holdings| <= j {
        assert s.flags[s.holdings[i].frame] && !s.flags[s1.holdings[j].frame];
      }
    }
  }

  lemma FreeKeepsConsistent(s: State, index: nat)
    requires Consistent(s) && Enabled(s, Free(index))
    ensures Consistent(Next(s, Free(index)))
  {
    var s1 := Next(s, Free(index));
    var frame := s.holdings[index].frame;
    CountUpdate(s.flags, frame, false);
    var before := j => if j < index then j else j + 1;
    assert forall j :: 0 <= j < |s1.holdings| ==> s1.holdings[j] == s.holdings[before(j)];
  }

  lemma NextKeepsConsistent(s: State, c: Call)
    requires Consistent(s) && Enabled(s, c)
    ensures Consistent(Next(s, c)) && Next(s, c).boot == s.boot && |Next(s, c).flags| == |s.flags|
  {
    match c
    case AllocFrame(owner, found) => AllocFrameKeepsConsistent(s, owner, found);
    case AllocArea(owner, n, start) => AllocAreaKeepsConsistent(s, owner, n, start);
    case Reserve(location, n) => CountMarked(s.flags, location, FreePrefix(s.flags, location, n));
    case Free(index) => FreeKeepsConsistent(s, index);
  }

  ghost predicate EnabledRun(s: State, calls: seq<Call>)
    decreases |calls|
  {
    calls == [] || (Enabled(s, calls[0]) && EnabledRun(Next(s, calls[0]), calls[1..]))
  }

  ghost function Run(s: State, calls: seq<Call>): State
    requires EnabledRun(s, calls)
    decreases |calls|
  {
    if calls == [] then s else Run(Next(s, calls[0]), calls[1..])
  }

  /** Over every run of successful calls the counter equals the number of frames in use and no frame
      has two holders. */
  lemma {:induction false} RunKeepsConsistent(s: State, calls: seq<Call>)
    requires Consistent(s) && EnabledRun(s, calls)
    ensures Consistent(Run(s, calls)) && Run(s, calls).boot == s.boot && |Run(s, calls).flags| == |s.flags|
    decreases |calls|
  {
    if calls != [] {
      NextKeepsConsistent(s, calls[0]);
      RunKeepsConsistent(Next(s, calls[0]), calls[1..]);
    }
  }

  lemma FramesApart(f: nat, g: nat, pageSize: nat)
    requires f < g && pageSize > 0 && g * pageSize < TWO_64
    ensures FrameAddress(f, pageSize) + pageSize <= FrameAddress(g, pageSize)
  {
    MulMono(pageSize, f + 1, g);
    FrameAddressStarts(f, pageSize);
    FrameAddressStarts(g, pageSize);
  }

  /** So the memory at the addresses that two holders were given does not overlap. */
  lemma HoldersApart(s: State, calls: seq<Call>, pageSize: nat, i: nat, j: nat)
    requires Consistent(s) && EnabledRun(s, calls) && 0 < pageSize && |s.flags| * pageSize <= TWO_64
    requires i < |Run(s, calls).holdings| && j < |Run(s, calls).holdings| && i != j
    ensures var hs := Run(s, calls).holdings;
      var a, b := FrameAddress(hs[i].frame, pageSize), FrameAddress(hs[j].frame, pageSize);
      a + pageSize <= b || b + pageSize <= a
  {
    RunKeepsConsistent(s, calls);
    var hs := Run(s, calls).holdings;
    InsideAddress(hs[i].frame, |s.flags|, pageSize);
    InsideAddress(hs[j].frame, |s.flags|, pageSize);
    assert hs[i].frame != hs[j].frame;
    if hs[i].frame < hs[j].frame {
      FramesApart(hs[i].frame, hs[j].frame, pageSize);
    } else {
      FramesApart(hs[j].frame, hs[i].frame, pageSize);
    }
  }

  /** A frame that the allocator hands out is held by nobody and is not a boot frame. */
  lemma AllocReturnsFreshFrame(s: State, owner: nat, found: int)
    requires Consistent(s) && Enabled(s, AllocFrame(owner, found))
    ensures found >= s.boot
    ensures forall i :: 0 <= i < |s.holdings| ==> s.holdings[i].frame != found
  {
  }

  /** A frame below the size of the bitmap is free and lies in a row that the search looks into. */
  ghost predicate FreeInside(u: Flags, bitmapSize: nat)
    requires |u| % 64 == 0
  {
    exists k :: 0 <= k < bitmapSize && k < |u| && !u[k] && Visible(u, k)
  }

  /** The search finds a frame inside physical memory exactly if there is one in a row that is not taken
      for full; whether the availability test passes makes no difference. */
  lemma FoundInsideIff(u: Flags, bitmapSize: nat, found: int)
    requires |u| % 64 == 0 && FrameFound(u, found)
    ensures 0 <= found < bitmapSize <==> FreeInside(u, bitmapSize)
  {
  }

  /** As long as no row is taken for full, the availability test guarantees a frame inside physical
      memory: the search neither fails nor strays into the padding of the last row. */
  lemma AvailableFrameExists(flags: Flags, used: nat, bitmapSize: nat, found: int)
    requires |flags| % 64 == 0 && used == Count(flags) && used < bitmapSize <= |flags|
    requires FrameFound(flags, found)
    requires forall k :: 0 <= k < |flags| ==> Visible(flags, k)
    ensures 0 <= found < bitmapSize
  {
    var k := PigeonHole(flags, bitmapSize);
  }

  // ----- the change of phases -----

  /** The state right after `pmm_setup` when the pointer has reached `end`. */
  ghost function AfterSetup(end: nat, pageSize: nat, size: nat): State
    requires pageSize > 0
  {
    var entries := KernelEntries(end + pageSize, pageSize);
    State(FirstUsed(entries, size), entries, [], entries)
  }

  /** A page table frame issued before initialisation is never handed out afterwards: in every run
      from the initial bitmap, a frame that the allocator finds lies above all of it. */
  lemma BootFrameNeverReissued(end: nat, pageSize: nat, size: nat, calls: seq<Call>, issued: nat, owner: nat,
                               found: int)
    requires pageSize > 0 && KernelEntries(end + pageSize, pageSize) <= size && issued + PAGE_DIR_SIZE <= end
    requires EnabledRun(AfterSetup(end, pageSize, size), calls)
    requires Enabled(Run(AfterSetup(end, pageSize, size), calls), AllocFrame(owner, found))
    ensures issued + PAGE_DIR_SIZE <= found * pageSize
    ensures found * pageSize < TWO_64 ==> issued + PAGE_DIR_SIZE <= FrameAddress(found, pageSize)
  {
    var s := AfterSetup(end, pageSize, size);
    CountOfPrefix(s.flags, s.boot);
    RunKeepsConsistent(s, calls);
    AllocReturnsFreshFrame(Run(s, calls), owner, found);
    FrameAbove(pageSize, s.boot, found, issued + PAGE_DIR_SIZE);
    FrameAddressStarts(found, pageSize);
  }

  /** The frame of an address is below frame n exactly if the address is. */
  lemma FrameBelowIff(address: nat, pageSize: nat, n: nat)
    requires pageSize > 0
    ensures address / pageSize < n <==> address < pageSize * n
  {
    var q, r := address / pageSize, address % pageSize;
    assert address == pageSize * q + r;
    if q < n {
      MulMono(pageSize, q + 1, n);
      assert pageSize * (q + 1) == pageSize * q + pageSize;
    } else {
      MulMono(pageSize, n, q);
    }
  }

  lemma FrameAbove(pageSize: nat, entries: nat, found: nat, address: nat)
    requires address <= entries * pageSize && entries <= found
    ensures address <= found * pageSize
  {
    MulMono(pageSize, entries, found);
  }

  lemma AreaStartsAbove(s: State, owner: nat, n: nat, start: nat)
    requires Consistent(s) && Enabled(s, AllocArea(owner, n, start))
    ensures start >= s.boot
  {
    assert !s.flags[start];
  }

  /** So does an area that the allocator finds. */
  lemma BootFrameNotInArea(end: nat, pageSize: nat, size: nat, calls: seq<Call>, issued: nat, owner: nat, n: nat,
                           start: nat)
    requires pageSize > 0 && KernelEntries(end + pageSize, pageSize) <= size && issued + PAGE_DIR_SIZE <= end
    requires EnabledRun(AfterSetup(end, pageSize, size), calls)
    requires Enabled(Run(AfterSetup(end, pageSize, size), calls), AllocArea(owner, n, start))
    ensures issued + PAGE_DIR_SIZE <= start * pageSize
    ensures start * pageSize < TWO_64 ==> issued + PAGE_DIR_SIZE <= FrameAddress(start, pageSize)
  {
    var s := AfterSetup(end, pageSize, size);
    CountOfPrefix(s.flags, s.boot);
    RunKeepsConsistent(s, calls);
    AreaStartsAbove(Run(s, calls), owner, n, start);
    FrameAbove(pageSize, s.boot, start, issued + PAGE_DIR_SIZE);
    FrameAddressStarts(start, pageSize);
  }

  /** The call that is to reserve the bitmap itself starts at address 0, because the variable that holds
      the address of the bitmap is hidden by a local one; it reserves nothing. */
  lemma BitmapNotReserved(s: State, n: nat)
    requires JustSetUp(s) && n <= |s.flags|
    ensures Next(s, Reserve(0, n)) == s
  {
    NothingReserved(s.flags, n, s.boot);
  }

  /** So the bytes of the bitmap are in frames in use exactly if they end within the boot frames. */
  lemma BitmapInUseIff(s: State, pageSize: nat, base: nat, bytes: nat, first: nat, last: nat)
    requires JustSetUp(s) && pageSize > 0 && bytes > 0
    requires first == base / pageSize && last == (base + bytes - 1) / pageSize && last < |s.flags|
    ensures AllUsed(s.flags, first, last + 1) <==> base + bytes <= s.boot * pageSize
  {
    LastFrame(pageSize, base, bytes, s.boot);
    PrefixAllUsedIff(s.flags, s.boot, first, last);
  }

  /** Exactly the boot frames are in use. */
  ghost predicate JustSetUp(s: State) {
    0 < s.boot <= |s.flags| && forall k :: 0 <= k < |s.flags| ==> s.flags[k] == (k < s.boot)
  }

  lemma AfterSetupIsJustSetUp(end: nat, pageSize: nat, size: nat)
    requires pageSize > 0 && KernelEntries(end + pageSize, pageSize) <= size
    ensures JustSetUp(AfterSetup(end, pageSize, size))
  {}

  lemma NothingReserved(u: Flags, n: nat, boot: nat)
    requires n <= |u| && boot > 0 && forall k :: 0 <= k < |u| ==> u[k] == (k < boot)
    ensures FreePrefix(u, 0, n) == 0 && Marked(u, 0, 0) == u
  {}

  lemma PrefixAllUsedIff(u: Flags, boot: nat, first: nat, last: nat)
    requires first <= last < |u| && forall k :: 0 <= k < |u| ==> u[k] == (k < boot)
    ensures AllUsed(u, first, last + 1) <==> last < boot
  {
    if AllUsed(u, first, last + 1) { assert u[last]; }
  }

  lemma LastFrame(pageSize: nat, base: nat, bytes: nat, boot: nat)
    requires pageSize > 0 && bytes > 0
    ensures (base + bytes - 1) / pageSize < boot <==> base + bytes <= boot * pageSize
    ensures base / pageSize <= (base + bytes - 1) / pageSize
  {
    FrameBelowIff(base + bytes - 1, pageSize, boot);
    var q := (base + bytes - 1) / pageSize;
    FrameBelowIff(base + bytes - 1, pageSize, q + 1);
    FrameBelowIff(base, pageSize, q + 1);
  }
}
