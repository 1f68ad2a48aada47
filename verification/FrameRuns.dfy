/** Runs of single-frame allocations from set-up: which frames they reach, and when they leave memory. */
module FrameRuns {
  import opened Bits
  import opened Bitmap
  import opened Pmm

  // ----- frames that are never reached -----

  /** The first row of which single allocations leave the four highest frames free. */
  function FirstHoleRow(boot: nat): nat { boot / 64 + if boot % 64 > 60 then 1 else 0 }

  /** Frame k is never reached: once the 60 low frames of its row are in use the row is taken for full. */
  predicate Hole(boot: nat, k: nat) { k % 64 >= 60 && k / 64 >= FirstHoleRow(boot) }

  /** How many frames below p are never reached. */
  function Holes(boot: nat, p: nat): (n: nat)
    ensures n <= p
  {
    if p == 0 then 0 else Holes(boot, p - 1) + if Hole(boot, p - 1) then 1 else 0
  }

  /** The first frame that is never reached. */
  function FirstHole(boot: nat): (k: nat)
    ensures boot <= k
  {
    64 * FirstHoleRow(boot) + 60
  }

  lemma BelowFirstHole(boot: nat, k: nat)
    ensures k < FirstHole(boot) ==> !Hole(boot, k)
    ensures Hole(boot, FirstHole(boot))
  {}

  lemma {:induction false} HolesMono(boot: nat, p: nat, q: nat)
    requires p <= q
    ensures Holes(boot, p) <= Holes(boot, q) <= Holes(boot, p) + (q - p)
    decreases q
  {
    if p < q { HolesMono(boot, p, q - 1); }
  }

  lemma {:induction false} NoHolesBelow(boot: nat, p: nat)
    requires p <= FirstHole(boot)
    ensures Holes(boot, p) == 0
    decreases p
  {
    if p > 0 {
      NoHolesBelow(boot, p - 1);
      BelowFirstHole(boot, p - 1);
    }
  }

  lemma HolesIff(boot: nat, p: nat)
    ensures Holes(boot, p) == 0 <==> p <= FirstHole(boot)
  {
    if p <= FirstHole(boot) {
      NoHolesBelow(boot, p);
    } else {
      BelowFirstHole(boot, 0);
      HolesMono(boot, FirstHole(boot) + 1, p);
    }
  }

  lemma {:induction false} HolesInRow(boot: nat, i: nat, c: nat)
    requires c <= 64
    ensures Holes(boot, 64 * i + c) == Holes(boot, 64 * i) + if i >= FirstHoleRow(boot) && c > 60 then c - 60 else 0
    decreases c
  {
    if c > 0 {
      HolesInRow(boot, i, c - 1);
      assert (64 * i + (c - 1)) / 64 == i && (64 * i + (c - 1)) % 64 == c - 1;
    }
  }

  /** Single allocations leave four frames of every row free that set-up has not filled beyond them. */
  lemma {:induction false} FourHolesInEachRow(boot: nat, m: nat)
    requires m >= FirstHoleRow(boot)
    ensures Holes(boot, 64 * m) == 4 * (m - FirstHoleRow(boot))
    decreases m
  {
    if m == FirstHoleRow(boot) {
      NoHolesBelow(boot, 64 * m);
    } else {
      FourHolesInEachRow(boot, m - 1);
      HolesInRow(boot, m - 1, 64);
    }
  }

  // ----- the sweep -----

  /** The flags when all frames below p that are ever reached are in use. */
  ghost function Swept(boot: nat, size: nat, p: nat): (u: Flags)
    ensures |u| == size && forall k :: 0 <= k < size ==> u[k] == (k < p && !Hole(boot, k))
  {
    seq(size, k requires 0 <= k => k < p && !Hole(boot, k))
  }

  lemma SweptStep(boot: nat, size: nat, p: nat)
    requires p < size
    ensures Swept(boot, size, p + 1) == if Hole(boot, p) then Swept(boot, size, p) else Swept(boot, size, p)[p := true]
  {}

  /** A row that the sweep has passed is taken for full if it has holes. */
  lemma PassedRowIsFull(boot: nat, size: nat, p: nat, k: nat)
    requires size % 64 == 0 && p <= size && k < size && Hole(boot, k) && (k < p || p == size) && 64 * (k / 64) + 60 <= p
    ensures !Visible(Swept(boot, size, p), k)
  {
    var u, i := Swept(boot, size, p), k / 64;
    forall j | 64 * i <= j < 64 * i + 64 ensures u[j] <==> j < 64 * i + 60 {
      assert j / 64 == i && j % 64 == j - 64 * i;
    }
  }

  lemma RowOfNext(boot: nat, size: nat, p: nat)
    requires size % 64 == 0 && boot <= p < size && !Hole(boot, p)
    ensures Visible(Swept(boot, size, p), p)
  {
    var u, i := Swept(boot, size, p), p / 64;
    assert 64 * i <= p < 64 * i + 64 <= size;
    if p % 64 < 60 {
      assert !u[p];
    } else {
      assert i == boot / 64 && (64 * i + 60) / 64 == i;
      assert u[64 * i + 60];
    }
  }

  /** The search finds frame p if that is ever reached. */
  lemma SweepFinds(boot: nat, size: nat, p: nat)
    requires size % 64 == 0 && boot <= p < size && !Hole(boot, p)
    ensures FrameFound(Swept(boot, size, p), p)
  {
    var u := Swept(boot, size, p);
    RowOfNext(boot, size, p);
    forall k | 0 <= k < p ensures u[k] || !Visible(u, k) {
      if Hole(boot, k) {
        assert k / 64 < p / 64;
        PassedRowIsFull(boot, size, p, k);
      }
    }
  }

  /** At the end the search fails. */
  lemma SweepEnds(boot: nat, size: nat)
    requires size % 64 == 0
    ensures FrameFound(Swept(boot, size, size), -1)
  {
    var u := Swept(boot, size, size);
    forall k | 0 <= k < size ensures u[k] || !Visible(u, k) {
      if Hole(boot, k) { PassedRowIsFull(boot, size, size, k); }
    }
  }

  /** The first frame from p on that is ever reached. */
  function NextKept(boot: nat, p: nat): (q: nat)
    ensures p <= q && !Hole(boot, q) && forall k :: p <= k < q ==> Hole(boot, k)
    decreases if Hole(boot, p) then 64 - p % 64 else 0
  {
    if Hole(boot, p) then NextKept(boot, p + 1) else p
  }

  lemma SkipHoles(boot: nat, size: nat, p: nat, q: nat)
    requires p <= q && forall k :: p <= k < q ==> Hole(boot, k)
    ensures Swept(boot, size, q) == Swept(boot, size, p)
  {}

  lemma {:induction false} HolesSkipped(boot: nat, p: nat, q: nat)
    requires p <= q && forall k :: p <= k < q ==> Hole(boot, k)
    ensures q - Holes(boot, q) == p - Holes(boot, p)
    decreases q
  {
    if p < q { HolesSkipped(boot, p, q - 1); }
  }

  lemma FrameFoundUnique(u: Flags, a: int, b: int)
    requires |u| % 64 == 0 && FrameFound(u, a) && FrameFound(u, b)
    ensures a == b
  {}

  /** What the search finds during the sweep. */
  lemma SweptFinds(boot: nat, size: nat, p: nat, found: int)
    requires size % 64 == 0 && boot <= p <= size && FrameFound(Swept(boot, size, p), found)
    ensures found == if NextKept(boot, p) < size then NextKept(boot, p) else -1
  {
    var q := NextKept(boot, p);
    if q < size {
      SkipHoles(boot, size, p, q);
      SweepFinds(boot, size, q);
      FrameFoundUnique(Swept(boot, size, p), found, q);
    } else {
      SkipHoles(boot, size, p, size);
      SweepEnds(boot, size);
      FrameFoundUnique(Swept(boot, size, p), found, -1);
    }
  }

  // ----- runs of single allocations -----

  /** The sweep has reached frame p. */
  ghost predicate At(s: State, p: nat) {
    && |s.flags| % 64 == 0 && 0 < s.boot <= p <= |s.flags|
    && s.flags == Swept(s.boot, |s.flags|, p) && s.used == p - Holes(s.boot, p)
  }

  lemma SetUpIsAt(s: State)
    requires JustSetUp(s) && |s.flags| % 64 == 0 && s.used == s.boot
    ensures At(s, s.boot)
  {
    NoHolesBelow(s.boot, s.boot);
    forall k | 0 <= k < s.boot ensures !Hole(s.boot, k) { BelowFirstHole(s.boot, k); }
    assert s.flags == Swept(s.boot, |s.flags|, s.boot);
  }

  lemma AtStep(s: State, p: nat, owner: nat, found: int)
    requires At(s, p) && Enabled(s, AllocFrame(owner, found))
    ensures found >= p && At(Next(s, AllocFrame(owner, found)), found + 1)
  {
    SweptFinds(s.boot, |s.flags|, p, found);
    SkipHoles(s.boot, |s.flags|, p, found);
    HolesSkipped(s.boot, p, found);
    SweptStep(s.boot, |s.flags|, found);
  }

  ghost predicate SingleRun(s: State, calls: seq<Call>) {
    EnabledRun(s, calls) && forall i :: 0 <= i < |calls| ==> calls[i].AllocFrame?
  }

  /** Every run of single allocations is a sweep. */
  lemma {:induction false} SingleRunSweeps(s: State, p: nat, calls: seq<Call>) returns (q: nat)
    requires At(s, p) && SingleRun(s, calls)
    ensures p <= q && At(Run(s, calls), q) && Run(s, calls).boot == s.boot && |Run(s, calls).flags| == |s.flags|
    decreases |calls|
  {
    if calls == [] {
      q := p;
    } else {
      AtStep(s, p, calls[0].owner, calls[0].found);
      q := SingleRunSweeps(Next(s, calls[0]), calls[0].found + 1, calls[1..]);
    }
  }

  /** The next call takes the frame at the place of the sweep, unless it is one that is never reached. */
  lemma SweepOn(s: State, p: nat)
    requires At(s, p) && p < |s.flags|
    ensures if Hole(s.boot, p) then At(s, p + 1)
      else
        var c := AllocFrame(0, p);
        Enabled(s, c) && At(Next(s, c), p + 1) && Next(s, c).boot == s.boot && |Next(s, c).flags| == |s.flags|
  {
    SweptStep(s.boot, |s.flags|, p);
    if !Hole(s.boot, p) { SweepFinds(s.boot, |s.flags|, p); }
  }

  /** The sweep reaches every place. */
  lemma {:induction false} SweepReaches(s: State, p: nat, q: nat) returns (calls: seq<Call>)
    requires At(s, p) && p <= q <= |s.flags|
    ensures SingleRun(s, calls) && At(Run(s, calls), q)
    ensures Run(s, calls).boot == s.boot && |Run(s, calls).flags| == |s.flags|
    decreases q - p
  {
    if p == q {
      calls := [];
    } else {
      SweepOn(s, p);
      if Hole(s.boot, p) {
        calls := SweepReaches(s, p + 1, q);
      } else {
        var c := AllocFrame(0, p);
        var rest := SweepReaches(Next(s, c), p + 1, q);
        calls := [c] + rest;
        assert calls[1..] == rest;
      }
    }
  }

  // ----- when single allocations leave memory -----

  /** If the availability test passes, there is a frame inside memory for the search to find. */
  ghost predicate StaysInside(s: State, bitmapSize: nat) {
    |s.flags| % 64 == 0 && (s.used < bitmapSize ==> FreeInside(s.flags, bitmapSize))
  }

  lemma AtStaysInside(s: State, p: nat, bitmapSize: nat)
    requires At(s, p) && bitmapSize <= FirstHole(s.boot) && bitmapSize <= |s.flags|
    ensures StaysInside(s, bitmapSize)
  {
    if s.used < bitmapSize {
      if p > FirstHole(s.boot) {
        HolesMono(s.boot, FirstHole(s.boot), p);
        NoHolesBelow(s.boot, FirstHole(s.boot));
      } else {
        NoHolesBelow(s.boot, p);
        BelowFirstHole(s.boot, p);
        SweepFinds(s.boot, |s.flags|, p);
      }
    }
  }

  /** When the sweep has reached the end of memory and has left a hole, the test passes and the search finds
      the next frame beyond memory, or none. */
  lemma AtLeaves(s: State, bitmapSize: nat, found: int)
    requires At(s, bitmapSize) && bitmapSize > FirstHole(s.boot) && FrameFound(s.flags, found)
    ensures s.used < bitmapSize && !(0 <= found < bitmapSize) && !FreeInside(s.flags, bitmapSize)
  {
    HolesIff(s.boot, bitmapSize);
    SweptFinds(s.boot, |s.flags|, bitmapSize, found);
    FoundInsideIff(s.flags, bitmapSize, found);
  }

  lemma SearchAnswers(s: State, p: nat) returns (found: int)
    requires At(s, p)
    ensures FrameFound(s.flags, found)
  {
    var q := NextKept(s.boot, p);
    if q < |s.flags| {
      SkipHoles(s.boot, |s.flags|, p, q);
      SweepFinds(s.boot, |s.flags|, q);
      found := q;
    } else {
      SkipHoles(s.boot, |s.flags|, p, |s.flags|);
      SweepEnds(s.boot, |s.flags|);
      found := -1;
    }
  }

  /** From set-up, the frames that single allocations hand out while the availability test passes lie inside
      memory, in every such run, exactly if memory ends at or before the first frame that they never
      reach. */
  lemma SingleRunsStayInsideIff(s: State, bitmapSize: nat)
    requires JustSetUp(s) && |s.flags| % 64 == 0 && s.used == s.boot && bitmapSize <= |s.flags|
    ensures (forall calls :: SingleRun(s, calls) ==> StaysInside(Run(s, calls), bitmapSize)) <==>
      bitmapSize <= FirstHole(s.boot)
  {
    SetUpIsAt(s);
    if bitmapSize <= FirstHole(s.boot) {
      forall calls | SingleRun(s, calls) ensures StaysInside(Run(s, calls), bitmapSize) {
        var q := SingleRunSweeps(s, s.boot, calls);
        AtStaysInside(Run(s, calls), q, bitmapSize);
      }
    } else {
      var calls := SweepReaches(s, s.boot, bitmapSize);
      var found := SearchAnswers(Run(s, calls), bitmapSize);
      AtLeaves(Run(s, calls), bitmapSize, found);
      assert !StaysInside(Run(s, calls), bitmapSize);
    }
  }

  /** In this state the counter has this value and the search this result. */
  ghost predicate Finds(s: State, used: int, found: int) {
    |s.flags| % 64 == 0 && s.used == used && FrameFound(s.flags, found)
  }

  /** In every bitmap, a run of single allocations leads to a state in which the search fails; the
      availability test still passes there exactly if memory has more frames than are ever reached. */
  lemma SearchComesToFail(s: State, m: nat) returns (calls: seq<Call>)
    requires JustSetUp(s) && |s.flags| == 64 * m && s.used == s.boot && m >= FirstHoleRow(s.boot)
    ensures SingleRun(s, calls) && Finds(Run(s, calls), 64 * m - 4 * (m - FirstHoleRow(s.boot)), -1)
  {
    SetUpIsAt(s);
    calls := SweepReaches(s, s.boot, 64 * m);
    SweepEnds(s.boot, 64 * m);
    FourHolesInEachRow(s.boot, m);
  }

  lemma LowPart(boot: nat, i: nat, c: nat, p: nat)
    requires FirstHoleRow(boot) < i && c < 60 && p == 64 * i + c
    ensures boot <= p && !Hole(boot, p) && Holes(boot, p) == 4 * (i - FirstHoleRow(boot))
  {
    assert boot <= FirstHole(boot) < p;
    assert p % 64 == c;
    assert Holes(boot, p) == 4 * (i - FirstHoleRow(boot)) by {
      FourHolesInEachRow(boot, i);
      HolesInRow(boot, i, c);
    }
  }

  /** If memory ends in the low part of a row behind the first hole, a run leads to a state in which the test
      passes and the search finds the frame just beyond memory. */
  lemma SearchComesToStray(s: State, i: nat, c: nat, p: nat) returns (calls: seq<Call>)
    requires JustSetUp(s) && |s.flags| % 64 == 0 && s.used == s.boot
    requires FirstHoleRow(s.boot) < i && c < 60 && p == 64 * i + c && p < |s.flags|
    ensures SingleRun(s, calls) && Finds(Run(s, calls), p - 4 * (i - FirstHoleRow(s.boot)), p)
  {
    SetUpIsAt(s);
    LowPart(s.boot, i, c, p);
    calls := SweepReaches(s, s.boot, p);
    SweepFinds(s.boot, |s.flags|, p);
  }

  // ----- two machines -----

  /** 62 frames of 4 KiB: after a run of single allocations 60 of them are in use, the availability test
      passes and the search fails. */
  lemma SmallMachine() returns (calls: seq<Call>)
    ensures var s := AfterSetup(0x8000, 0x1000, 64); SingleRun(s, calls) && Finds(Run(s, calls), 60, -1)
  {
    var s := AfterSetup(0x8000, 0x1000, 64);
    AfterSetupIsJustSetUp(0x8000, 0x1000, 64);
    assert s.boot == 10;
    calls := SearchComesToFail(s, 1);
  }

  /** 65 frames of 2 MiB: after a run of single allocations 61 of them are in use, the availability test
      passes and the search finds frame 65, beyond memory. */
  lemma LargeMachine() returns (calls: seq<Call>)
    ensures var s := AfterSetup(0x20_0000, 0x20_0000, 128); SingleRun(s, calls) && Finds(Run(s, calls), 61, 65)
  {
    var s := AfterSetup(0x20_0000, 0x20_0000, 128);
    AfterSetupIsJustSetUp(0x20_0000, 0x20_0000, 128);
    assert s.boot == 3;
    calls := SearchComesToStray(s, 1, 1, 65);
  }

  // ----- the bitmap itself -----

  /** If the bitmap begins within the boot frames and ends behind them, the first frame that is handed out
      lies in the bitmap. */
  lemma FirstFrameInBitmap(s: State, pageSize: nat, base: nat, bytes: nat, found: int)
    requires JustSetUp(s) && |s.flags| % 64 == 0 && s.used == s.boot < |s.flags| && s.boot % 64 != 60
    requires base <= s.boot * pageSize < base + bytes && FrameFound(s.flags, found)
    ensures found == s.boot && base <= found * pageSize < base + bytes
  {
    SetUpIsAt(s);
    SweptFinds(s.boot, |s.flags|, s.boot, found);
  }

  lemma BootEntries(e: nat)
    ensures KernelEntries(0x1000 * e + 0x1000, 0x1000) == e + 2
  {
    DivUnique(0x1000 * e + 0x1000, 0x1000, e + 1, 0);
  }

  /** From 32768 frames of 4 KiB on, the bitmap, placed right behind the boot area of e frames, ends behind
      the boot frames, and the first frame handed out is its second one. */
  lemma BitmapHandedOut(s: State, e: nat, bitmapSize: nat, m: nat, base: nat, bytes: nat, found: int)
    requires bitmapSize >= 32768 && m == bitmapSize / 64 + 1 && e + 2 < 64 * m && (e + 2) % 64 != 60
    requires s == AfterSetup(0x1000 * e, 0x1000, 64 * m)
    requires base == 0x1000 * e + 0x1000 && bytes == bitmapSize / 8 + 1 && FrameFound(s.flags, found)
    ensures JustSetUp(s) && base + bytes > s.boot * 0x1000
    ensures found == e + 2 && found * 0x1000 == base + 0x1000 < base + bytes
  {
    BootEntries(e);
    AfterSetupIsJustSetUp(0x1000 * e, 0x1000, 64 * m);
    FirstFrameInBitmap(s, 0x1000, base, bytes, found);
  }
}
