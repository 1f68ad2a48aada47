/** The frame bitmap: an array of 64-bit rows holding one bit for each physical frame. */
module Bitmap {
  import opened Bits

  /** One flag for each frame; true means in use. */
  type Flags = seq<bool>

  /** `BITMAP_ENTRY_FULL` has fifteen hexadecimal digits: its four highest bits are clear. */
  const ENTRY_FULL: nat := 0x0fff_ffff_ffff_ffff

  // ----- rows and flags -----

  ghost predicate RowShows(row: nat, u: Flags, i: nat, c: nat)
    requires 64 * i + c < |u|
  {
    Bit(row, c) == u[64 * i + c]
  }

  /** The rows are words of 64 bits and their bits are the flags. */
  ghost predicate Represents(rows: seq<nat>, u: Flags) {
    && |u| == 64 * |rows|
    && (forall i :: 0 <= i < |rows| ==> rows[i] < TWO_64)
    && (forall i, c :: 0 <= i < |rows| && 0 <= c < 64 ==> RowShows(rows[i], u, i, c))
  }

  /** Row i holds exactly the pattern that the searches take for full. */
  ghost predicate FullRow(u: Flags, i: nat)
    requires 64 * i + 64 <= |u|
  {
    forall k :: 64 * i <= k < 64 * i + 64 ==> (u[k] <==> k < 64 * i + 60)
  }

  lemma Pow2At60()
    ensures Pow2(60) == 0x1000_0000_0000_0000 && Pow2(64) == TWO_64
  {
    Pow2At12();
    Pow2Add(12, 12);
    Pow2Add(24, 24);
    Pow2Add(48, 12);
    Pow2Add(60, 4);
  }

  lemma {:induction false} Pow2Add(a: nat, b: nat)
    ensures Pow2(a + b) == Pow2(a) * Pow2(b)
    decreases b
  {
    if b > 0 { Pow2Add(a, b - 1); }
  }

  lemma {:induction false} Pow2Less(a: nat, b: nat)
    requires a < b
    ensures Pow2(a) < Pow2(b)
    decreases b
  {
    if a < b - 1 { Pow2Less(a, b - 1); }
  }

  lemma EntryFullIsPattern(rows: seq<nat>, u: Flags, i: nat)
    requires Represents(rows, u) && i < |rows|
    ensures rows[i] == ENTRY_FULL <==> FullRow(u, i)
  {
    Pow2At60();
    if rows[i] == ENTRY_FULL {
      forall k | 64 * i <= k < 64 * i + 64 ensures u[k] <==> k < 64 * i + 60 {
        assert RowShows(rows[i], u, i, k - 64 * i);
        LowMaskBit(60, k - 64 * i);
      }
    } else if FullRow(u, i) {
      forall c | 0 <= c < 64 ensures Bit(rows[i], c) <==> Bit(Pow2(60) - 1, c) {
        assert RowShows(rows[i], u, i, c);
        assert u[64 * i + c] <==> 64 * i + c < 64 * i + 60;
        LowMaskBit(60, c);
      }
      SameBits(rows[i], Pow2(60) - 1, 64);
    }
  }

  /** `_bitmap_set_bit`. */
  method SetBit(memoryMap: array<nat>, location: nat, ghost u: Flags)
    requires Represents(memoryMap[..], u) && location < |u|
    modifies memoryMap
    ensures Represents(memoryMap[..], u[location := true])
  {
    ghost var rows := memoryMap[..];
    var row, column := location / 64, location % 64;
    memoryMap[row] := Or(memoryMap[row], Pow2(column));
    UpdateRow(rows, u, row, column, memoryMap[row], true) by {
      Pow2At60();
      Pow2Less(column, 64);
      OrBound(rows[row], Pow2(column), 64);
      forall c | 0 <= c < 64 ensures Bit(memoryMap[row], c) <==> if c == column then true else Bit(rows[row], c) {
        OrBit(rows[row], Pow2(column), c);
        Pow2Bit(column, c);
      }
    }
    assert memoryMap[..] == rows[row := memoryMap[row]];
  }

  /** `_bitmap_free_bit`. */
  method FreeBit(memoryMap: array<nat>, location: nat, ghost u: Flags)
    requires Represents(memoryMap[..], u) && location < |u|
    modifies memoryMap
    ensures Represents(memoryMap[..], u[location := false])
  {
    ghost var rows := memoryMap[..];
    var row, column := location / 64, location % 64;
    memoryMap[row] := AndNot(memoryMap[row], Pow2(column));
    UpdateRow(rows, u, row, column, memoryMap[row], false) by {
      forall c | 0 <= c < 64 ensures Bit(memoryMap[row], c) <==> if c == column then false else Bit(rows[row], c) {
        AndNotBit(rows[row], Pow2(column), c);
        Pow2Bit(column, c);
      }
    }
    assert memoryMap[..] == rows[row := memoryMap[row]];
  }

  /** A row that changed in one bit represents the flags that changed in that place. */
  lemma UpdateRow(rows: seq<nat>, u: Flags, row: nat, column: nat, word: nat, b: bool)
    requires Represents(rows, u) && row < |rows| && column < 64 && word < TWO_64
    requires forall c :: 0 <= c < 64 ==> (Bit(word, c) <==> if c == column then b else Bit(rows[row], c))
    ensures Represents(rows[row := word], u[64 * row + column := b])
  {
    var rows1: seq<nat> := rows[row := word];
    var u1 := u[64 * row + column := b];
    forall i, c | 0 <= i < |rows1| && 0 <= c < 64 ensures RowShows(rows1[i], u1, i, c) {
      assert RowShows(rows[i], u, i, c);
      if i != row { assert 64 * i + c != 64 * row + column; }
    }
  }

  /** `_bitmap_test_bit`. */
  method TestBit(memoryMap: array<nat>, location: nat, ghost u: Flags) returns (inUse: bool)
    requires Represents(memoryMap[..], u) && location < |u|
    ensures inUse == u[location]
  {
    var row, column := location / 64, location % 64;
    inUse := Bit(memoryMap[row], column);
    assert RowShows(memoryMap[..][row], u, row, column);
  }

  // ----- counting -----

  /** The number of frames in use. */
  function Count(u: Flags): (c: nat)
    ensures c <= |u|
  {
    if u == [] then 0 else Count(u[..|u| - 1]) + if u[|u| - 1] then 1 else 0
  }

  lemma {:induction false} CountUpdate(u: Flags, k: nat, b: bool)
    requires k < |u|
    ensures Count(u[k := b]) == Count(u) + (if b then 1 else 0) - (if u[k] then 1 else 0)
    decreases |u|
  {
    var n := |u| - 1;
    if k < n {
      CountUpdate(u[..n], k, b);
      assert u[k := b][..n] == u[..n][k := b];
    } else {
      assert u[k := b][..n] == u[..n];
    }
  }

  lemma {:induction false} CountOfPrefix(u: Flags, n: nat)
    requires forall k :: 0 <= k < |u| ==> (u[k] <==> k < n)
    ensures Count(u) == if |u| <= n then |u| else n
    decreases |u|
  {
    if u != [] {
      CountOfPrefix(u[..|u| - 1], n);
    }
  }

  /** Fewer frames in use than there are among the first n leave one of those free. */
  lemma {:induction false} PigeonHole(u: Flags, n: nat) returns (k: nat)
    requires n <= |u| && Count(u) < n
    ensures k < n && !u[k]
    decreases |u|
  {
    var last := |u| - 1;
    if !u[last] && last < n {
      k := last;
    } else if n == |u| {
      k := PigeonHole(u[..last], n - 1);
    } else {
      k := PigeonHole(u[..last], n);
    }
  }

  // ----- what the searches find -----

  /** Frame k lies in a row that the searches look into. */
  ghost predicate Visible(u: Flags, k: nat)
    requires k < |u| && |u| % 64 == 0
  {
    !FullRow(u, k / 64)
  }

  /** The lowest free frame; -1 if all are in use. */
  ghost predicate IsLowestFree(u: Flags, r: int) {
    -1 <= r < |u| && (r >= 0 ==> !u[r]) && forall k :: 0 <= k < (if r >= 0 then r else |u|) ==> u[k]
  }

  /** The lowest free frame in a row that is not skipped; -1 if there is none. */
  ghost predicate FrameFound(u: Flags, r: int)
    requires |u| % 64 == 0
  {
    && -1 <= r < |u| && (r >= 0 ==> !u[r] && Visible(u, r))
    && forall k :: 0 <= k < (if r >= 0 then r else |u|) ==> u[k] || !Visible(u, k)
  }

  /** The single-frame search returns the lowest free frame, or reports that there is none, exactly
      if the row of the lowest free frame is not the pattern it takes for full. */
  lemma RequestFrameCorrectIff(u: Flags, found: int, lowest: int)
    requires |u| % 64 == 0 && FrameFound(u, found) && IsLowestFree(u, lowest)
    ensures found == lowest <==> lowest == -1 || Visible(u, lowest)
  {
  }

  /** With the 60 low frames of the only row in use the lowest free frame is frame 60, and the search reports
      that there is none. */
  lemma RequestFrameMisses(u: Flags)
    requires |u| == 64 && forall k :: 0 <= k < 64 ==> u[k] == (k < 60)
    ensures FrameFound(u, -1) && IsLowestFree(u, 60)
  {
    assert FullRow(u, 0);
  }

  /** n consecutive free frames start at frame a. */
  ghost predicate FreeRun(u: Flags, a: nat, n: nat) {
    a + n <= |u| && forall k :: a <= k < a + n ==> !u[k]
  }

  /** The lowest start of n consecutive free frames is a. */
  ghost predicate LowestRun(u: Flags, a: nat, n: nat) {
    FreeRun(u, a, n) && forall b: nat :: b < a ==> !FreeRun(u, b, n)
  }

  ghost predicate NoRun(u: Flags, n: nat) {
    forall a: nat :: !FreeRun(u, a, n)
  }

  /** A bitmap cut into rows of 64 flags. */
  type Row = seq<bool>

  ghost function RowsOf(u: Flags, m: nat): seq<Row>
    requires |u| == 64 * m
  {
    seq(m, i requires 0 <= i < m => u[64 * i..64 * i + 64])
  }

  /** The pattern that the searches take for full. */
  function FullPattern(): Row { seq(64, c => c < 60) }

  /** The flags of the first m rows, with the skipped rows cut out. */
  ghost function Kept(rs: seq<Row>, m: nat): Flags
    requires m <= |rs|
  {
    if m == 0 then [] else Kept(rs, m - 1) + if rs[m - 1] == FullPattern() then [] else rs[m - 1]
  }

  /** The frame numbers of the flags that are kept. */
  ghost function KeptFrames(rs: seq<Row>, m: nat): seq<nat>
    requires m <= |rs|
  {
    if m == 0 then [] else KeptFrames(rs, m - 1) + if rs[m - 1] == FullPattern() then [] else RowFrames(m - 1)
  }

  function RowFrames(i: nat): (g: seq<nat>)
    ensures |g| == 64
  {
    seq(64, c requires 0 <= c => 64 * i + c)
  }

  ghost predicate RowSizes(rs: seq<Row>) {
    forall i :: 0 <= i < |rs| ==> |rs[i]| == 64
  }

  lemma {:induction false} KeptSizes(rs: seq<Row>, m: nat)
    requires RowSizes(rs) && m <= |rs|
    ensures |Kept(rs, m)| == |KeptFrames(rs, m)|
    decreases m
  {
    if m > 0 { KeptSizes(rs, m - 1); }
  }

  /** The lowest run of n free flags at a or above; -1 if there is none. */
  ghost function FirstRun(f: Flags, n: nat, a: nat): int
    decreases |f| - a
  {
    if a + n > |f| || a > |f| then -1 else if FreeRun(f, a, n) then a else FirstRun(f, n, a + 1)
  }

  lemma {:induction false} FirstRunIsLowest(f: Flags, n: nat, a: nat, b: nat)
    requires a <= b && FreeRun(f, b, n) && forall c: nat :: a <= c < b ==> !FreeRun(f, c, n)
    ensures FirstRun(f, n, a) == b
    decreases b - a
  {
    if a < b {
      assert !FreeRun(f, a, n);
      FirstRunIsLowest(f, n, a + 1, b);
    }
  }

  lemma {:induction false} FirstRunOfNone(f: Flags, n: nat, a: nat)
    requires NoRun(f, n)
    ensures FirstRun(f, n, a) == -1
    decreases |f| - a
  {
    if a + n <= |f| { FirstRunOfNone(f, n, a + 1); }
  }

  /** The result of the search for n frames: the frame at the lowest run of n free flags among those
      that are kept. */
  ghost function SearchResult(rs: seq<Row>, n: nat): int {
    var a := FirstRun(Kept(rs, |rs|), n, 0);
    if n == 0 || a < 0 || a >= |KeptFrames(rs, |rs|)| then -1 else KeptFrames(rs, |rs|)[a]
  }

  ghost predicate NoFullRow(rs: seq<Row>) {
    forall i :: 0 <= i < |rs| ==> rs[i] != FullPattern()
  }

  lemma {:induction false} KeptIsEverything(u: Flags, m: nat, k: nat)
    requires |u| == 64 * m && NoFullRow(RowsOf(u, m)) && k <= m
    ensures Kept(RowsOf(u, m), k) == u[..64 * k]
    ensures |KeptFrames(RowsOf(u, m), k)| == 64 * k
    ensures forall t :: 0 <= t < 64 * k ==> KeptFrames(RowsOf(u, m), k)[t] == t
    decreases k
  {
    if k > 0 {
      KeptIsEverything(u, m, k - 1);
      assert u[..64 * k] == u[..64 * (k - 1)] + u[64 * (k - 1)..64 * k];
    }
  }

  /** In a bitmap without a row that is taken for full, the search returns the lowest start of n
      consecutive free frames, across rows, and -1 exactly if there is no such run. */
  lemma SearchResultIsLowestRun(u: Flags, m: nat, n: nat, r: int)
    requires |u| == 64 * m && NoFullRow(RowsOf(u, m)) && n > 0 && r == SearchResult(RowsOf(u, m), n)
    ensures r == -1 <==> NoRun(u, n)
    ensures r != -1 ==> r >= 0 && LowestRun(u, r, n)
  {
    KeptIsEverything(u, m, m);
    assert u[..64 * m] == u;
    if a: nat :| LowestRun(u, a, n) {
      FirstRunIsLowest(u, n, 0, a);
    } else {
      LowestRunExists(u, n);
      FirstRunOfNone(u, n, 0);
    }
  }

  lemma LowestRunExists(u: Flags, n: nat)
    requires forall a: nat :: !LowestRun(u, a, n)
    ensures NoRun(u, n)
  {
    if a: nat :| FreeRun(u, a, n) {
      var _ := LowestRunBelow(u, n, a);
    }
  }

  lemma {:induction false} LowestRunBelow(u: Flags, n: nat, a: nat) returns (b: nat)
    requires FreeRun(u, a, n)
    ensures LowestRun(u, b, n)
    decreases a
  {
    if c: nat :| c < a && FreeRun(u, c, n) {
      b := LowestRunBelow(u, n, c);
    } else {
      b := a;
    }
  }

  /** With a row that is taken for full, the run returned need not be free: here its two frames lie
      on both sides of a skipped row, whose first frame is in use. */
  lemma SkippedRowBreaksRuns(first: Row, last: Row)
    requires |first| == 64 && |last| == 64 && !last[0] && forall c :: 0 <= c < 64 ==> (first[c] <==> c < 63)
    ensures SearchResult([first, FullPattern(), last], 2) == 63
    ensures !FreeRun(first + FullPattern() + last, 63, 2)
  {
    var rs := [first, FullPattern(), last];
    assert first[60] && !FullPattern()[60] && FullPattern()[0];
    assert Kept(rs, 0) == [] && KeptFrames(rs, 0) == [];
    assert Kept(rs, 1) == first && KeptFrames(rs, 1) == RowFrames(0);
    assert Kept(rs, 2) == first && KeptFrames(rs, 2) == RowFrames(0);
    var f, g := Kept(rs, 3), KeptFrames(rs, 3);
    assert f == first + last && g == RowFrames(0) + RowFrames(2);
    forall b: nat | b < 63 ensures !FreeRun(f, b, 2) { assert f[b]; }
    FirstRunIsLowest(f, 2, 0, 63);
    assert g[63] == 63;
    assert (first + FullPattern() + last)[64];
  }

  // ----- the searches -----

  /** No frame below k is free and in a row that is not skipped. */
  ghost predicate NoneBelow(u: Flags, k: nat)
    requires |u| % 64 == 0 && k <= |u|
  {
    forall j :: 0 <= j < k ==> u[j] || !Visible(u, j)
  }

  lemma NoneInSkippedRow(u: Flags, row: nat)
    requires |u| % 64 == 0 && 64 * row + 64 <= |u| && FullRow(u, row) && NoneBelow(u, 64 * row)
    ensures NoneBelow(u, 64 * row + 64)
  {
    forall j | 64 * row <= j < 64 * row + 64 ensures !Visible(u, j) {
      assert j / 64 == row;
    }
  }

  lemma FoundInRow(u: Flags, row: nat, column: nat)
    requires |u| % 64 == 0 && 64 * row + 64 <= |u| && !FullRow(u, row) && column < 64
    requires NoneBelow(u, 64 * row + column) && !u[64 * row + column]
    ensures FrameFound(u, row * 64 + column)
  {
    assert (64 * row + column) / 64 == row;
  }

  /** `_bitmap_request_frame`; its row counter is 16 bits wide. */
  method RequestFrame(memoryMap: array<nat>, ghost u: Flags) returns (r: int)
    requires Represents(memoryMap[..], u) && memoryMap.Length <= 0xFFFF
    ensures FrameFound(u, r)
  {
    var row := 0;
    while row < memoryMap.Length
      invariant 0 <= row <= memoryMap.Length
      invariant NoneBelow(u, 64 * row)
    {
      EntryFullIsPattern(memoryMap[..], u, row);
      if memoryMap[row] != ENTRY_FULL {
        var column := 0;
        while column < 64
          invariant 0 <= column <= 64
          invariant NoneBelow(u, 64 * row + column)
        {
          assert RowShows(memoryMap[..][row], u, row, column);
          if !Bit(memoryMap[row], column) {
            FoundInRow(u, row, column);
            return row * 64 + column;
          }
          column := column + 1;
        }
      } else {
        NoneInSkippedRow(u, row);
      }
      row := row + 1;
    }
    return -1;
  }

  /** The flags f end in exactly `adjacents` free ones, fewer than n, and contain no run of n. */
  ghost predicate EndsInRun(f: Flags, n: nat, adjacents: nat) {
    && adjacents <= |f|
    && (forall t :: |f| - adjacents <= t < |f| ==> !f[t])
    && (adjacents < |f| ==> f[|f| - adjacents - 1])
    && (n > 0 ==> adjacents < n && NoRun(f, n))
  }

  lemma FreeRunOfPrefix(f: Flags, whole: Flags, a: nat, n: nat)
    requires f <= whole && a + n <= |f|
    ensures FreeRun(f, a, n) <==> FreeRun(whole, a, n)
  {
    assert forall k :: 0 <= k < |f| ==> f[k] == whole[k];
  }

  lemma RunGrows(f: Flags, n: nat, adjacents: nat)
    requires EndsInRun(f, n, adjacents)
    ensures adjacents + 1 == n ==> LowestRun(f + [false], |f| - adjacents, n)
    ensures adjacents + 1 != n ==> EndsInRun(f + [false], n, adjacents + 1)
  {
    var f1 := f + [false];
    forall a: nat | n > 0 && a + n <= |f| ensures !FreeRun(f1, a, n) {
      FreeRunOfPrefix(f, f1, a, n);
    }
    if adjacents + 1 < n && adjacents < |f| {
      assert f1[|f| - adjacents - 1];
    }
  }

  lemma RunBreaks(f: Flags, n: nat, adjacents: nat)
    requires EndsInRun(f, n, adjacents)
    ensures EndsInRun(f + [true], n, 0)
  {
    var f1 := f + [true];
    assert f1[|f|];
    forall a: nat | n > 0 && a + n <= |f| ensures !FreeRun(f1, a, n) {
      FreeRunOfPrefix(f, f1, a, n);
    }
  }

  /** A lowest run of a prefix is a lowest run of the whole. */
  lemma LowestRunOfPrefix(f: Flags, whole: Flags, a: nat, n: nat)
    requires f <= whole && LowestRun(f, a, n)
    ensures LowestRun(whole, a, n)
  {
    FreeRunOfPrefix(f, whole, a, n);
    forall b: nat | b < a ensures !FreeRun(whole, b, n) {
      FreeRunOfPrefix(f, whole, b, n);
    }
  }

  lemma KeptStep(rs: seq<Row>, row: nat)
    requires row < |rs|
    ensures Kept(rs, row + 1) == if rs[row] == FullPattern() then Kept(rs, row) else Kept(rs, row) + rs[row]
    ensures KeptFrames(rs, row + 1) ==
      if rs[row] == FullPattern() then KeptFrames(rs, row) else KeptFrames(rs, row) + RowFrames(row)
  {
    assert Kept(rs, row) + [] == Kept(rs, row) && KeptFrames(rs, row) + [] == KeptFrames(rs, row);
  }

  lemma {:induction false} KeptIsPrefix(rs: seq<Row>, m: nat, n: nat)
    requires m <= n <= |rs|
    ensures Kept(rs, m) <= Kept(rs, n) && KeptFrames(rs, m) <= KeptFrames(rs, n)
    decreases n
  {
    if m < n { KeptIsPrefix(rs, m, n - 1); }
  }

  /** The rows of the array show the flags of rs. */
  ghost predicate RowsShow(rows: seq<nat>, rs: seq<Row>) {
    && |rows| == |rs| && RowSizes(rs)
    && (forall i, c :: 0 <= i < |rs| && 0 <= c < 64 ==> Bit(rows[i], c) == rs[i][c])
    && (forall i :: 0 <= i < |rs| ==> (rows[i] == ENTRY_FULL <==> rs[i] == FullPattern()))
  }

  lemma RowsOfShow(rows: seq<nat>, u: Flags)
    requires Represents(rows, u)
    ensures RowsShow(rows, RowsOf(u, |rows|))
  {
    var rs := RowsOf(u, |rows|);
    forall i, c | 0 <= i < |rs| && 0 <= c < 64 ensures Bit(rows[i], c) == rs[i][c] {
      assert RowShows(rows[i], u, i, c);
    }
    forall i | 0 <= i < |rs| ensures rows[i] == ENTRY_FULL <==> rs[i] == FullPattern() {
      EntryFullIsPattern(rows, u, i);
      FullRowIsPattern(u, i);
    }
  }

  lemma FullRowIsPattern(u: Flags, i: nat)
    requires 64 * i + 64 <= |u|
    ensures FullRow(u, i) <==> u[64 * i..64 * i + 64] == FullPattern()
  {
    var row := u[64 * i..64 * i + 64];
    if row == FullPattern() {
      forall k | 64 * i <= k < 64 * i + 64 ensures u[k] <==> k < 64 * i + 60 {
        assert u[k] == row[k - 64 * i] == FullPattern()[k - 64 * i];
      }
    }
  }

  /** The counters of the search after it has looked at the flags f of the frames g. */
  ghost predicate Counters(f: Flags, g: seq<nat>, n: nat, adjacents: nat, start: nat) {
    |g| == |f| && EndsInRun(f, n, adjacents) && (adjacents > 0 ==> g[|g| - adjacents] == start)
  }

  /** The search has found its run at the end of f. */
  ghost predicate Completed(f: Flags, g: seq<nat>, n: nat, start: nat) {
    |g| == |f| && 0 < n <= |f| && LowestRun(f, |f| - n, n) && g[|f| - n] == start
  }

  /** The body of the inner loop of `_bitmap_request_frames`; the run so far has `run` frames and
      started at (r0, c0). */
  method ScanBit(memoryMap: array<nat>, row: nat, column: nat, run: nat, r0: nat, c0: nat,
                 ghost rs: seq<Row>, ghost f: Flags, ghost g: seq<nat>, ghost n: nat)
    returns (adjacents: nat, startRow: nat, startColumn: nat)
    requires RowsShow(memoryMap[..], rs) && row < memoryMap.Length && column < 64
    requires Counters(f, g, n, run, r0 * 64 + c0)
    ensures var f1, g1 := f + [rs[row][column]], g + [64 * row + column];
      if adjacents > 0 && adjacents == n then Completed(f1, g1, n, startRow * 64 + startColumn)
      else Counters(f1, g1, n, adjacents, startRow * 64 + startColumn)
  {
    adjacents, startRow, startColumn := run, r0, c0;
    if !Bit(memoryMap[row], column) {
      if adjacents == 0 {
        startRow := row;
        startColumn := column;
      }
      adjacents := adjacents + 1;
      RunGrows(f, n, run);
    } else {
      adjacents := 0;
      RunBreaks(f, n, run);
    }
  }

  /** The inner loop of `_bitmap_request_frames` on one row. */
  method ScanRow(memoryMap: array<nat>, row: nat, numberOfFrames: nat, run: nat, r0: nat, c0: nat,
                 ghost rs: seq<Row>, ghost f: Flags, ghost g: seq<nat>)
    returns (found: bool, adjacents: nat, startRow: nat, startColumn: nat, ghost f1: Flags, ghost g1: seq<nat>)
    requires RowsShow(memoryMap[..], rs) && row < memoryMap.Length
    requires Counters(f, g, numberOfFrames, run, r0 * 64 + c0)
    ensures f1 <= f + rs[row] && g1 <= g + RowFrames(row)
    ensures found ==> Completed(f1, g1, numberOfFrames, startRow * 64 + startColumn)
    ensures !found ==> Counters(f + rs[row], g + RowFrames(row), numberOfFrames, adjacents, startRow * 64 + startColumn)
  {
    found, adjacents, startRow, startColumn, f1, g1 := false, run, r0, c0, f, g;
    var column := 0;
    assert f + rs[row][..0] == f && g + RowFrames(row)[..0] == g;
    while column < 64
      invariant 0 <= column <= 64
      invariant f1 == f + rs[row][..column] && g1 == g + RowFrames(row)[..column]
      invariant Counters(f1, g1, numberOfFrames, adjacents, startRow * 64 + startColumn)
    {
      adjacents, startRow, startColumn :=
        ScanBit(memoryMap, row, column, adjacents, startRow, startColumn, rs, f1, g1, numberOfFrames);
      assert rs[row][..column + 1] == rs[row][..column] + [rs[row][column]];
      assert RowFrames(row)[..column + 1] == RowFrames(row)[..column] + [64 * row + column];
      f1, g1 := f1 + [rs[row][column]], g1 + [64 * row + column];
      column := column + 1;
      if adjacents > 0 && adjacents == numberOfFrames {
        found := true;
        return;
      }
    }
    assert RowFrames(row)[..64] == RowFrames(row) && rs[row][..64] == rs[row];
  }

  lemma CompletedInPrefix(f: Flags, g: seq<nat>, whole: Flags, frames: seq<nat>, n: nat, start: nat)
    requires f <= whole && g <= frames && |frames| == |whole| && Completed(f, g, n, start)
    ensures FirstRun(whole, n, 0) == |f| - n && |f| - n < |frames| && frames[|f| - n] == start
  {
    LowestRunOfPrefix(f, whole, |f| - n, n);
    FirstRunIsLowest(whole, n, 0, |f| - n);
    assert frames[|f| - n] == g[|f| - n];
  }

  /** A run completed inside a row that is looked into is the result of the search. */
  lemma CompletedInRow(rs: seq<Row>, row: nat, f: Flags, g: seq<nat>, n: nat, start: nat)
    requires RowSizes(rs) && row <= |rs|
    requires f <= Kept(rs, row) && g <= KeptFrames(rs, row) && Completed(f, g, n, start)
    ensures SearchResult(rs, n) == start
  {
    KeptIsPrefix(rs, row, |rs|);
    KeptSizes(rs, |rs|);
    CompletedInPrefix(f, g, Kept(rs, |rs|), KeptFrames(rs, |rs|), n, start);
  }

  /** `_bitmap_request_frames`. */
  method RequestFrames(memoryMap: array<nat>, numberOfFrames: nat, ghost u: Flags) returns (r: int)
    requires Represents(memoryMap[..], u) && memoryMap.Length <= 0xFFFF
    ensures r == SearchResult(RowsOf(u, memoryMap.Length), numberOfFrames)
  {
    RowsOfShow(memoryMap[..], u);
    r := SearchRows(memoryMap, numberOfFrames, RowsOf(u, memoryMap.Length));
  }

  /** The body of the outer loop of `_bitmap_request_frames`. */
  method SearchRow(memoryMap: array<nat>, row: nat, numberOfFrames: nat, run: nat, r0: nat, c0: nat, ghost rs: seq<Row>)
    returns (found: bool, adjacents: nat, startRow: nat, startColumn: nat)
    requires RowsShow(memoryMap[..], rs) && row < memoryMap.Length
    requires Counters(Kept(rs, row), KeptFrames(rs, row), numberOfFrames, run, r0 * 64 + c0)
    ensures found ==> SearchResult(rs, numberOfFrames) == startRow * 64 + startColumn
    ensures !found ==>
      Counters(Kept(rs, row + 1), KeptFrames(rs, row + 1), numberOfFrames, adjacents, startRow * 64 + startColumn)
  {
    found, adjacents, startRow, startColumn := false, run, r0, c0;
    KeptStep(rs, row);
    if memoryMap[row] != ENTRY_FULL {
      ghost var f1, g1;
      found, adjacents, startRow, startColumn, f1, g1 :=
        ScanRow(memoryMap, row, numberOfFrames, run, r0, c0, rs, Kept(rs, row), KeptFrames(rs, row));
      if found {
        CompletedInRow(rs, row + 1, f1, g1, numberOfFrames, startRow * 64 + startColumn);
      }
    }
  }

  lemma SearchBegins(rs: seq<Row>, n: nat)
    ensures Counters(Kept(rs, 0), KeptFrames(rs, 0), n, 0, 0)
  {}

  lemma SearchedAll(rs: seq<Row>, n: nat, adjacents: nat, start: nat)
    requires Counters(Kept(rs, |rs|), KeptFrames(rs, |rs|), n, adjacents, start)
    ensures SearchResult(rs, n) == -1
  {
    if n > 0 { FirstRunOfNone(Kept(rs, |rs|), n, 0); }
  }

  method SearchRows(memoryMap: array<nat>, numberOfFrames: nat, ghost rs: seq<Row>) returns (r: int)
    requires RowsShow(memoryMap[..], rs) && memoryMap.Length <= 0xFFFF
    ensures r == SearchResult(rs, numberOfFrames)
  {
    var adjacents, startRow, startColumn := 0, 0, 0;
    var row := 0;
    SearchBegins(rs, numberOfFrames);
    while row < memoryMap.Length
      invariant 0 <= row <= memoryMap.Length == |rs|
      invariant Counters(Kept(rs, row), KeptFrames(rs, row), numberOfFrames, adjacents, startRow * 64 + startColumn)
    {
      var found;
      found, adjacents, startRow, startColumn :=
        SearchRow(memoryMap, row, numberOfFrames, adjacents, startRow, startColumn, rs);
      if found {
        return startRow * 64 + startColumn;
      }
      row := row + 1;
    }
    SearchedAll(rs, numberOfFrames, adjacents, startRow * 64 + startColumn);
    return -1;
  }

  // ----- initialisation -----

  /** `_compute_kernel_entries`: the least number of frames that reaches a whole frame beyond the end. */
  function KernelEntries(end: nat, pageSize: nat): (r: nat)
    requires pageSize > 0
    ensures end + pageSize <= r * pageSize < end + 2 * pageSize
  {
    var q := end / pageSize;
    assert end == pageSize * q + end % pageSize;
    assert (q + 1) * pageSize == pageSize * q + pageSize && (q + 2) * pageSize == pageSize * q + 2 * pageSize;
    q + if end % pageSize != 0 then 2 else 1
  }

  /** The first n of `size` frames are in use. */
  function FirstUsed(n: nat, size: nat): Flags {
    seq(size, k => k < n)
  }

  /** The part of `_initialize_bitmap` that clears the bitmap and marks the first frames as used. */
  method MarkFirstFrames(memoryMap: array<nat>, kernelEntries: nat)
    requires kernelEntries / 64 < memoryMap.Length
    modifies memoryMap
    ensures Represents(memoryMap[..], FirstUsed(kernelEntries, 64 * memoryMap.Length))
  {
    var i := 0;
    while i < memoryMap.Length
      invariant 0 <= i <= memoryMap.Length
      invariant forall k :: 0 <= k < i ==> memoryMap[k] == 0
    {
      memoryMap[i] := 0;
      i := i + 1;
    }
    var numberOfRows := kernelEntries / 64;
    var j := 0;
    while j < numberOfRows
      invariant 0 <= j <= numberOfRows
      invariant forall k :: 0 <= k < j ==> memoryMap[k] == TWO_64 - 1
      invariant forall k :: j <= k < memoryMap.Length ==> memoryMap[k] == 0
    {
      memoryMap[j] := TWO_64 - 1;
      j := j + 1;
    }
    var rest := kernelEntries - numberOfRows * 64;
    memoryMap[j] := Pow2(rest) - 1;
    assert kernelEntries == 64 * numberOfRows + rest;
    FirstFramesMarked(memoryMap[..], numberOfRows, rest);
  }

  lemma FirstUsedRow(row: nat, u: Flags, q: nat, r: nat, i: nat, c: nat)
    requires r < 64 && c < 64 && 64 * i + c < |u| && u[64 * i + c] == (64 * i + c < 64 * q + r)
    requires row == if i < q then TWO_64 - 1 else if i == q then Pow2(r) - 1 else 0
    ensures RowShows(row, u, i, c)
  {
    if i < q {
      Pow2At60();
      LowMaskBit(64, c);
    } else if i == q {
      LowMaskBit(r, c);
    } else {
      ZeroBit(c);
    }
  }

  lemma FirstFramesMarked(rows: seq<nat>, q: nat, r: nat)
    requires q < |rows| && r < 64 && rows[q] == Pow2(r) - 1
    requires forall k :: 0 <= k < q ==> rows[k] == TWO_64 - 1
    requires forall k :: q < k < |rows| ==> rows[k] == 0
    ensures Represents(rows, FirstUsed(64 * q + r, 64 * |rows|))
  {
    Pow2At60();
    Pow2Less(r, 64);
    var u := FirstUsed(64 * q + r, 64 * |rows|);
    forall i, c | 0 <= i < |rows| && 0 <= c < 64 ensures RowShows(rows[i], u, i, c) {
      FirstUsedRow(rows[i], u, q, r, i, c);
    }
  }
}
