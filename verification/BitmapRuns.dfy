/** When the search for several frames is right although it skips rows that it takes for full. */
module BitmapRuns {
  import opened Bitmap

  /** None of the rows that frames b to b + n - 1 lie in is skipped. */
  ghost predicate Unbroken(rs: seq<Row>, b: nat, n: nat) {
    n > 0 && (b + n - 1) / 64 < |rs| && forall i :: b / 64 <= i <= (b + n - 1) / 64 ==> rs[i] != FullPattern()
  }

  /** Where frame k stands among the flags that are kept. */
  ghost function Position(rs: seq<Row>, k: nat): nat
    requires k / 64 < |rs|
  {
    |Kept(rs, k / 64)| + k % 64
  }

  lemma {:induction false} KeptFollows(rs: seq<Row>, i: nat, m: nat)
    requires RowSizes(rs) && i < m <= |rs| && rs[i] != FullPattern()
    ensures Kept(rs, i) + rs[i] <= Kept(rs, m) && KeptFrames(rs, i) + RowFrames(i) <= KeptFrames(rs, m)
    decreases m
  {
    if i < m - 1 { KeptFollows(rs, i, m - 1); }
  }

  /** A frame of a row that is kept is found at its position. */
  lemma KeptAtPosition(rs: seq<Row>, k: nat)
    requires RowSizes(rs) && k / 64 < |rs| && rs[k / 64] != FullPattern()
    ensures var p, f, g := Position(rs, k), Kept(rs, |rs|), KeptFrames(rs, |rs|);
      p < |f| == |g| && g[p] == k && f[p] == rs[k / 64][k % 64]
  {
    var i, c := k / 64, k % 64;
    KeptFollows(rs, i, |rs|);
    KeptSizes(rs, i);
    KeptSizes(rs, |rs|);
    var f0, g0 := Kept(rs, i) + rs[i], KeptFrames(rs, i) + RowFrames(i);
    assert f0[Position(rs, k)] == rs[i][c] && g0[Position(rs, k)] == RowFrames(i)[c] == k;
  }

  /** Every index of the kept flags is the position of the frame found there. */
  lemma {:induction false} PositionOfKept(rs: seq<Row>, m: nat, t: nat)
    requires RowSizes(rs) && m <= |rs| && t < |Kept(rs, m)|
    ensures t < |KeptFrames(rs, m)|
    ensures var k := KeptFrames(rs, m)[t];
      k / 64 < m && rs[k / 64] != FullPattern() && Position(rs, k) == t
    decreases m
  {
    KeptSizes(rs, m);
    KeptSizes(rs, m - 1);
    var before := |Kept(rs, m - 1)|;
    if t < before {
      PositionOfKept(rs, m - 1, t);
    } else {
      assert KeptFrames(rs, m)[t] == 64 * (m - 1) + (t - before);
    }
  }

  lemma NextFrame(k: nat)
    ensures if k % 64 == 63 then (k + 1) / 64 == k / 64 + 1 && (k + 1) % 64 == 0
            else (k + 1) / 64 == k / 64 && (k + 1) % 64 == k % 64 + 1
  {}

  lemma NextPosition(rs: seq<Row>, k: nat)
    requires RowSizes(rs) && (k + 1) / 64 < |rs| && k / 64 < |rs| && rs[k / 64] != FullPattern()
    ensures Position(rs, k + 1) == Position(rs, k) + 1
  {
    NextFrame(k);
    if k % 64 == 63 { KeptStep(rs, k / 64); }
  }

  lemma UnbrokenRow(rs: seq<Row>, b: nat, n: nat, t: nat)
    requires Unbroken(rs, b, n) && t < n
    ensures (b + t) / 64 < |rs| && rs[(b + t) / 64] != FullPattern()
  {
    assert b / 64 <= (b + t) / 64 <= (b + n - 1) / 64;
  }

  /** Within unbroken rows, neighbouring frames keep neighbouring positions. */
  lemma {:induction false} UnbrokenPositions(rs: seq<Row>, b: nat, n: nat, t: nat)
    requires RowSizes(rs) && Unbroken(rs, b, n) && t < n
    ensures (b + t) / 64 < |rs| && rs[(b + t) / 64] != FullPattern()
    ensures Position(rs, b + t) == Position(rs, b) + t
    decreases t
  {
    UnbrokenRow(rs, b, n, t);
    if t > 0 {
      UnbrokenPositions(rs, b, n, t - 1);
      NextPosition(rs, b + t - 1);
    }
  }

  /** An unbroken run is free in the bitmap exactly if it is free among the kept flags. */
  lemma UnbrokenRunIff(u: Flags, m: nat, b: nat, n: nat)
    requires |u| == 64 * m && Unbroken(RowsOf(u, m), b, n)
    ensures FreeRun(u, b, n) <==> FreeRun(Kept(RowsOf(u, m), m), Position(RowsOf(u, m), b), n)
  {
    var rs := RowsOf(u, m);
    var f, p := Kept(rs, m), Position(rs, b);
    UnbrokenFlag(u, m, rs, b, n, n - 1);
    var s, w := f[p..p + n], u[b..b + n];
    forall t | 0 <= t < n ensures s[t] == w[t] {
      UnbrokenFlag(u, m, rs, b, n, t);
    }
    SameRun(f, p, u, b, n);
  }

  lemma UnbrokenFlag(u: Flags, m: nat, rs: seq<Row>, b: nat, n: nat, t: nat)
    requires |u| == 64 * m && rs == RowsOf(u, m) && RowSizes(rs) && Unbroken(rs, b, n) && t < n
    ensures var f, p := Kept(rs, m), Position(rs, b); p + t < |f| && b + t < |u| && f[p + t] == u[b + t]
  {
    UnbrokenPositions(rs, b, n, t);
    KeptFlag(u, m, rs, b + t, Position(rs, b + t));
  }

  lemma KeptFlag(u: Flags, m: nat, rs: seq<Row>, k: nat, p: nat)
    requires |u| == 64 * m && rs == RowsOf(u, m) && RowSizes(rs)
    requires k / 64 < |rs| && rs[k / 64] != FullPattern() && p == Position(rs, k)
    ensures p < |Kept(rs, m)| && k < |u| && Kept(rs, m)[p] == u[k]
  {
    KeptAtPosition(rs, k);
    RowOfFrame(u, m, k);
  }

  lemma SameRun(f: Flags, p: nat, u: Flags, b: nat, n: nat)
    requires p + n <= |f| && b + n <= |u| && f[p..p + n] == u[b..b + n]
    ensures FreeRun(f, p, n) <==> FreeRun(u, b, n)
  {
    var s, w := f[p..p + n], u[b..b + n];
    assert forall k :: p <= k < p + n ==> f[k] == s[k - p];
    assert forall k :: b <= k < b + n ==> u[k] == w[k - b];
    assert FreeRun(f, p, n) <==> FreeRun(s, 0, n) by { assert forall t :: 0 <= t < n ==> s[t] == f[p + t]; }
    assert FreeRun(u, b, n) <==> FreeRun(w, 0, n) by { assert forall t :: 0 <= t < n ==> w[t] == u[b + t]; }
  }

  lemma RowOfFrame(u: Flags, m: nat, k: nat)
    requires |u| == 64 * m && k / 64 < m
    ensures k < |u| && RowsOf(u, m)[k / 64][k % 64] == u[k]
  {
    assert k == 64 * (k / 64) + k % 64;
  }

  /** A free run never covers the start of a skipped row. */
  lemma FreeRunIsUnbrokenInside(u: Flags, m: nat, b: nat, n: nat)
    requires |u| == 64 * m && n > 0 && FreeRun(u, b, n) && b / 64 < m && RowsOf(u, m)[b / 64] != FullPattern()
    ensures Unbroken(RowsOf(u, m), b, n)
  {
    var rs := RowsOf(u, m);
    assert (b + n - 1) / 64 < m;
    forall i | b / 64 <= i <= (b + n - 1) / 64 ensures rs[i] != FullPattern() {
      if i > b / 64 {
        RowOfFrame(u, m, 64 * i);
        assert b <= 64 * i < b + n && !rs[i][0] && FullPattern()[0];
      }
    }
  }

  /** The lowest start of n free frames, or -1. */
  ghost predicate IsLowestRun(u: Flags, n: nat, r: int) {
    if r < 0 then r == -1 && NoRun(u, n) else LowestRun(u, r, n)
  }

  // ----- runs with skipped rows cut out of them -----

  /** The search looks at frame k. */
  ghost predicate Seen(rs: seq<Row>, k: nat) { k / 64 < |rs| && rs[k / 64] != FullPattern() }

  /** How many frames below k the search looks at. */
  ghost function Rank(rs: seq<Row>, k: nat): nat {
    if k == 0 then 0 else Rank(rs, k - 1) + if Seen(rs, k - 1) then 1 else 0
  }

  lemma {:induction false} RankGap(rs: seq<Row>, b: nat, e: nat)
    requires b <= e
    ensures Rank(rs, b) <= Rank(rs, e) <= Rank(rs, b) + (e - b)
    ensures Rank(rs, e) == Rank(rs, b) + (e - b) ==> forall k :: b <= k < e ==> Seen(rs, k)
    decreases e
  {
    if b < e { RankGap(rs, b, e - 1); }
  }

  /** The number of kept flags below frame k. */
  ghost function Place(rs: seq<Row>, k: nat): nat
    requires k / 64 < |rs|
  {
    if Seen(rs, k) then Position(rs, k) else |Kept(rs, k / 64)|
  }

  lemma PlaceStep(rs: seq<Row>, k: nat)
    requires RowSizes(rs) && k / 64 < |rs| && (k + 1) / 64 < |rs|
    ensures Place(rs, k + 1) == Place(rs, k) + if Seen(rs, k) then 1 else 0
  {
    NextFrame(k);
    if k % 64 == 63 { KeptStep(rs, k / 64); }
  }

  /** Below frame k there are as many frames as are kept. */
  lemma {:induction false} RankIsPosition(rs: seq<Row>, k: nat)
    requires RowSizes(rs) && k / 64 < |rs|
    ensures Rank(rs, k) == Place(rs, k)
    decreases k
  {
    if k == 0 {
      assert Kept(rs, 0) == [];
    } else {
      RankIsPosition(rs, k - 1);
      PlaceStep(rs, k - 1);
    }
  }

  /** Frames that the search looks at are in the order of their ranks. */
  lemma RankOrder(rs: seq<Row>, j: nat, k: nat)
    requires Seen(rs, j)
    ensures j < k <==> Rank(rs, j) < Rank(rs, k)
  {
    if j < k { RankGap(rs, j + 1, k); } else { RankGap(rs, k, j); }
  }

  /** The frames that the search looks at from b to last are free, and they are n. */
  ghost predicate SeenRun(u: Flags, rs: seq<Row>, b: nat, last: nat, n: nat) {
    && b <= last < |u| && Seen(rs, b) && Seen(rs, last) && Rank(rs, last) + 1 == Rank(rs, b) + n
    && forall k :: b <= k <= last && Seen(rs, k) ==> !u[k]
  }

  /** From frame b on, n frames that the search looks at are free, with a skipped row in between. */
  ghost predicate Spliced(u: Flags, rs: seq<Row>, b: nat, n: nat) {
    exists last :: last >= b + n && SeenRun(u, rs, b, last, n)
  }

  lemma SeenFlag(u: Flags, m: nat, rs: seq<Row>, k: nat)
    requires |u| == 64 * m && rs == RowsOf(u, m) && RowSizes(rs) && Seen(rs, k)
    ensures Rank(rs, k) < |Kept(rs, m)| && k < |u| && Kept(rs, m)[Rank(rs, k)] == u[k]
  {
    RankIsPosition(rs, k);
    KeptFlag(u, m, rs, k, Position(rs, k));
  }

  lemma RankOfKept(rs: seq<Row>, m: nat, t: nat) returns (k: nat)
    requires RowSizes(rs) && m == |rs| && t < |Kept(rs, m)|
    ensures t < |KeptFrames(rs, m)| && k == KeptFrames(rs, m)[t] && Seen(rs, k) && Rank(rs, k) == t
  {
    PositionOfKept(rs, m, t);
    k := KeptFrames(rs, m)[t];
    RankIsPosition(rs, k);
  }

  /** Free kept flags from the place of frame b on are free frames that the search looks at. */
  lemma KeptRunIsSeen(u: Flags, m: nat, rs: seq<Row>, b: nat, n: nat) returns (last: nat)
    requires |u| == 64 * m && rs == RowsOf(u, m) && RowSizes(rs) && n > 0
    requires Seen(rs, b) && FreeRun(Kept(rs, m), Rank(rs, b), n)
    ensures SeenRun(u, rs, b, last, n)
  {
    last := RankOfKept(rs, m, Rank(rs, b) + n - 1);
    SeenFlag(u, m, rs, last);
    RankOrder(rs, last, b);
    forall k | b <= k <= last && Seen(rs, k) ensures !u[k] {
      RankOrder(rs, k, b);
      RankOrder(rs, last, k);
      SeenFlag(u, m, rs, k);
    }
  }

  lemma SeenRunIsKept(u: Flags, m: nat, rs: seq<Row>, b: nat, last: nat, n: nat)
    requires |u| == 64 * m && rs == RowsOf(u, m) && RowSizes(rs) && SeenRun(u, rs, b, last, n)
    ensures FreeRun(Kept(rs, m), Rank(rs, b), n)
  {
    SeenFlag(u, m, rs, last);
    forall t | Rank(rs, b) <= t < Rank(rs, b) + n ensures !Kept(rs, m)[t] {
      var k := RankOfKept(rs, m, t);
      RankOrder(rs, k, b);
      RankOrder(rs, last, k);
      SeenFlag(u, m, rs, k);
    }
  }

  /** Without a skipped row in between it is a run of free frames. */
  lemma SeenRunIsFreeRun(u: Flags, rs: seq<Row>, b: nat, last: nat, n: nat)
    requires SeenRun(u, rs, b, last, n) && n > 0 && last < b + n
    ensures FreeRun(u, b, n)
  {
    RankGap(rs, b, last);
  }

  /** The search for n frames returns the lowest run, or reports that there is none, exactly if the
      lowest run starts in a row that is not skipped and no n free frames with a skipped row in between
      come before it. */
  lemma RequestFramesCorrectIff(u: Flags, m: nat, n: nat, found: int, lowest: int)
    requires |u| == 64 * m && n > 0 && found == SearchResult(RowsOf(u, m), n) && IsLowestRun(u, n, lowest)
    ensures found == lowest <==>
      && (lowest >= 0 ==> Seen(RowsOf(u, m), lowest))
      && (forall b: nat :: lowest < 0 || b < lowest ==> !Spliced(u, RowsOf(u, m), b, n))
  {
    var rs := RowsOf(u, m);
    if found == lowest {
      FoundIsSeen(u, m, rs, n);
      forall b: nat | Spliced(u, rs, b, n) ensures 0 <= found <= b { FoundBeforeSpliced(u, m, rs, n, b); }
    } else {
      FoundIsRun(u, m, rs, n);
      if lowest >= 0 && Seen(rs, lowest) { FoundBeforeRun(u, m, rs, n, lowest); }
    }
  }

  /** What is found is a frame that the search looks at, with n kept flags that are free. */
  lemma FoundIsSeen(u: Flags, m: nat, rs: seq<Row>, n: nat)
    requires |u| == 64 * m && rs == RowsOf(u, m) && RowSizes(rs) && n > 0
    ensures var found := SearchResult(rs, n);
      if found >= 0 then Seen(rs, found) && FreeRun(Kept(rs, m), Rank(rs, found), n)
      else found == -1
  {
    KeptSizes(rs, m);
    FirstRunFacts(Kept(rs, m), n, 0);
    var a := FirstRun(Kept(rs, m), n, 0);
    if a >= 0 { var k := RankOfKept(rs, m, a); }
  }

  /** It is a run of free frames or a spliced one. */
  lemma FoundIsRun(u: Flags, m: nat, rs: seq<Row>, n: nat)
    requires |u| == 64 * m && rs == RowsOf(u, m) && RowSizes(rs) && n > 0
    ensures var found := SearchResult(rs, n); found >= 0 ==> FreeRun(u, found, n) || Spliced(u, rs, found, n)
  {
    FoundIsSeen(u, m, rs, n);
    var found := SearchResult(rs, n);
    if found >= 0 {
      var last := KeptRunIsSeen(u, m, rs, found, n);
      if last < found + n { SeenRunIsFreeRun(u, rs, found, last, n); }
    }
  }

  /** What is found is not behind any frame from which n kept flags are free. */
  lemma FoundBefore(u: Flags, m: nat, rs: seq<Row>, n: nat, b: nat)
    requires |u| == 64 * m && rs == RowsOf(u, m) && RowSizes(rs) && n > 0
    requires Seen(rs, b) && FreeRun(Kept(rs, m), Rank(rs, b), n)
    ensures 0 <= SearchResult(rs, n) <= b
  {
    KeptSizes(rs, m);
    FirstRunFacts(Kept(rs, m), n, 0);
    var a := FirstRun(Kept(rs, m), n, 0);
    assert 0 <= a <= Rank(rs, b);
    var found := RankOfKept(rs, m, a);
    RankOrder(rs, b, found);
  }

  /** There are n frames of the bitmap from what is found on. */
  lemma FoundLeavesRoom(u: Flags, m: nat, n: nat)
    requires |u| == 64 * m && n > 0
    ensures var found := SearchResult(RowsOf(u, m), n); found < 0 ==> found == -1
    ensures var found := SearchResult(RowsOf(u, m), n); found >= 0 ==> found + n <= |u|
  {
    var rs := RowsOf(u, m);
    FoundIsSeen(u, m, rs, n);
    var found := SearchResult(rs, n);
    if found >= 0 {
      var last := KeptRunIsSeen(u, m, rs, found, n);
      RankGap(rs, found, last);
    }
  }

  lemma FoundBeforeSpliced(u: Flags, m: nat, rs: seq<Row>, n: nat, b: nat)
    requires |u| == 64 * m && rs == RowsOf(u, m) && RowSizes(rs) && n > 0 && Spliced(u, rs, b, n)
    ensures 0 <= SearchResult(rs, n) <= b
  {
    var last :| last >= b + n && SeenRun(u, rs, b, last, n);
    SeenRunIsKept(u, m, rs, b, last, n);
    FoundBefore(u, m, rs, n, b);
  }

  lemma FoundBeforeRun(u: Flags, m: nat, rs: seq<Row>, n: nat, b: nat)
    requires |u| == 64 * m && rs == RowsOf(u, m) && RowSizes(rs) && n > 0 && Seen(rs, b) && FreeRun(u, b, n)
    ensures 0 <= SearchResult(rs, n) <= b
  {
    FreeRunIsUnbrokenInside(u, m, b, n);
    UnbrokenRunIff(u, m, b, n);
    RankIsPosition(rs, b);
    FoundBefore(u, m, rs, n, b);
  }

  lemma {:induction false} FirstRunFacts(f: Flags, n: nat, a: nat)
    requires n > 0
    ensures var r := FirstRun(f, n, a);
      if r < 0 then r == -1 && forall b: nat :: b >= a ==> !FreeRun(f, b, n)
      else r >= a && FreeRun(f, r, n) && forall b: nat :: a <= b < r ==> !FreeRun(f, b, n)
    decreases |f| - a
  {
    if a + n <= |f| && !FreeRun(f, a, n) { FirstRunFacts(f, n, a + 1); }
  }
}
