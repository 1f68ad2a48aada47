/** Scrolling the framebuffer by one line of text. Pixels are held by row and column. */
module Scroll {
  import opened Bits
  import opened Windows

  /** The offset of a pixel in the framebuffer, in 32-bit arithmetic with 4-byte pixels. */
  function PixelOffset(pitch: nat, x: nat, y: nat): nat {
    y * pitch % TWO_32 + x * 4 % TWO_32
  }

  /** Rows and columns address different pixels as long as a row fits its pitch and the framebuffer
      fits 32 bits. */
  lemma PixelOffsetInjective(pitch: nat, rows: nat, x: nat, y: nat, x': nat, y': nat)
    requires rows * pitch <= TWO_32 && y < rows && y' < rows && 4 * x + 4 <= pitch && 4 * x' + 4 <= pitch
    ensures PixelOffset(pitch, x, y) == y * pitch + 4 * x
    ensures PixelOffset(pitch, x, y) == PixelOffset(pitch, x', y') <==> x == x' && y == y'
  {
    OffsetInRange(pitch, rows, x, y);
    OffsetInRange(pitch, rows, x', y');
    RowsApart(pitch, y, y');
    RowsApart(pitch, y', y);
  }

  lemma RowsApart(pitch: nat, y: nat, y': nat)
    ensures y < y' ==> y * pitch + pitch <= y' * pitch
  {
    if y < y' {
      MulMono(pitch, y + 1, y');
      assert (y + 1) * pitch == y * pitch + pitch;
    }
  }

  lemma OffsetInRange(pitch: nat, rows: nat, x: nat, y: nat)
    requires rows * pitch <= TWO_32 && y < rows && 4 * x + 4 <= pitch
    ensures PixelOffset(pitch, x, y) == y * pitch + 4 * x && y * pitch + pitch <= TWO_32
  {
    MulMono(pitch, y + 1, rows);
    assert (y + 1) * pitch == y * pitch + pitch;
  }

  // ----- where each pixel comes from -----

  datatype From = Keep | Row(y: nat) | Black

  /** The loop bound `y_orig + height - line_height`, computed in 32 bits. */
  function Bound(r: Window, lineHeight: nat): nat {
    (r.y + r.height + TWO_32 - lineHeight % TWO_32) % TWO_32
  }

  /** The loop stays within the rectangle exactly if the rectangle ends below the first line. */
  lemma BoundStaysInsideIff(r: Window, lineHeight: nat)
    requires r.y + r.height < TWO_32 && 0 < lineHeight < TWO_32
    ensures Bound(r, lineHeight) <= r.y + r.height <==> lineHeight <= r.y + r.height
    ensures lineHeight <= r.y + r.height ==> Bound(r, lineHeight) == r.y + r.height - lineHeight
  {}

  /** The pixels of one column of a rectangle when the rows before c are done. */
  function Partly(r: Window, lineHeight: nat, clear: bool, c: nat, y: nat): From {
    if r.y <= y < c then Row(y + lineHeight)
    else if clear && r.y + lineHeight <= y && c <= y < c + lineHeight then Black
    else Keep
  }

  function Done(r: Window, lineHeight: nat): nat {
    if Bound(r, lineHeight) < r.y then r.y else Bound(r, lineHeight)
  }

  function Source(r: Window, lineHeight: nat, clear: bool, y: nat, x: nat): From {
    if r.x <= x < r.x + r.width then Partly(r, lineHeight, clear, Done(r, lineHeight), y) else Keep
  }

  /** A rectangle of at least two lines is moved up by a line, its last line cleared, and no smaller
      one is, whether the loop bound wraps or not. */
  lemma ShiftsAndClearsIff(r: Window, lineHeight: nat)
    requires r.width > 0 && r.height > 0 && 0 < lineHeight < TWO_32 && r.y + r.height < TWO_32
    ensures (forall y: nat, x: nat :: Contains(r, x, y) ==>
        Source(r, lineHeight, true, y, x) == if y + lineHeight < r.y + r.height then Row(y + lineHeight) else Black)
      <==> r.height >= 2 * lineHeight
  {
    assert Contains(r, r.x, r.y);
    BoundStaysInsideIff(r, lineHeight);
    if r.height < lineHeight {
      assert Source(r, lineHeight, true, r.y, r.x) != Black;
    } else if r.height < 2 * lineHeight {
      assert Contains(r, r.x, r.y + r.height - lineHeight);
      assert Source(r, lineHeight, true, r.y + r.height - lineHeight, r.x) == Keep;
    }
  }

  /** Without clearing a rectangle is moved up by a line, its last line staying as it is, exactly if the loop
      bound does not wrap. */
  lemma ShiftsIff(r: Window, lineHeight: nat)
    requires r.width > 0 && r.height > 0 && 0 < lineHeight < TWO_32 && r.y + r.height < TWO_32
    ensures (forall y: nat, x: nat :: Contains(r, x, y) ==>
        Source(r, lineHeight, false, y, x) == if y + lineHeight < r.y + r.height then Row(y + lineHeight) else Keep)
      <==> lineHeight <= r.y + r.height
  {
    BoundStaysInsideIff(r, lineHeight);
    assert Contains(r, r.x, r.y);
    if lineHeight > r.y + r.height { assert Source(r, lineHeight, false, r.y, r.x) != Keep; }
  }

  /** Scrolling a rectangle neither changes nor looks at a pixel outside it. */
  lemma SourceStaysInside(r: Window, lineHeight: nat, clear: bool, y: nat, x: nat)
    requires 0 < lineHeight <= r.y + r.height < TWO_32
    ensures !Contains(r, x, y) ==> Source(r, lineHeight, clear, y, x) == Keep
    ensures Source(r, lineHeight, clear, y, x).Row? ==> Contains(r, x, Source(r, lineHeight, clear, y, x).y)
  {
    BoundStaysInsideIff(r, lineHeight);
  }

  // ----- pictures -----

  type Picture = seq<seq<nat>>

  /** All rows have the same number of pixels. */
  predicate Sized(pic: Picture, rows: nat, columns: nat) {
    |pic| == rows && forall y :: 0 <= y < rows ==> |pic[y]| == columns
  }

  predicate OnScreen(r: Window, rows: nat, columns: nat) {
    r.x + r.width <= columns && r.y + r.height <= rows
  }

  function Pixel(pic: Picture, y: nat, x: nat): nat {
    if y < |pic| && x < |pic[y]| then pic[y][x] else 0
  }

  function Taken(pic: Picture, y: nat, x: nat, from: From): nat {
    match from
    case Keep => Pixel(pic, y, x)
    case Row(y') => Pixel(pic, y', x)
    case Black => 0
  }

  /** The picture after a rectangle has been scrolled. */
  function Scrolled(pic: Picture, r: Window, lineHeight: nat, clear: bool): (pic1: Picture)
    ensures |pic1| == |pic| && forall y :: 0 <= y < |pic| ==> |pic1[y]| == |pic[y]|
    ensures forall y, x :: 0 <= y < |pic| && 0 <= x < |pic[y]| ==>
      pic1[y][x] == Taken(pic, y, x, Source(r, lineHeight, clear, y, x))
  {
    seq(|pic|, y requires 0 <= y < |pic| =>
      seq(|pic[y]|, x requires 0 <= x < |pic[y]| => Taken(pic, y, x, Source(r, lineHeight, clear, y, x))))
  }

  function ScrolledAll(pic: Picture, rs: seq<Window>, lineHeight: nat, clear: bool): Picture
    decreases |rs|
  {
    if rs == [] then pic else ScrolledAll(Scrolled(pic, rs[0], lineHeight, clear), rs[1..], lineHeight, clear)
  }

  /** Rectangles of a screen, each ending below its first line. */
  predicate Scrollable(rs: seq<Window>, rows: nat, columns: nat, lineHeight: nat) {
    forall i :: 0 <= i < |rs| ==> OnScreen(rs[i], rows, columns) && lineHeight <= rs[i].y + rs[i].height
  }

  lemma {:induction false} ScrolledAllSized(pic: Picture, rs: seq<Window>, lineHeight: nat, clear: bool, rows: nat,
                                            columns: nat)
    requires Sized(pic, rows, columns)
    ensures Sized(ScrolledAll(pic, rs, lineHeight, clear), rows, columns)
    decreases |rs|
  {
    if rs != [] {
      ScrolledAllSized(Scrolled(pic, rs[0], lineHeight, clear), rs[1..], lineHeight, clear, rows, columns);
    }
  }

  /** Pixels outside every rectangle keep their colour. */
  lemma {:induction false} ScrolledAllKeepsOthers(pic: Picture, rs: seq<Window>, lineHeight: nat, clear: bool,
                                                  rows: nat, columns: nat, y: nat, x: nat)
    requires Sized(pic, rows, columns) && rows < TWO_32 && 0 < lineHeight && Scrollable(rs, rows, columns, lineHeight)
    requires y < rows && x < columns && !Covered(rs, x, y)
    ensures Pixel(ScrolledAll(pic, rs, lineHeight, clear), y, x) == Pixel(pic, y, x)
    decreases |rs|
  {
    if rs != [] {
      SourceStaysInside(rs[0], lineHeight, clear, y, x);
      assert !Contains(rs[0], x, y);
      assert forall i :: 0 <= i < |rs[1..]| ==> rs[1..][i] == rs[i + 1];
      ScrolledAllKeepsOthers(Scrolled(pic, rs[0], lineHeight, clear), rs[1..], lineHeight, clear, rows, columns, y, x);
    }
  }

  /** A pixel of one of several disjoint rectangles is scrolled as if that rectangle were the only one. */
  lemma {:induction false} ScrolledAllPixel(pic: Picture, rs: seq<Window>, lineHeight: nat, clear: bool, rows: nat,
                                            columns: nat, k: nat, y: nat, x: nat)
    requires Sized(pic, rows, columns) && rows < TWO_32 && 0 < lineHeight && Scrollable(rs, rows, columns, lineHeight)
    requires Disjoint(rs) && k < |rs| && Contains(rs[k], x, y)
    ensures Pixel(ScrolledAll(pic, rs, lineHeight, clear), y, x) ==
      Taken(pic, y, x, Source(rs[k], lineHeight, clear, y, x))
    decreases |rs|
  {
    var pic1 := Scrolled(pic, rs[0], lineHeight, clear);
    if k == 0 {
      assert forall i :: 0 <= i < |rs[1..]| ==> rs[1..][i] == rs[i + 1];
      ScrolledAllKeepsOthers(pic1, rs[1..], lineHeight, clear, rows, columns, y, x);
    } else {
      assert Contains(rs[1..][k - 1], x, y);
      DisjointRest(rs);
      ScrolledAllPixel(pic1, rs[1..], lineHeight, clear, rows, columns, k - 1, y, x);
      var from := Source(rs[k], lineHeight, clear, y, x);
      SourceStaysInside(rs[k], lineHeight, clear, y, x);
      SourceStaysInside(rs[0], lineHeight, clear, y, x);
      if from.Row? {
        SourceStaysInside(rs[0], lineHeight, clear, from.y, x);
        assert !Contains(rs[0], x, from.y);
      }
    }
  }

  lemma DisjointRest(rs: seq<Window>)
    requires Disjoint(rs) && rs != []
    ensures Disjoint(rs[1..])
  {
    var rest := rs[1..];
    forall i, j, x, y | 0 <= i < j < |rest| && Contains(rest[i], x, y) ensures !Contains(rest[j], x, y) {
      assert rest[i] == rs[i + 1] && rest[j] == rs[j + 1];
    }
  }

  /** Scrolling the rectangles around a pinned area leaves the pinned pixels alone. */
  lemma PinnedAreaKept(pic: Picture, main: Window, area: Window, lineHeight: nat, clear: bool, rows: nat, columns: nat,
                       y: nat, x: nat)
    requires Sized(pic, rows, columns) && rows < TWO_32 && 0 < lineHeight
    requires Scrollable(Rectangles(main, area), rows, columns, lineHeight)
    requires y < rows && x < columns && Contains(area, x, y)
    ensures Pixel(ScrolledAll(pic, Rectangles(main, area), lineHeight, clear), y, x) == Pixel(pic, y, x)
  {
    RectanglesAvoidArea(main, area, x, y);
    ScrolledAllKeepsOthers(pic, Rectangles(main, area), lineHeight, clear, rows, columns, y, x);
  }

  // ----- the loops -----

  ghost predicate Shows(fb: array2<nat>, pic: Picture)
    reads fb
  {
    Sized(pic, fb.Length0, fb.Length1) && forall y, x :: 0 <= y < fb.Length0 && 0 <= x < fb.Length1 ==>
      fb[y, x] == pic[y][x]
  }

  /** Where a pixel comes from when column x of row c is next. */
  function Midway(r: Window, lineHeight: nat, clear: bool, c: nat, cx: nat, y: nat, x: nat): From {
    if r.x <= x < cx then Partly(r, lineHeight, clear, c + 1, y)
    else if r.x <= x < r.x + r.width then Partly(r, lineHeight, clear, c, y)
    else Keep
  }

  method ScrollRow(fb: array2<nat>, r: Window, lineHeight: nat, clear: bool, c: nat, ghost pic: Picture)
    requires OnScreen(r, fb.Length0, fb.Length1) && 0 < lineHeight && r.y <= c && c + lineHeight < r.y + r.height
    requires Sized(pic, fb.Length0, fb.Length1)
    requires forall y, x :: 0 <= y < fb.Length0 && 0 <= x < fb.Length1 ==>
      fb[y, x] == Taken(pic, y, x, Midway(r, lineHeight, clear, c, r.x, y, x))
    modifies fb
    ensures forall y, x :: 0 <= y < fb.Length0 && 0 <= x < fb.Length1 ==>
      fb[y, x] == Taken(pic, y, x, Midway(r, lineHeight, clear, c + 1, r.x, y, x))
  {
    var cx := r.x;
    while cx < r.x + r.width
      invariant r.x <= cx <= r.x + r.width
      invariant forall y, x :: 0 <= y < fb.Length0 && 0 <= x < fb.Length1 ==>
        fb[y, x] == Taken(pic, y, x, Midway(r, lineHeight, clear, c, cx, y, x))
    {
      fb[c, cx] := fb[c + lineHeight, cx];
      if clear {
        fb[c + lineHeight, cx] := 0;
      }
      cx := cx + 1;
    }
  }

  /** The loops of `_fb_scroll` over one rectangle. */
  method ScrollRect(fb: array2<nat>, r: Window, lineHeight: nat, clear: bool, ghost pic: Picture)
    requires OnScreen(r, fb.Length0, fb.Length1) && fb.Length0 < TWO_32 && 0 < lineHeight <= r.y + r.height
    requires Shows(fb, pic)
    modifies fb
    ensures Shows(fb, Scrolled(pic, r, lineHeight, clear))
  {
    BoundStaysInsideIff(r, lineHeight);
    var cur := r.y;
    while cur < Bound(r, lineHeight)
      invariant r.y <= cur <= Done(r, lineHeight)
      invariant forall y, x :: 0 <= y < fb.Length0 && 0 <= x < fb.Length1 ==>
        fb[y, x] == Taken(pic, y, x, Midway(r, lineHeight, clear, cur, r.x, y, x))
    {
      ScrollRow(fb, r, lineHeight, clear, cur, pic);
      cur := cur + 1;
    }
  }

  /** The loop of `_fb_scroll` over the rectangles. */
  method ScrollAll(fb: array2<nat>, rs: seq<Window>, lineHeight: nat, clear: bool, ghost pic: Picture)
    requires Scrollable(rs, fb.Length0, fb.Length1, lineHeight) && fb.Length0 < TWO_32 && 0 < lineHeight
    requires Shows(fb, pic)
    modifies fb
    ensures Shows(fb, ScrolledAll(pic, rs, lineHeight, clear))
  {
    ghost var target := ScrolledAll(pic, rs, lineHeight, clear);
    ghost var now := pic;
    var i := 0;
    while i < |rs|
      invariant 0 <= i <= |rs| && Shows(fb, now)
      invariant ScrolledAll(now, rs[i..], lineHeight, clear) == target
    {
      assert rs[i..][1..] == rs[i + 1..];
      ScrollRect(fb, rs[i], lineHeight, clear, now);
      now := Scrolled(now, rs[i], lineHeight, clear);
      i := i + 1;
    }
  }

  datatype Area = NoArea | Pinned(window: Window)

  /** `_fb_get_rectangles`, which fills the given array. */
  method GetRectangles(rectangles: array<Window>, main: Window, area: Area) returns (n: nat)
    requires rectangles.Length == 4
    modifies rectangles
    ensures n <= 4 && rectangles[..n] == match area case NoArea => [] case Pinned(w) => Rectangles(main, w)
  {
    n := 0;
    match area
    case NoArea => return;
    case Pinned(w) =>
      if main.x < w.x {
        rectangles[n] := Window(main.x, main.y, w.x - main.x, main.height);
        n := n + 1;
      }
      if w.x + w.width < main.x + main.width {
        rectangles[n] := Window(w.x + w.width, main.y, (main.x + main.width) - (w.x + w.width), main.height);
        n := n + 1;
      }
      if main.y < w.y {
        rectangles[n] := Window(w.x, main.y, w.width, w.y - main.y);
        n := n + 1;
      }
      if w.y + w.height < main.y + main.height {
        rectangles[n] := Window(w.x, w.y + w.height, w.width, (main.y + main.height) - (w.y + w.height));
        n := n + 1;
      }
  }

  /** The rectangles that a call of `_fb_scroll` works on. */
  function Targets(main: Window, scrolling: Window, area: Area): seq<Window> {
    if area.NoArea? || Rectangles(main, area.window) == [] then [scrolling] else Rectangles(main, area.window)
  }

  /** Two windows have a pixel in common. */
  predicate Overlaps(a: Window, b: Window) {
    && a.width > 0 && a.height > 0 && b.width > 0 && b.height > 0
    && a.x < b.x + b.width && b.x < a.x + a.width && a.y < b.y + b.height && b.y < a.y + a.height
  }

  lemma OverlapsIff(a: Window, b: Window)
    ensures Overlaps(a, b) <==> exists x, y :: Contains(a, x, y) && Contains(b, x, y)
  {
    if Overlaps(a, b) {
      var x, y := if a.x < b.x then b.x else a.x, if a.y < b.y then b.y else a.y;
      assert Contains(a, x, y) && Contains(b, x, y);
    }
  }

  /** The pinned pixels lie outside everything a call works on, unless the area covers the whole main
      window and meets the scrolling window: then the scrolling window is scrolled, pinned pixels and all. */
  lemma PinnedAreaLeftOutIff(main: Window, scrolling: Window, area: Window)
    ensures (forall x, y :: Contains(area, x, y) ==> !Covered(Targets(main, scrolling, Pinned(area)), x, y))
      <==> !Within(main, area) || !Overlaps(area, scrolling)
  {
    var rs := Rectangles(main, area);
    if rs == [] {
      OverlapsIff(area, scrolling);
      forall x, y
        ensures Covered([scrolling], x, y) <==> Contains(scrolling, x, y)
      {
        assert [scrolling][0] == scrolling;
      }
    } else {
      forall x, y | Contains(area, x, y) ensures !Covered(rs, x, y) { RectanglesAvoidArea(main, area, x, y); }
    }
  }

  /** What a call works on: the scrolling window without a pinned area, or with one that covers the whole main
      window; otherwise the main window without the area, if each side that is cut lies within the window. */
  lemma TargetsCover(main: Window, scrolling: Window, area: Window, x: int, y: int)
    requires main.width > 0 && main.height > 0 && area.width > 0 && area.height > 0
    ensures Covered(Targets(main, scrolling, NoArea), x, y) <==> Contains(scrolling, x, y)
    ensures Within(main, area) ==>
      (Covered(Targets(main, scrolling, Pinned(area)), x, y) <==> Contains(scrolling, x, y))
    ensures !Within(main, area) && Cuttable(main, area) ==>
      (Covered(Targets(main, scrolling, Pinned(area)), x, y) <==> Contains(main, x, y) && !Contains(area, x, y))
  {
    assert [scrolling][0] == scrolling;
    if Cuttable(main, area) { RectanglesPartitionIff(main, area); }
  }

  /** A pixel after a call: in a rectangle of at least two lines it is the one a line below it, or black in the
      last line. */
  lemma FbScrollPixel(pic: Picture, rs: seq<Window>, lineHeight: nat, clear: bool, rows: nat, columns: nat, k: nat,
                      y: nat, x: nat)
    requires Sized(pic, rows, columns) && Scrollable(rs, rows, columns, lineHeight) && Disjoint(rs) && rows < TWO_32
    requires 0 < lineHeight && k < |rs| && Contains(rs[k], x, y) && rs[k].height >= 2 * lineHeight
    ensures Pixel(ScrolledAll(pic, rs, lineHeight, clear), y, x) ==
      if y + lineHeight < rs[k].y + rs[k].height then Pixel(pic, y + lineHeight, x)
      else if clear then 0 else Pixel(pic, y, x)
  {
    ScrolledAllPixel(pic, rs, lineHeight, clear, rows, columns, k, y, x);
    assert OnScreen(rs[k], rows, columns);
    if clear { ShiftsAndClearsIff(rs[k], lineHeight); } else { ShiftsIff(rs[k], lineHeight); }
  }

  /** `_fb_scroll`. */
  method FbScroll(fb: array2<nat>, main: Window, scrolling: Window, lineHeight: nat, area: Area, clear: bool,
                  ghost pic: Picture)
    requires Scrollable(Targets(main, scrolling, area), fb.Length0, fb.Length1, lineHeight)
    requires fb.Length0 < TWO_32 && 0 < lineHeight
    requires Shows(fb, pic)
    modifies fb
    ensures Shows(fb, ScrolledAll(pic, Targets(main, scrolling, area), lineHeight, clear))
  {
    var rectangles := new Window[4](_ => Window(0, 0, 0, 0));
    var n := GetRectangles(rectangles, main, area);
    if area.NoArea? || n == 0 {
      rectangles[0] := scrolling;
      n := n + 1;
    }
    assert rectangles[..n] == Targets(main, scrolling, area);
    ScrollAll(fb, rectangles[..n], lineHeight, clear, pic);
  }
}
