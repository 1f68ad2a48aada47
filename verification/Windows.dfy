/** Rectangles of the framebuffer and the scrolling of text around a pinned area. */
module Windows {
  import opened Bits

  datatype Window = Window(x: nat, y: nat, width: nat, height: nat)

  predicate Contains(w: Window, x: int, y: int) {
    w.x <= x < w.x + w.width && w.y <= y < w.y + w.height
  }

  /** `_fb_get_rectangles` for an area that is not NULL: left, right, above and below the area. */
  function Rectangles(main: Window, area: Window): (rs: seq<Window>)
    ensures |rs| <= 4
  {
    var right, bottom := main.x + main.width, main.y + main.height;
    var areaRight, areaBottom := area.x + area.width, area.y + area.height;
    (if main.x < area.x then [Window(main.x, main.y, area.x - main.x, main.height)] else [])
    + (if areaRight < right then [Window(areaRight, main.y, right - areaRight, main.height)] else [])
    + (if main.y < area.y then [Window(area.x, main.y, area.width, area.y - main.y)] else [])
    + (if areaBottom < bottom then [Window(area.x, areaBottom, area.width, bottom - areaBottom)] else [])
  }

  ghost predicate Covered(rs: seq<Window>, x: int, y: int) {
    exists i :: 0 <= i < |rs| && Contains(rs[i], x, y)
  }

  ghost predicate Disjoint(rs: seq<Window>) {
    forall i, j, x, y :: 0 <= i < j < |rs| && Contains(rs[i], x, y) ==> !Contains(rs[j], x, y)
  }

  /** The rectangles never overlap each other or the pinned area. */
  lemma RectanglesAvoidArea(main: Window, area: Window, x: int, y: int)
    ensures Disjoint(Rectangles(main, area))
    ensures Contains(area, x, y) ==> !Covered(Rectangles(main, area), x, y)
  {}

  /** Each side of the area at which a rectangle is cut off lies within the main window. */
  predicate Cuttable(main: Window, area: Window) {
    var right, bottom := main.x + main.width, main.y + main.height;
    var areaRight, areaBottom := area.x + area.width, area.y + area.height;
    && area.x <= right && main.x <= areaRight
    && (main.y < area.y ==> area.y <= bottom && main.x <= area.x && areaRight <= right)
    && (areaBottom < bottom ==> main.y <= areaBottom && main.x <= area.x && areaRight <= right)
  }

  /** The rectangle list written out by cases of a pixel. */
  lemma CoveredCases(main: Window, area: Window, x: int, y: int)
    ensures Covered(Rectangles(main, area), x, y) <==>
      || (main.x <= x < area.x && main.y <= y < main.y + main.height)
      || (area.x + area.width <= x < main.x + main.width && main.y <= y < main.y + main.height)
      || (area.x <= x < area.x + area.width && main.y <= y < area.y)
      || (area.x <= x < area.x + area.width && area.y + area.height <= y < main.y + main.height)
  {
    var rs := Rectangles(main, area);
    var a := if main.x < area.x then 1 else 0;
    var b := if area.x + area.width < main.x + main.width then a + 1 else a;
    var c := if main.y < area.y then b + 1 else b;
    assert a == 1 ==> rs[0].width == area.x - main.x && rs[0] == Window(main.x, main.y, rs[0].width, main.height);
    assert b > a ==>
      rs[a] == Window(area.x + area.width, main.y, main.x + main.width - (area.x + area.width), main.height);
    assert c > b ==> rs[b] == Window(area.x, main.y, area.width, area.y - main.y);
    assert |rs| > c ==>
      rs[c] == Window(area.x, area.y + area.height, area.width, main.y + main.height - (area.y + area.height));
    assert |rs| <= c + 1;
  }

  /** The rectangles cover exactly the pixels of the main window outside the area if and only if the
      area can be cut out of it; an area inside the window is one case of this. */
  lemma RectanglesPartitionIff(main: Window, area: Window)
    requires main.width > 0 && main.height > 0 && area.width > 0 && area.height > 0
    ensures (forall x, y :: Covered(Rectangles(main, area), x, y) <==> Contains(main, x, y) && !Contains(area, x, y))
      <==> Cuttable(main, area)
  {
    var rs := Rectangles(main, area);
    if Cuttable(main, area) {
      forall x, y ensures Covered(rs, x, y) <==> Contains(main, x, y) && !Contains(area, x, y) {
        CoveredCases(main, area, x, y);
      }
    } else {
      var x, y := StrayPixel(main, area);
    }
  }

  /** A pixel of a rectangle that lies outside the main window. */
  lemma StrayPixel(main: Window, area: Window) returns (x: int, y: int)
    requires main.width > 0 && main.height > 0 && area.width > 0 && area.height > 0
    requires !Cuttable(main, area)
    ensures Covered(Rectangles(main, area), x, y) && !Contains(main, x, y)
  {
    var right, bottom := main.x + main.width, main.y + main.height;
    var areaRight, areaBottom := area.x + area.width, area.y + area.height;
    if right < area.x {
      x, y := right, main.y;
    } else if areaRight < main.x {
      x, y := areaRight, main.y;
    } else {
      var stray := if area.x < main.x then area.x else areaRight - 1;
      if main.y < area.y && bottom < area.y {
        x, y := area.x, bottom;
      } else if main.y < area.y && (area.x < main.x || right < areaRight) {
        x, y := stray, main.y;
      } else if areaBottom < main.y {
        x, y := area.x, areaBottom;
      } else {
        x, y := stray, areaBottom;
      }
    }
    CoveredCases(main, area, x, y);
  }

  predicate Within(inner: Window, outer: Window) {
    && outer.x <= inner.x && inner.x + inner.width <= outer.x + outer.width
    && outer.y <= inner.y && inner.y + inner.height <= outer.y + outer.height
  }

  /** An area inside the window can be cut out, and its rectangles stay inside the window. */
  lemma InnerAreaIsCuttable(main: Window, area: Window)
    requires Within(area, main)
    ensures Cuttable(main, area)
    ensures forall i :: 0 <= i < |Rectangles(main, area)| ==> Within(Rectangles(main, area)[i], main)
  {}
}
