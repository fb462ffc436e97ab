/**
 * The window-placement helpers of WndLib.cpp: `CentreWindow`,
 * `ClampToDesktop` and the pixel height `EasyCreateFont` asks for.  Window
 * rectangles and the work area are inputs (what `GetWindowRect` and
 * `SystemParametersInfo(SPI_GETWORKAREA)` report); the results are the
 * positions passed to `SetWindowPos` and the height passed to `CreateFont`.
 */
module Geometry {
  import opened Wrappers
  import opened CInt

  /** A `RECT`: left and top inclusive, right and bottom exclusive. */
  datatype Rect = Rect(left: int, top: int, right: int, bottom: int)

  datatype Point = Point(x: int, y: int)

  function Width(r: Rect): int { r.right - r.left }

  function Height(r: Rect): int { r.bottom - r.top }

  /** `OffsetRect`. */
  function Offset(r: Rect, dx: int, dy: int): (o: Rect)
    ensures Width(o) == Width(r) && Height(o) == Height(r)
  {
    Rect(r.left + dx, r.top + dy, r.right + dx, r.bottom + dy)
  }

  predicate Inside(r: Rect, outer: Rect)
  {
    outer.left <= r.left && r.right <= outer.right && outer.top <= r.top && r.bottom <= outer.bottom
  }

  // ---------------------------------------------------------------------
  // CentreWindow

  /**
   * The offset of an inner span of length `inner` centred in an outer span of
   * length `outer` starting at `start`, halving with C's truncating division.
   * The two margins differ by at most one; when the inner span fits, the odd
   * pixel goes to the far margin, and when it overhangs, to the near one.
   */
  function CentreSpan(start: int, outer: int, inner: int): (pos: int)
    ensures var near, far := pos - start, (start + outer) - (pos + inner);
      && (outer >= inner ==> 0 <= far - near <= 1)
      && (outer < inner ==> -1 <= far - near <= 0)
  {
    Quot(outer - inner, 2) + start
  }

  /**
   * `CentreWindow(parent, child)`: the new top-left corner of `child`,
   * centred on the parent's window rectangle, or on the work area when there
   * is no parent.  The child's size is kept.
   */
  function CentreWindow(parent: Option<Rect>, workArea: Rect, child: Rect): (p: Point)
    ensures var outer := if parent.Some? then parent.value else workArea;
      && p.x == CentreSpan(outer.left, Width(outer), Width(child))
      && p.y == CentreSpan(outer.top, Height(outer), Height(child))
  {
    var outer := if parent.Some? then parent.value else workArea;
    Point(Quot(Width(outer) - Width(child), 2) + outer.left,
          Quot(Height(outer) - Height(child), 2) + outer.top)
  }

  /** Centring depends only on the child's size, so centring a centred window leaves it where it is. */
  lemma CentreWindowStable(parent: Option<Rect>, workArea: Rect, child: Rect)
    ensures var p := CentreWindow(parent, workArea, child);
      CentreWindow(parent, workArea, Offset(child, p.x - child.left, p.y - child.top)) == p
  {
  }

  // ---------------------------------------------------------------------
  // ClampToDesktop

  /**
   * `ClampToDesktop`: the window moved back onto the work area, right and
   * bottom edges first, then left and top, so that when the window is larger
   * than the work area its top-left corner wins.
   */
  function ClampToDesktop(wnd: Rect, desk: Rect): (r: Rect)
    ensures Width(r) == Width(wnd) && Height(r) == Height(wnd)
    ensures r.left >= desk.left && r.top >= desk.top
    ensures Width(wnd) <= Width(desk) ==> desk.left <= r.left && r.right <= desk.right
    ensures Height(wnd) <= Height(desk) ==> desk.top <= r.top && r.bottom <= desk.bottom
    ensures Width(wnd) > Width(desk) ==> r.left == desk.left
    ensures Height(wnd) > Height(desk) ==> r.top == desk.top
    ensures Inside(wnd, desk) ==> r == wnd
  {
    var a := if wnd.right > desk.right then Offset(wnd, desk.right - wnd.right, 0) else wnd;
    var b := if a.bottom > desk.bottom then Offset(a, 0, desk.bottom - a.bottom) else a;
    var c := if b.left < desk.left then Offset(b, desk.left - b.left, 0) else b;
    if c.top < desk.top then Offset(c, 0, desk.top - c.top) else c
  }

  /** Clamping a clamped window changes nothing. */
  lemma ClampToDesktopIdempotent(wnd: Rect, desk: Rect)
    ensures ClampToDesktop(ClampToDesktop(wnd, desk), desk) == ClampToDesktop(wnd, desk)
  {
    var r := ClampToDesktop(wnd, desk);
    if Width(wnd) <= Width(desk) && Height(wnd) <= Height(desk) {
      assert Inside(r, desk);
    }
  }

  // ---------------------------------------------------------------------
  // EasyCreateFont

  /**
   * The pixel height `EasyCreateFont` requests for a size in tenths of a
   * point at `logPixelsY` dots per inch: `(decipts * dpi + 320) / 720` in
   * C's `int` division.  For a non-negative size this is the exact height
   * `decipts * dpi / 720` rounded, with fractions from 4/9 upwards rounded up.
   */
  function FontPixelHeight(decipts: int, logPixelsY: int): (h: int)
    ensures var scaled := decipts * logPixelsY;
      scaled + 320 >= 0 ==> 720 * h <= scaled + 320 < 720 * h + 720
  {
    Quot(decipts * logPixelsY + 320, 720)
  }

  /** A larger point size never gives a smaller font. */
  lemma FontPixelHeightMonotone(d1: int, d2: int, logPixelsY: nat)
    requires 0 <= d1 <= d2
    ensures FontPixelHeight(d1, logPixelsY) <= FontPixelHeight(d2, logPixelsY)
  {
    var a, b := d1 * logPixelsY, d2 * logPixelsY;
    assert a <= b by {
      assert b - a == (d2 - d1) * logPixelsY;
    }
  }

  /** Ten points on a 96 dpi screen is 13 pixels: 13.33 rounds down. */
  lemma TenPointsAt96Dpi()
    ensures FontPixelHeight(100, 96) == 13
  {
  }
}
