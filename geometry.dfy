/** Screen geometry of the text box: its bounds, where setPosition puts it and
    its text, and the test that decides whether the focus outline fits the
    clipping frame of the container that holds the widget. */
module Geometry {

  datatype Point = Point(x: int, y: int)

  datatype Rect = Rect(x: int, y: int, w: int, h: int)

  /** The point lies inside the rectangle, left and top edges included, right
      and bottom edges excluded (the toolkit's isWithinRect). */
  predicate IsWithinRect(r: Rect, p: Point) {
    r.x <= p.x < r.x + r.w && r.y <= p.y < r.y + r.h
  }

  /** C++ integer division by two, which truncates toward zero. */
  function Half(n: int): (r: int)
    ensures -1 <= n - 2 * r <= 1
    ensures n >= 0 ==> 0 <= r && n - 2 * r == n % 2
    ensures n < 0 ==> r <= 0 && 2 * r - n == (-n) % 2
  {
    if n >= 0 then n / 2 else -((-n) / 2)
  }

  /** The absolute origin setPosition computes for a requested origin: shifted
      by the clipping frame's origin and back by the container's scroll offset. */
  function PlacedOrigin(x: int, y: int, frame: Rect, offset: Point): (p: Point)
    ensures p.x - frame.x + offset.x == x && p.y - frame.y + offset.y == y
  {
    Point(x + frame.x - offset.x, y + frame.y - offset.y)
  }

  /** Where setPosition puts the text: half a line height in from the left
      edge, and, for non-negative sizes, vertically centred in the box: the gaps
      above and below the text differ by at most the one pixel the truncating
      divisions lose. */
  function TextOrigin(pos: Rect, fontHeight: int): (p: Point)
    ensures p.x - pos.x == Half(fontHeight)
    ensures pos.h >= 0 && fontHeight >= 0 ==>
      -1 <= (p.y - pos.y) - (pos.y + pos.h - (p.y + fontHeight)) <= 1
  {
    Point(pos.x + Half(fontHeight), pos.y + Half(pos.h) - Half(fontHeight))
  }

  /** The focus outline: a box of the widget's size whose top-left corner is the
      widget origin moved by the frame origin and back by the scroll offset. */
  function FocusRect(pos: Rect, frame: Rect, offset: Point): (r: Rect)
    ensures r.w == pos.w && r.h == pos.h
    ensures r.x - pos.x == frame.x - offset.x && r.y - pos.y == frame.y - offset.y
  {
    var topLeft := PlacedOrigin(pos.x, pos.y, frame, offset);
    Rect(topLeft.x, topLeft.y, pos.w, pos.h)
  }

  /** The render test as written: start from "draw", and veto it on each axis
      where the frame has a non-zero extent and a corner of the outline lies
      beyond the frame's edges. */
  predicate FocusRectFits(pos: Rect, frame: Rect, offset: Point) {
    var outline := FocusRect(pos, frame, offset);
    var topLeft := Point(outline.x, outline.y);
    var bottomRight := Point(topLeft.x + outline.w, topLeft.y + outline.h);
    var vetoX := frame.w != 0 && (topLeft.x < frame.x || bottomRight.x > frame.x + frame.w);
    var vetoY := frame.h != 0 && (topLeft.y < frame.y || bottomRight.y > frame.y + frame.h);
    !vetoX && !vetoY
  }

  /** The interval [lo, lo + len] lies within [frameLo, frameLo + extent]. */
  predicate SpanWithin(lo: int, len: int, frameLo: int, extent: int) {
    frameLo <= lo && lo + len <= frameLo + extent
  }

  /** The fit test is an axis-by-axis containment of the outline in the frame,
      where a zero extent switches the check off for that axis. */
  lemma FocusRectFitsPerAxis(pos: Rect, frame: Rect, offset: Point)
    ensures FocusRectFits(pos, frame, offset) <==>
      var r := FocusRect(pos, frame, offset);
      (frame.w != 0 ==> SpanWithin(r.x, r.w, frame.x, frame.w)) &&
      (frame.h != 0 ==> SpanWithin(r.y, r.h, frame.y, frame.h))
  {
  }

  /** With both extents active, every pixel of a fitting outline lies inside
      the frame: the outline cannot bleed out of a scrolled container. */
  lemma FittingOutlineStaysInFrame(pos: Rect, frame: Rect, offset: Point, p: Point)
    requires frame.w != 0 && frame.h != 0
    requires FocusRectFits(pos, frame, offset)
    requires IsWithinRect(FocusRect(pos, frame, offset), p)
    ensures IsWithinRect(frame, p)
  {
  }

  /** A frame with zero extent on both axes never vetoes the outline. */
  lemma InactiveFrameAlwaysFits(pos: Rect, frame: Rect, offset: Point)
    requires frame.w == 0 && frame.h == 0
    ensures FocusRectFits(pos, frame, offset)
  {
  }

  /** Moving the requested origin moves the placed origin by the same amount. */
  lemma PlacementIsTranslation(x: int, y: int, dx: int, dy: int, frame: Rect, offset: Point)
    ensures PlacedOrigin(x + dx, y + dy, frame, offset) ==
      Point(PlacedOrigin(x, y, frame, offset).x + dx, PlacedOrigin(x, y, frame, offset).y + dy)
  {
  }
}
