/** The decisions render() makes, without the drawing itself: which half of the
    background image is shown, which text is drawn and in which style, whether
    the caret glyph is appended, and whether the focus outline is drawn. */
module Render {
  import opened Utf8
  import opened Geometry

  /** The caret glyph '|'. */
  const Caret: byte := 0x7C

  datatype TextStyle = Plain | Shadowed

  /** The caret is shown in edit mode during the first fps frames of the
      2 * fps frame blink cycle. */
  predicate CaretVisible(editMode: bool, cursorFrame: int, fps: int) {
    editMode && cursorFrame < fps
  }

  /** The string handed to the font: the trimmed text, with the caret glyph
      appended exactly when the caret is visible. */
  function DisplayedText(trimmed: seq<byte>, editMode: bool, cursorFrame: int, fps: int): (r: seq<byte>)
    ensures |r| >= |trimmed| && r[..|trimmed|] == trimmed
    ensures |r| == |trimmed| + 1 <==> CaretVisible(editMode, cursorFrame, fps)
    ensures |r| == |trimmed| + 1 ==> r[|trimmed|] == Caret
    ensures !CaretVisible(editMode, cursorFrame, fps) ==> r == trimmed
  {
    if editMode then
      (if cursorFrame < fps then trimmed + [Caret] else trimmed)
    else
      trimmed
  }

  /** Edit mode draws the text shadowed, otherwise plain. */
  function StyleFor(editMode: bool): (s: TextStyle)
    ensures s == Shadowed <==> editMode
  {
    if editMode then Shadowed else Plain
  }

  /** The source rectangle cut from the two-frame background image: the top
      half when unfocused, the bottom half in edit mode. */
  function BackgroundClip(pos: Rect, editMode: bool): (r: Rect)
    ensures r.x == 0 && r.w == pos.w && r.h == pos.h
    ensures editMode ==> r.y == pos.h
    ensures !editMode ==> r.y == 0
  {
    Rect(0, if editMode then pos.h else 0, pos.w, pos.h)
  }

  /** The focus outline is drawn when the host gave the widget focus, it is not
      in edit mode, and the outline fits the clipping frame. */
  predicate FocusOutlineDrawn(inFocus: bool, editMode: bool, pos: Rect, frame: Rect, offset: Point) {
    inFocus && !editMode && FocusRectFits(pos, frame, offset)
  }

  /** Edit mode and the focus outline exclude each other, and without a frame
      the outline is drawn exactly when focused outside edit mode. */
  lemma FocusOutlineConditions(inFocus: bool, editMode: bool, pos: Rect, frame: Rect, offset: Point)
    ensures FocusOutlineDrawn(inFocus, editMode, pos, frame, offset) ==> inFocus && !editMode
    ensures frame.w == 0 && frame.h == 0 ==>
      (FocusOutlineDrawn(inFocus, editMode, pos, frame, offset) <==> inFocus && !editMode)
  {
  }
}
