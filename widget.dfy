/** The text box as the program has it: an object whose methods update its
    fields in place and write the input system's shared key-lock array. Each
    state-changing method is proved to produce exactly the new state that the
    value-level functions of FrameStep, Geometry and Render describe. */
module Widget {
  import opened Utf8
  import opened Geometry
  import opened Render
  import opened FrameStep

  datatype Option<T> = None | Some(value: T)

  /** The font library's truncation of a text to a pixel width. */
  type Trimmer = (seq<byte>, int) -> seq<byte>

  /** Size of a loaded background image, in pixels. */
  datatype ImageSize = ImageSize(width: nat, height: nat)

  /** What one render() call would draw: the background clip when there is a
      background, the text string and its style, and whether the focus
      outline is drawn. */
  datatype View = View(background: Option<Rect>, caption: seq<byte>, style: TextStyle, outline: bool)

  /** The input system's state for the current frame. The widget reads the
      mouse, the held keys and the typed bytes, and reads and writes the key
      locks, which every widget of the frame shares. */
  class InputState {
    const keys: Keys
    const pressing: array<bool>
    const lock: array<bool>
    var mouse: Point
    var inkeys: seq<byte>

    ghost predicate Valid()
      reads this
    {
      pressing != lock && pressing.Length == lock.Length && KeysFit(keys, lock.Length)
    }

    /** The read-only part of the frame's input, as a value. */
    function CurrentFrame(): Frame
      reads this, pressing
    {
      Frame(mouse, pressing[..], inkeys)
    }

    constructor (keyCount: nat, keys: Keys)
      requires KeysFit(keys, keyCount)
      ensures Valid() && fresh(pressing) && fresh(lock)
      ensures this.keys == keys && lock.Length == keyCount
      ensures forall i :: 0 <= i < keyCount ==> !pressing[i] && !lock[i]
      ensures mouse == Point(0, 0) && inkeys == []
    {
      this.keys := keys;
      pressing := new bool[keyCount](_ => false);
      lock := new bool[keyCount](_ => false);
      mouse := Point(0, 0);
      inkeys := [];
    }
  }

  /** The single-line text box. fps is the frame rate MAX_FRAMES_PER_SEC,
      fontHeight the regular font's line height, and trim the font library's
      truncation of a text to a pixel width. */
  class WidgetInput {
    const fps: int
    const fontHeight: int
    const trim: Trimmer
    const hasBackground: bool

    var enabled: bool
    var pressed: bool
    var hover: bool
    var cursorFrame: int
    var delFrame: int
    var maxDelFrame: int
    var editMode: bool
    var maxLength: int
    var onlyNumbers: bool
    var acceptToDefocus: bool
    var text: seq<byte>
    var trimmedText: seq<byte>

    var pos: Rect
    var posBase: Point
    var fontPos: Point
    var localFrame: Rect
    var localOffset: Point
    var inFocus: bool

    ghost predicate Valid()
      reads this
    {
      fps > 0 && StateOk(Fields(), fps)
    }

    /** The settings logic() reads. */
    function Settings(): Config
      reads this
    {
      Config(enabled, onlyNumbers, acceptToDefocus, pos, fontHeight)
    }

    /** The fields logic() writes, besides the trimmed text. */
    function Fields(): State
      reads this
    {
      State(pressed, hover, editMode, text, cursorFrame, delFrame, maxDelFrame)
    }

    /** A new box, with the background image's size when it loaded: its width,
        and half its height, since the image stacks the unfocused and the
        edit-mode appearance. A missing image leaves a zero-size box. */
    constructor (image: Option<ImageSize>, fps: int, fontHeight: int, trim: Trimmer)
      requires fps > 0
      ensures Valid()
      ensures this.fps == fps && this.fontHeight == fontHeight && this.trim == trim
      ensures Fields() == State(false, false, false, [], 0, 0, 0) && trimmedText == []
      ensures enabled && !onlyNumbers && acceptToDefocus && maxLength == 0
      ensures hasBackground == image.Some?
      ensures pos.x == 0 && pos.y == 0
      ensures image.Some? ==> pos.w == image.value.width && pos.h == image.value.height / 2
      ensures image.None? ==> pos.w == 0 && pos.h == 0
    {
      this.fps := fps;
      this.fontHeight := fontHeight;
      this.trim := trim;
      enabled := true;
      pressed := false;
      hover := false;
      cursorFrame := 0;
      delFrame := 0;
      maxDelFrame := 0;
      editMode := false;
      maxLength := 0;
      onlyNumbers := false;
      acceptToDefocus := true;
      text := [];
      trimmedText := [];
      posBase := Point(0, 0);
      fontPos := Point(0, 0);
      localFrame := Rect(0, 0, 0, 0);
      localOffset := Point(0, 0);
      inFocus := false;
      match image {
        case Some(size) =>
          hasBackground := true;
          pos := Rect(0, 0, size.width, size.height / 2);
        case None =>
          hasBackground := false;
          pos := Rect(0, 0, 0, 0);
      }
    }

    /** Places the box at (x, y) inside its container and puts the text origin
        half a line in from the left and vertically centred. */
    method SetPosition(x: int, y: int)
      modifies this`pos, this`fontPos
      ensures pos == Rect(PlacedOrigin(x, y, localFrame, localOffset).x,
                          PlacedOrigin(x, y, localFrame, localOffset).y, old(pos.w), old(pos.h))
      ensures fontPos == TextOrigin(pos, fontHeight)
    {
      pos := pos.(x := x + localFrame.x - localOffset.x, y := y + localFrame.y - localOffset.y);
      fontPos := Point(pos.x + Half(fontHeight), pos.y + Half(pos.h) - Half(fontHeight));
    }

    /** Places the box at its base position moved by an offset. */
    method SetPos(offsetX: int, offsetY: int)
      modifies this`pos, this`fontPos
      ensures pos == Rect(PlacedOrigin(posBase.x + offsetX, posBase.y + offsetY, localFrame, localOffset).x,
                          PlacedOrigin(posBase.x + offsetX, posBase.y + offsetY, localFrame, localOffset).y,
                          old(pos.w), old(pos.h))
      ensures fontPos == TextOrigin(pos, fontHeight)
    {
      SetPosition(posBase.x + offsetX, posBase.y + offsetY);
    }

    /** Recomputes the displayed text from the buffer, one line height narrower
        than the box. */
    method TrimText()
      modifies this`trimmedText
      ensures trimmedText == trim(text, pos.w - fontHeight)
    {
      trimmedText := trim(text, pos.w - fontHeight);
    }

    /** Forces edit mode on. */
    method Activate()
      modifies this`editMode
      ensures editMode
    {
      if !editMode {
        editMode := true;
      }
    }

    /** checkClick on the object: reports a completed click and updates the
        armed flag and the primary button's lock as ClickStep says. */
    method CheckClick(inpt: InputState) returns (clicked: bool)
      requires inpt.Valid()
      modifies this`pressed, inpt.lock
      ensures var c := ClickStep(enabled, old(pressed), pos, inpt.mouse, inpt.pressing[..],
                                 old(inpt.lock[..]), inpt.keys.main1);
        clicked == c.clicked && pressed == c.pressed && inpt.lock[..] == c.lock
    {
      if !enabled {
        return false;
      }
      if inpt.lock[inpt.keys.main1] {
        return false;
      }
      if pressed && !inpt.lock[inpt.keys.main1] {
        pressed := false;
        if IsWithinRect(pos, inpt.mouse) {
          return true;
        }
      }
      pressed := false;
      if inpt.pressing[inpt.keys.main1] {
        if IsWithinRect(pos, inpt.mouse) {
          inpt.lock[inpt.keys.main1] := true;
          pressed := true;
        }
      }
      return false;
    }

    /** Locks every held key: the loop over the input system's key count. */
    method LockHeldKeys(inpt: InputState)
      requires inpt.Valid()
      modifies inpt.lock
      ensures inpt.lock[..] == LockPressed(inpt.pressing[..], old(inpt.lock[..]))
    {
      var i := 0;
      while i < inpt.lock.Length
        invariant 0 <= i <= inpt.lock.Length
        invariant forall j :: 0 <= j < i ==> inpt.lock[j] == (if inpt.pressing[j] then true else old(inpt.lock[j]))
        invariant forall j :: i <= j < inpt.lock.Length ==> inpt.lock[j] == old(inpt.lock[j])
      {
        if inpt.pressing[i] {
          inpt.lock[i] := true;
        }
        i := i + 1;
      }
    }

    /** logic(x, y): one frame of the box, exactly as LogicStep describes it;
        the trimmed text is recomputed when the step says so. HandleFocus,
        HandleEditing and the methods they call are consecutive sections of
        this one function, split so that each is proved on its own. */
    method Logic(x: int, y: int, inpt: InputState) returns (handled: bool)
      requires Valid() && inpt.Valid()
      modifies this`pressed, this`hover, this`editMode, this`text, this`trimmedText,
               this`cursorFrame, this`delFrame, this`maxDelFrame, inpt.lock
      ensures Valid() && handled
      ensures var r := LogicStep(old(Settings()), fps, inpt.keys, old(Fields()), x, y,
                                 inpt.CurrentFrame(), old(inpt.lock[..]));
        Fields() == r.state && inpt.lock[..] == r.lock &&
        TrimmedAfter(r.retrim, old(trimmedText))
    {
      HandleFocus(x, y, inpt);
      assert Settings() == old(Settings()) && inpt.CurrentFrame() == old(inpt.CurrentFrame());
      if editMode {
        HandleEditing(inpt);
        assert Settings() == old(Settings()) && inpt.CurrentFrame() == old(inpt.CurrentFrame());
      }
      handled := true;
    }

    /** The focus part of logic(x, y), as FocusStep describes it. */
    method HandleFocus(x: int, y: int, inpt: InputState)
      requires Valid() && inpt.Valid()
      modifies this`pressed, this`hover, this`editMode, inpt.lock
      ensures Valid()
      ensures var r := FocusStep(Settings(), inpt.keys, old(Fields()), x, y,
                                 inpt.CurrentFrame(), old(inpt.lock[..]));
        Fields() == r.state && inpt.lock[..] == r.lock
    {
      hover := IsWithinRect(pos, Point(x, y));
      var clicked := CheckClick(inpt);
      if clicked {
        editMode := true;
      }
      // clicking elsewhere ends edit mode
      if inpt.pressing[inpt.keys.main1] {
        if !IsWithinRect(pos, inpt.mouse) {
          editMode := false;
        }
      }
    }

    /** The cached trimmed text after a step: recomputed from the text when
        the step asks for it, otherwise the one from before the step. */
    predicate TrimmedAfter(retrim: bool, before: seq<byte>)
      reads this`trimmedText, this`text, this`pos
    {
      trimmedText == if retrim then trim(text, pos.w - fontHeight) else before
    }

    /** The edit-mode part of logic(), as EditStep describes it. */
    method HandleEditing(inpt: InputState)
      requires Valid() && inpt.Valid()
      modifies this`editMode, this`text, this`trimmedText,
               this`cursorFrame, this`delFrame, this`maxDelFrame, inpt.lock
      ensures Valid()
      ensures var r := EditStep(Settings(), fps, inpt.keys, old(Fields()),
                                inpt.CurrentFrame(), old(inpt.lock[..]));
        Fields() == r.state && inpt.lock[..] == r.lock &&
        TrimmedAfter(r.retrim, old(trimmedText))
    {
      HandleInput(inpt);
      assert inpt.CurrentFrame() == old(inpt.CurrentFrame());
      HandleClose(inpt);
    }

    /** Typing, then the backspace handler, as InputStep describes them. */
    method HandleInput(inpt: InputState)
      requires Valid() && inpt.Valid()
      modifies this`text, this`trimmedText, this`delFrame, this`maxDelFrame, inpt.lock
      ensures Valid()
      ensures var r := InputStep(Settings(), fps, inpt.keys, old(Fields()),
                                 inpt.CurrentFrame(), old(inpt.lock[..]));
        Fields() == r.state && inpt.lock[..] == r.lock &&
        TrimmedAfter(r.retrim, old(trimmedText))
    {
      HandleTyping(inpt);
      HandleBackspace(inpt);
    }

    /** The caret blink, then the defocus keys, as CloseStep describes them. */
    method HandleClose(inpt: InputState)
      requires Valid() && inpt.Valid()
      modifies this`editMode, this`cursorFrame, inpt.lock
      ensures Valid()
      ensures var r := CloseStep(Settings(), fps, inpt.keys, old(Fields()),
                                 inpt.CurrentFrame(), old(inpt.lock[..]));
        Fields() == r.state && inpt.lock[..] == r.lock
    {
      AnimateCursor();
      HandleDefocus(inpt);
    }

    /** The caret is visible one second and hidden the next. */
    method AnimateCursor()
      modifies this`cursorFrame
      ensures cursorFrame == Blink(old(cursorFrame), fps)
    {
      cursorFrame := cursorFrame + 1;
      if cursorFrame == fps + fps {
        cursorFrame := 0;
      }
    }

    /** Accept (when it may defocus) or else Cancel leaves edit mode and locks
        its key. */
    method HandleDefocus(inpt: InputState)
      requires inpt.Valid()
      modifies this`editMode, inpt.lock
      ensures var d := DefocusStep(old(editMode), acceptToDefocus, inpt.pressing[..], old(inpt.lock[..]), inpt.keys);
        editMode == d.editMode && inpt.lock[..] == d.lock
    {
      var keys := inpt.keys;
      if acceptToDefocus && inpt.pressing[keys.accept] && !inpt.lock[keys.accept] {
        inpt.lock[keys.accept] := true;
        editMode := false;
      } else if inpt.pressing[keys.cancel] && !inpt.lock[keys.cancel] {
        inpt.lock[keys.cancel] := true;
        editMode := false;
      }
    }

    /** The typing part of logic(): append the typed bytes when the filter
        accepts them, and lock every held key whenever bytes were typed. */
    method HandleTyping(inpt: InputState)
      requires inpt.Valid()
      modifies this`text, this`trimmedText, inpt.lock
      ensures text == TypedText(old(text), inpt.inkeys, onlyNumbers)
      ensures trimmedText == if AcceptsInput(inpt.inkeys, onlyNumbers) then trim(text, pos.w - fontHeight)
                             else old(trimmedText)
      ensures inpt.lock[..] == if inpt.inkeys != [] then LockPressed(inpt.pressing[..], old(inpt.lock[..]))
                               else old(inpt.lock[..])
    {
      if inpt.inkeys != [] {
        // only_numbers restricts the input to the digits 0-9
        if !onlyNumbers || IsDigit(inpt.inkeys[0]) {
          text := text + inpt.inkeys;
          TrimText();
        }
        LockHeldKeys(inpt);
      }
    }

    /** The backspace handler of logic(), in edit mode. */
    method HandleBackspace(inpt: InputState)
      requires inpt.Valid() && fps > 0
      modifies this`text, this`trimmedText, this`delFrame, this`maxDelFrame, inpt.lock
      ensures var b := DelStep(old(text), old(delFrame), old(maxDelFrame),
                               inpt.pressing[inpt.keys.del], old(inpt.lock[inpt.keys.del]), fps);
        text == b.text && delFrame == b.delFrame && maxDelFrame == b.maxDelFrame &&
        inpt.lock[..] == old(inpt.lock[..])[inpt.keys.del := b.locked] &&
        trimmedText == (if b.deleted then trim(text, pos.w - fontHeight) else old(trimmedText))
    {
      var del := inpt.keys.del;
      if !inpt.pressing[del] {
        maxDelFrame := fps;
      }
      if !inpt.lock[del] && inpt.pressing[del] {
        inpt.lock[del] := true;
        delFrame := 0;
        maxDelFrame := Max(fps / 8, maxDelFrame - fps / 4);
        text := DeleteLastCodePoint(text);
        TrimText();
      } else if inpt.pressing[del] {
        delFrame := delFrame + 1;
      }
      if inpt.pressing[del] && inpt.lock[del] && delFrame >= maxDelFrame {
        inpt.lock[del] := false;
      }
    }

    /** logic() without arguments: logic at the input system's mouse position. */
    method LogicAtMouse(inpt: InputState)
      requires Valid() && inpt.Valid()
      modifies this`pressed, this`hover, this`editMode, this`text, this`trimmedText,
               this`cursorFrame, this`delFrame, this`maxDelFrame, inpt.lock
      ensures Valid()
      ensures var r := LogicStep(old(Settings()), fps, inpt.keys, old(Fields()),
                                 inpt.mouse.x, inpt.mouse.y, inpt.CurrentFrame(), old(inpt.lock[..]));
        Fields() == r.state && inpt.lock[..] == r.lock &&
        TrimmedAfter(r.retrim, old(trimmedText))
    {
      var _ := Logic(inpt.mouse.x, inpt.mouse.y, inpt);
    }

    /** What render() draws from the current fields. Outside edit mode: the
        top half of the background and the plain trimmed text, possibly with
        the focus outline. In edit mode: the bottom half, the shadowed text
        with the caret glyph during the first half of the blink cycle, and
        never the outline. */
    function Render(): (v: View)
      reads this
      ensures v.background.Some? <==> hasBackground
      ensures v.background.Some? ==>
        v.background.value == Rect(0, if editMode then pos.h else 0, pos.w, pos.h)
      ensures !editMode ==> v.caption == trimmedText && v.style == Plain
      ensures editMode ==> v.style == Shadowed
      ensures editMode ==>
        v.caption == if cursorFrame < fps then trimmedText + [Caret] else trimmedText
      ensures v.outline ==> inFocus && !editMode
      ensures localFrame.w == 0 && localFrame.h == 0 ==> (v.outline <==> inFocus && !editMode)
      ensures var r := FocusRect(pos, localFrame, localOffset);
        v.outline <==> (inFocus && !editMode &&
                        (localFrame.w != 0 ==> SpanWithin(r.x, r.w, localFrame.x, localFrame.w)) &&
                        (localFrame.h != 0 ==> SpanWithin(r.y, r.h, localFrame.y, localFrame.h)))
    {
      FocusRectFitsPerAxis(pos, localFrame, localOffset);
      View(if hasBackground then Some(BackgroundClip(pos, editMode)) else None,
           DisplayedText(trimmedText, editMode, cursorFrame, fps),
           StyleFor(editMode),
           FocusOutlineDrawn(inFocus, editMode, pos, localFrame, localOffset))
    }
  }
}
