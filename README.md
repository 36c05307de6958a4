# WidgetInput: a verified model of FLARE's single-line text box

FLARE's `WidgetInput` is the single-line text-entry box of the game's menus.
Once per frame, `logic(x, y)` does the following:

- updates the hover flag;
- runs `checkClick`, the press/release detection of the primary mouse
  button, guarded by the input system's per-key lock array;
- leaves edit mode when the button is held outside the box;
- in edit mode:
  - appends the typed bytes, optionally only when the first one is a digit;
  - when bytes were typed, locks every held key, which also swallows a
    held DEL, Accept or Cancel in that frame;
  - handles backspace, including key repeat that speeds up while the key
    is held;
  - advances the caret blink counter;
  - leaves edit mode on Accept or Cancel.

`render()` decides which half of the background image to show, the text
string and its style, whether to show the caret, and whether the focus
outline fits the container's clipping frame. `setPosition` places the box
and its text.

The project has six modules:

- `Utf8`: the text buffer as bytes.
  - `Backspace` is the backward scan past continuation bytes, as a function.
  - `DeleteLastCodePoint` is the handler's loop, proved equal to it.
  - Lemmas show that on well-formed UTF-8, one backspace removes exactly
    one encoded character and leaves well-formed text.
- `Geometry`: rectangles and C++ truncating division by two, as used in
  `setPosition`. Also the focus-outline fit test of `render()` and lemmas
  about what it means.
- `Render`: the decisions `render()` makes (caret, style, background
  half, focus outline), without the drawing.
- `FrameStep`: one call of `logic(x, y)` as a pure function `LogicStep`
  over values:
  - `Config` holds the settings;
  - `State` holds the fields the frame writes;
  - `Frame` holds the input system's mouse, held keys and typed bytes;
  - the lock array is a `seq<bool>`.

  Each branch of the source is a small function with its own contract:
  `ClickStep`, `TypedText`, `LockPressed`, `DelStep`, `Blink`,
  `DefocusStep`.
- `FrameProperties`: what one frame and a run of frames guarantee:
  - focus changes, and that click-away wins over a click;
  - which locks can move;
  - how the text can change;
  - the digit filter;
  - the backspace repeat interval and its floor;
  - the caret being shown exactly half of every blink cycle.
- `Widget`: the object itself.
  - `class InputState` holds the input system's arrays (`pressing`,
    `lock`), the mouse and the typed bytes.
  - `class WidgetInput` has the widget's fields and imperative methods.
  - Every state-changing method is proved to leave exactly the state that
    the matching `FrameStep` or `Geometry` function computes from the old
    state; `Activate` only sets edit mode, and `TrimText` applies the font's
    truncation `trim`. The widget's `Render` changes nothing; its contract
    states what it draws through the `Render` module's decisions and the
    per-axis meaning of the outline test.
  - `logic(x, y)` is one function in the source. The model splits it into
    consecutive sections, each proved on its own: `HandleFocus` and
    `HandleEditing`, the latter made of `HandleInput` and `HandleClose`. The
    matching value-level stages are `FocusStep`, `InputStep` and `CloseStep`.
  - The cached trimmed text is recomputed whenever the step says the text
    was appended to or shortened.

## Model

| member | source | states |
|---|---|---|
| Utf8.ScanBack | src/WidgetInput.cpp:123 | the scan stops at index 0 or at a non-continuation byte, and every byte it stepped over is a continuation byte |
| Utf8.Backspace | src/WidgetInput.cpp:122-124 | empty text stays empty; otherwise the result is a strict prefix of the text, ending just before a non-continuation byte (or empty), and everything removed after that byte is continuation bytes |
| Utf8.DeleteLastCodePoint | src/WidgetInput.cpp:122-124 | the loop as written, including the wrapped `-1` start index on empty text, returns exactly `Backspace(text)` |
| Utf8.ScanBackUnique | src/WidgetInput.cpp:123 | the backward scan stops at the unique index that is 0 or a non-continuation byte with only continuation bytes after it |
| Utf8.BackspaceAfterChar | src/WidgetInput.cpp:121-124 | backspace after appending one encoded character gives back exactly the text before it, whatever that text is |
| Utf8.LastCharStart | src/WidgetInput.cpp:121-124 | every non-empty well-formed UTF-8 text is a well-formed text followed by exactly one encoded character |
| Utf8.BackspaceRemovesOneCodePoint | src/WidgetInput.cpp:121-124 | on non-empty well-formed text, backspace removes exactly one encoded character and what remains is well-formed |
| Utf8.BackspaceKeepsWellFormed | src/WidgetInput.cpp:121-124 | backspace never leaves a truncated code point: well-formed text stays well-formed, the empty case included |
| Geometry.Half | src/WidgetInput.cpp:214-215 | division by two truncating toward zero: the remainder is at most one in size and has the sign of the operand |
| Geometry.PlacedOrigin | src/WidgetInput.cpp:210-211 | the placed origin minus the frame origin plus the scroll offset gives back the requested origin |
| Geometry.TextOrigin | src/WidgetInput.cpp:214-215 | the text starts half a line height in from the left edge, and for non-negative sizes the gaps above and below the text differ by at most one pixel |
| Geometry.FocusRect | src/WidgetInput.cpp:187-190 | the outline has the widget's size and is shifted by the frame origin minus the scroll offset |
| Geometry.FocusRectFits | src/WidgetInput.cpp:193-202 | (definition) the test as written: start from drawing and veto on each axis whose frame extent is non-zero when a corner lies beyond the frame's edges |
| Geometry.FocusRectFitsPerAxis | src/WidgetInput.cpp:194-202 | the veto test is equivalent to containment of the outline's span in the frame's span on each axis whose frame extent is non-zero |
| Geometry.FittingOutlineStaysInFrame | src/WidgetInput.cpp:193-202 | with both frame extents non-zero, every point of a fitting outline lies inside the frame |
| Geometry.InactiveFrameAlwaysFits | src/WidgetInput.cpp:195-202 | a frame with zero width and zero height never vetoes the outline |
| Geometry.PlacementIsTranslation | src/WidgetInput.cpp:209-211 | moving the requested position moves the placed origin by the same amount |
| Render.CaretVisible | src/WidgetInput.cpp:171-175 | (definition) the caret shows exactly in edit mode with the blink counter below fps |
| Render.DisplayedText | src/WidgetInput.cpp:171-181 | the trimmed text is always drawn first; exactly when the caret is visible one more byte, the caret glyph, follows it; otherwise the caption is the trimmed text alone |
| Render.StyleFor | src/WidgetInput.cpp:171-181 | the text is drawn shadowed exactly in edit mode |
| Render.BackgroundClip | src/WidgetInput.cpp:155-159 | the clip has the box's size and shows the bottom half of the image in edit mode and the top half otherwise |
| Render.FocusOutlineDrawn | src/WidgetInput.cpp:183-203 | (definition) the outline is drawn when focused, not in edit mode, and the outline fits the frame |
| Render.FocusOutlineConditions | src/WidgetInput.cpp:183-205 | the outline is only drawn when focused and not editing, and without a clipping frame exactly then |
| FrameStep.ClickStep | src/WidgetInput.cpp:218-249 | disabled or with the button locked, nothing changes; a click is reported only for an armed widget with the mouse inside, and always then when the lock is free; afterwards the widget is armed exactly when the button is held inside and no click was reported; the lock array is unchanged except that newly arming always claims the button's lock |
| FrameStep.AcceptsInput | src/WidgetInput.cpp:96-99 | (definition) typed bytes are taken when there are some and either any input is allowed or the first of them is an ASCII digit, 48 to 57 |
| FrameStep.TypedText | src/WidgetInput.cpp:96-102 | the text is unchanged or has exactly the typed bytes appended, and it is appended to exactly when bytes were typed and the filter accepts them |
| FrameStep.LockPressed | src/WidgetInput.cpp:104-109 | every held key ends locked and every other key's lock is unchanged |
| FrameStep.DelStep | src/WidgetInput.cpp:112-133 | a code point is deleted exactly when DEL is held and unlocked; releasing DEL restores the threshold fps; a deletion restarts the counter and lowers the threshold by fps/4 but not below fps/8; while DEL is held and locked the counter runs and the lock is released once it reaches the threshold; a released lock implies DEL held and the threshold reached; the counters stay in range |
| FrameStep.Blink | src/WidgetInput.cpp:135-138 | the blink counter stays in [0, 2*fps), wraps to 0 exactly from 2*fps - 1, and otherwise counts up by one |
| FrameStep.DefocusStep | src/WidgetInput.cpp:140-148 | Accept (when allowed) takes precedence over Cancel; the firing key leaves edit mode and is locked; the other key's lock is untouched; no lock is released; locks other than Accept and Cancel are unchanged; with neither firing nothing changes |
| FrameStep.EditingFrame | src/WidgetInput.cpp:83-94 | (definition) the editing part runs when the box was in edit mode or checkClick reported a click, unless the button is held outside the box |
| FrameStep.FocusStep | src/WidgetInput.cpp:78-92 | only the armed flag, hover and edit mode change, and no retrim is asked for; hover is whether (x, y) is inside; the armed flag and the lock array are exactly ClickStep's; afterwards the box is in edit mode exactly when it was or ClickStep reported a click, and the button is not held outside the box; edit mode is entered only by a completed click with the lock free and the mouse inside; no lock but the button's moves |
| FrameStep.InputStep | src/WidgetInput.cpp:96-133 | only the text and the repeat counters change; with typed bytes the text is exactly TypedText of them, never shortened; without, it loses one code point exactly when DEL is held and unlocked and is otherwise unchanged; a retrim is asked for exactly when the filter accepts the typed bytes or, without typing, when a code point is deleted, so any change of the text asks for one; the counters and DEL's lock are exactly DelStep's, with DEL counted as locked when typing held it; every other lock is set exactly when it was set or bytes were typed while its key was held |
| FrameStep.CloseStep | src/WidgetInput.cpp:135-148 | only edit mode and the blink counter change, and no retrim is asked for; the counter becomes Blink of the old one; edit mode and locks are exactly DefocusStep's: a firing Accept (held, unlocked, allowed to defocus) ends edit mode and is locked, else a held unlocked Cancel does the same, else edit mode and every lock are unchanged; edit mode can only end; no lock is released and only Accept's and Cancel's can be set |
| FrameStep.EditStep | src/WidgetInput.cpp:94-149 | the armed flag and hover are untouched; the blink counter advances; edit mode can only end, and only while Accept (when it may defocus) or Cancel is held; with typed bytes and DEL distinct from Accept and Cancel it does not end; with typed bytes the text is exactly TypedText, without them it loses one code point exactly when DEL is held and unlocked; any change asks for a retrim; no lock but DEL's is released; with typed bytes every held key other than DEL ends locked; without them no lock other than DEL's, Accept's and Cancel's moves |
| FrameStep.LogicStep | src/WidgetInput.cpp:77-152 | the lock array keeps its length and hover is exactly whether (x, y) lies in the box |
| FrameProperties.StepKeepsStateOk | src/WidgetInput.cpp:112-138 | the counters stay in range from frame to frame: blink counter in [0, 2*fps), threshold in [0, fps], repeat counter non-negative |
| FrameProperties.ClickAwayWins | src/WidgetInput.cpp:83-92 | holding the button outside the box ends edit mode, even in a frame where checkClick reported a click |
| FrameProperties.FocusNeedsReleaseInside | src/WidgetInput.cpp:218-235 | a frame enters edit mode only when the widget is enabled and armed, the button's lock is free and the mouse is inside |
| FrameProperties.IdleFrameKeepsFields | src/WidgetInput.cpp:77-94 | a frame that does not reach the editing part leaves text, counters and trimmed text alone, ends outside edit mode and changes locks only through checkClick |
| FrameProperties.TextChangesByTypingAndOneBackspace | src/WidgetInput.cpp:96-125 | after a frame the text is the old text, the old text with the typed bytes appended, or the old text with one trailing code point removed |
| FrameProperties.TypingSwallowsDelete | src/WidgetInput.cpp:104-125 | in a frame with typed bytes no code point is deleted: the text is TypedText of them in an editing frame and unchanged otherwise |
| FrameProperties.TypingSwallowsDefocus | src/WidgetInput.cpp:104-148 | with distinct keys, an editing frame with typed bytes ends in edit mode, even with Accept or Cancel held |
| FrameProperties.EditModeEndsOnlyByClickAwayOrKey | src/WidgetInput.cpp:83-148 | a box in edit mode leaves it only in a frame where the button is held outside the box, Accept is held and allowed to defocus, or Cancel is held |
| FrameProperties.RetrimWhenTextChanges | src/WidgetInput.cpp:99-125 | whenever a frame changes the text, the trimmed text is recomputed |
| FrameProperties.TypingWithoutDelete | src/WidgetInput.cpp:96-114 | with DEL up, an editing frame appends the typed bytes exactly when the filter accepts them and resets the threshold to fps |
| FrameProperties.LocksOnlyGrowExceptDelete | src/WidgetInput.cpp:104-148 | no key lock other than DEL's is ever released by a frame |
| FrameProperties.TypingLocksHeldKeys | src/WidgetInput.cpp:104-109 | typing in edit mode locks every held key other than DEL |
| FrameProperties.NoTypingLeavesOtherLocks | src/WidgetInput.cpp:96-148 | without typed bytes, a frame touches no lock besides those of the primary button, DEL, Accept and Cancel |
| FrameProperties.DeletionNeedsFreeDeleteKey | src/WidgetInput.cpp:116-125 | without typing, an editing frame removes one code point exactly when DEL is held and its lock is free |
| FrameProperties.AcceptDefocuses | src/WidgetInput.cpp:140-144 | in an editing frame without typed bytes, Accept, when allowed to defocus, held and unlocked, ends edit mode and locks itself, leaving Cancel's lock alone |
| FrameProperties.CancelDefocuses | src/WidgetInput.cpp:145-148 | in an editing frame without typed bytes, Cancel held and unlocked ends edit mode and locks itself when Accept does not fire |
| FrameProperties.PressInsideArms | src/WidgetInput.cpp:239-247 | pressing inside an unarmed enabled box arms it and claims the button's lock |
| FrameProperties.ReleaseInsideFocuses | src/WidgetInput.cpp:226-234 | with the lock released and the mouse inside, an armed box enters edit mode and disarms |
| FrameProperties.ClickInsideFocuses | src/WidgetInput.cpp:218-247 | press inside, then release inside: the box is in edit mode after the second frame |
| FrameProperties.PressOutsideDoesNotFocus | src/WidgetInput.cpp:87-92 | a press that starts outside leaves the box unarmed and outside edit mode, and the next frame cannot enter edit mode |
| FrameProperties.ReleaseOutsideDoesNotFocus | src/WidgetInput.cpp:226-235 | a frame with the mouse outside never enters edit mode |
| FrameProperties.FilterReadsFirstByteOnly | src/WidgetInput.cpp:98-99 | the numbers-only filter's verdict depends on the first typed byte alone |
| FrameProperties.NumbersOnlyKeepsDigits | src/WidgetInput.cpp:98-124 | with at most one byte typed per frame, a numbers-only box that holds only digits keeps holding only digits, through typing and backspace |
| FrameProperties.NumbersOnlyAdmitsTrailingNonDigit | src/WidgetInput.cpp:98-102 | a chunk of a digit followed by a letter passes the numbers-only filter whole |
| FrameProperties.HeldFramesCount | src/WidgetInput.cpp:126-133 | while DEL is held and locked and the counter is below the threshold, held frames only advance the counter |
| FrameProperties.HeldRepeatInterval | src/WidgetInput.cpp:117-133 | after a deletion with threshold m >= 1, holding DEL unlocks it after m frames and deletes again exactly on frame m + 1, with the new threshold at least fps/8 and at most m |
| FrameProperties.HeldAppend | src/WidgetInput.cpp:112-133 | holding DEL for a + b frames is holding it for a frames and then b frames |
| FrameProperties.BlinkRun | src/WidgetInput.cpp:137-138 | within one cycle the blink counter counts up and wraps to 0 exactly at 2*fps |
| FrameProperties.FirstHalfVisible | src/WidgetInput.cpp:175-177 | the caret is shown on every frame whose counter is below fps |
| FrameProperties.SecondHalfHidden | src/WidgetInput.cpp:175-180 | the caret is hidden on every frame whose counter is in [fps, 2*fps) |
| FrameProperties.CaretShownHalfTheCycle | src/WidgetInput.cpp:135-138 | over any 2*fps consecutive editing frames the caret is shown on exactly fps of them, wherever the run starts |
| FrameProperties.EditingFrameBlinks | src/WidgetInput.cpp:135-138 | every frame that reaches the editing part advances the blink counter |
| Widget.WidgetInput.constructor | src/WidgetInput.cpp:26-60 | the initial field values; the box takes the image's width and half its height, or zero size when no image loaded |
| Widget.WidgetInput.SetPosition | src/WidgetInput.cpp:209-216 | the box moves to the placed origin keeping its size, and the text origin is TextOrigin of the new box |
| Widget.WidgetInput.SetPos | src/WidgetInput.cpp:46-48 | SetPosition at the base position plus the offset |
| Widget.WidgetInput.TrimText | src/WidgetInput.cpp:62-65 | the trimmed text is the font's truncation of the text to the box width minus one line height |
| Widget.WidgetInput.Activate | src/WidgetInput.cpp:67-70 | afterwards the box is in edit mode, and nothing else changes |
| Widget.WidgetInput.CheckClick | src/WidgetInput.cpp:218-249 | the result, the armed flag and the lock array are exactly those of ClickStep |
| Widget.WidgetInput.LockHeldKeys | src/WidgetInput.cpp:104-109 | the loop leaves the lock array equal to LockPressed of the held keys and the old locks |
| Widget.WidgetInput.Logic | src/WidgetInput.cpp:77-152 | returns true; the fields and lock array after the call are exactly LogicStep's, the counter invariant is kept, and the trimmed text is recomputed exactly when LogicStep asks for it |
| Widget.WidgetInput.HandleFocus | src/WidgetInput.cpp:78-92 | hover, armed flag, edit mode and locks are exactly FocusStep's |
| Widget.WidgetInput.HandleEditing | src/WidgetInput.cpp:94-149 | fields, locks and trimmed text are exactly EditStep's |
| Widget.WidgetInput.HandleInput | src/WidgetInput.cpp:96-133 | typing then backspace leaves fields, locks and trimmed text exactly as InputStep says |
| Widget.WidgetInput.HandleClose | src/WidgetInput.cpp:135-148 | the blink then the defocus keys leave fields and locks exactly as CloseStep says |
| Widget.WidgetInput.AnimateCursor | src/WidgetInput.cpp:135-138 | the blink counter becomes Blink of the old one |
| Widget.WidgetInput.HandleDefocus | src/WidgetInput.cpp:140-148 | edit mode and locks are exactly DefocusStep's |
| Widget.WidgetInput.HandleTyping | src/WidgetInput.cpp:96-110 | the text becomes TypedText; the trimmed text is recomputed exactly when the filter accepts the typed bytes; the locks become LockPressed exactly when bytes were typed |
| Widget.WidgetInput.HandleBackspace | src/WidgetInput.cpp:112-133 | text, counters and DEL's lock are exactly DelStep's; no other lock changes; the trimmed text is recomputed exactly when a code point was deleted |
| Widget.WidgetInput.LogicAtMouse | src/WidgetInput.cpp:72-75 | Logic at the input system's mouse position |
| Widget.WidgetInput.Render | src/WidgetInput.cpp:154-207 | the background clip is present exactly with a background and is the top half of the image outside edit mode and the bottom half in it; outside edit mode the caption is the trimmed text, drawn plain; in edit mode it is drawn shadowed, with the caret glyph appended exactly while the blink counter is below fps; the outline is drawn exactly when focused outside edit mode and, on each axis whose clipping-frame extent is non-zero, the outline's span lies within the frame's span; without a clipping frame it is drawn exactly when focused outside edit mode |

## Left out

- Drawing itself is not modelled: sprites, fonts, colours, `render_to_alpha`
  and the drawing calls of `render_device`. `render()` is reduced to the
  `View` it would draw.
- Image loading and the destructor are not modelled. The image appears only
  as an optional width and height given to the constructor.
- `trimTextToWidth` belongs to the font library, which is not part of this
  model. It is the function-valued field `trim`, so the model says when the
  trimmed text is recomputed and from what, not what it contains.
- `isWithinRect` lives in `src/Utils.cpp`, which is not part of this model.
  It is defined as the half-open test, with the left and top edges inside
  and the right and bottom edges outside.
- The key indices `MAIN1`, `DEL`, `ACCEPT` and `CANCEL`, and the key count,
  come from `src/InputState.h`, which is not part of this model. They are a
  `Keys` value carried by the input state. Lemmas that need these keys to be
  different require it (`KeysDistinct`).
- The global singletons (`inpt`, `font`, `render_device`) are parameters.
  The input system is an `InputState` object passed to each call.
  `MAX_FRAMES_PER_SEC` is the positive constant `fps`. The font height is a
  constant of the widget.
- Releasing key locks when a key goes up is the input system's job, between
  frames. The two-frame lemmas take the next frame's lock array as given.
- `max_length` is kept as a field but is never read, as in the source.
- Integers are unbounded. The 32-bit `int` fields are not wrapped. The blink
  counter and threshold stay in range anyway, but `del_frame` could overflow
  after 2^31 held frames, and that is not modelled.
- Utf8.WellFormed checks only the structure of RFC 3629: lead-byte classes
  and continuation counts. Overlong forms and surrogates are not excluded.
  That is enough for the backspace properties, which only need to know where
  characters start.
- FrameStep.LogicStep: its own ensures states only the lock array's length
  and the hover flag. What a frame does is stated by the FrameProperties
  lemmas about it.
- FrameProperties.NumbersOnlyKeepsDigits: holds only when at most one byte
  is typed per frame. The source checks only the first byte of a chunk, as
  NumbersOnlyAdmitsTrailingNonDigit shows.
- FrameProperties.HeldRepeatInterval: describes DEL held without a break,
  with nothing but the backspace handler touching its lock and no typing in
  between. The threshold must be at least 1. With fps below 8 the floor is
  0, and then the key deletes on every frame, which DelStep states.
