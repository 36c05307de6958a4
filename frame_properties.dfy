/** What one frame, and a run of frames, of the text box guarantee: focus
    changes, which key locks move, how the text can change, the backspace
    repeat timing and the caret blink duty cycle. */
module FrameProperties {
  import opened Utf8
  import opened Geometry
  import opened Render
  import opened FrameStep

  predicate Callable(fps: int, f: Frame, lock: seq<bool>, k: Keys) {
    fps > 0 && |f.pressing| == |lock| && KeysFit(k, |lock|)
  }

  // ---------------------------------------------------------------------
  // One frame
  // ---------------------------------------------------------------------

  /** The counters stay in range from frame to frame. */
  lemma StepKeepsStateOk(cfg: Config, fps: int, k: Keys,
                         s: State, x: int, y: int, f: Frame, lock: seq<bool>)
    requires Callable(fps, f, lock, k) && StateOk(s, fps)
    ensures StateOk(LogicStep(cfg, fps, k, s, x, y, f, lock).state, fps)
  {
  }

  /** Holding the primary button outside the box ends edit mode, even when
      checkClick reported a click in the same frame. */
  lemma ClickAwayWins(cfg: Config, fps: int, k: Keys,
                      s: State, x: int, y: int, f: Frame, lock: seq<bool>)
    requires Callable(fps, f, lock, k)
    requires f.pressing[k.main1] && !IsWithinRect(cfg.pos, f.mouse)
    ensures !LogicStep(cfg, fps, k, s, x, y, f, lock).state.editMode
  {
  }

  /** A frame enters edit mode only through a completed click: the widget was
      armed, is enabled, the primary lock was free and the mouse is inside. */
  lemma FocusNeedsReleaseInside(cfg: Config, fps: int, k: Keys,
                                s: State, x: int, y: int, f: Frame, lock: seq<bool>)
    requires Callable(fps, f, lock, k)
    requires !s.editMode && LogicStep(cfg, fps, k, s, x, y, f, lock).state.editMode
    ensures cfg.enabled && s.pressed && !lock[k.main1] && IsWithinRect(cfg.pos, f.mouse)
  {
  }

  /** Outside the editing part nothing but the click state, hover and edit mode
      changes, and edit mode is then off. */
  lemma IdleFrameKeepsFields(cfg: Config, fps: int, k: Keys,
                             s: State, x: int, y: int, f: Frame, lock: seq<bool>)
    requires Callable(fps, f, lock, k)
    requires !EditingFrame(cfg, s, f, lock, k)
    ensures var r := LogicStep(cfg, fps, k, s, x, y, f, lock);
      r.state.text == s.text && !r.retrim &&
      r.state.cursorFrame == s.cursorFrame && r.state.delFrame == s.delFrame &&
      r.state.maxDelFrame == s.maxDelFrame && !r.state.editMode &&
      r.lock == ClickStep(cfg.enabled, s.pressed, cfg.pos, f.mouse, f.pressing, lock, k.main1).lock
  {
  }

  /** In a frame the text changes at most by appending the bytes typed in it
      and then removing one trailing code point. */
  lemma TextChangesByTypingAndOneBackspace(cfg: Config, fps: int, k: Keys,
                                           s: State, x: int, y: int, f: Frame, lock: seq<bool>)
    requires Callable(fps, f, lock, k)
    ensures LogicStep(cfg, fps, k, s, x, y, f, lock).state.text in
      {s.text, s.text + f.inkeys, Backspace(s.text)}
  {
  }

  /** Typing locks a held delete key before the backspace handler looks at
      it, so a frame with typed bytes never deletes. */
  lemma TypingSwallowsDelete(cfg: Config, fps: int, k: Keys,
                             s: State, x: int, y: int, f: Frame, lock: seq<bool>)
    requires Callable(fps, f, lock, k) && f.inkeys != []
    ensures LogicStep(cfg, fps, k, s, x, y, f, lock).state.text ==
      if EditingFrame(cfg, s, f, lock, k) then TypedText(s.text, f.inkeys, cfg.onlyNumbers) else s.text
  {
  }

  /** Likewise a held Accept or Cancel is locked by the typing before the
      defocus test, so a frame with typed bytes stays in edit mode. */
  lemma TypingSwallowsDefocus(cfg: Config, fps: int, k: Keys,
                              s: State, x: int, y: int, f: Frame, lock: seq<bool>)
    requires Callable(fps, f, lock, k) && KeysDistinct(k)
    requires EditingFrame(cfg, s, f, lock, k) && f.inkeys != []
    ensures LogicStep(cfg, fps, k, s, x, y, f, lock).state.editMode
  {
  }

  /** Edit mode, once on, stays on unless the button is held outside the box,
      or Accept (when it may defocus) or Cancel is held. */
  lemma EditModeEndsOnlyByClickAwayOrKey(cfg: Config, fps: int, k: Keys,
                                         s: State, x: int, y: int, f: Frame, lock: seq<bool>)
    requires Callable(fps, f, lock, k)
    requires s.editMode && !LogicStep(cfg, fps, k, s, x, y, f, lock).state.editMode
    ensures (f.pressing[k.main1] && !IsWithinRect(cfg.pos, f.mouse)) ||
            (cfg.acceptToDefocus && f.pressing[k.accept]) || f.pressing[k.cancel]
  {
  }

  /** The trimmed text is recomputed whenever the text changes. */
  lemma RetrimWhenTextChanges(cfg: Config, fps: int, k: Keys,
                              s: State, x: int, y: int, f: Frame, lock: seq<bool>)
    requires Callable(fps, f, lock, k)
    requires LogicStep(cfg, fps, k, s, x, y, f, lock).state.text != s.text
    ensures LogicStep(cfg, fps, k, s, x, y, f, lock).retrim
  {
  }

  /** With the delete key up, an editing frame's text is the old text with the
      typed bytes appended exactly when the filter accepts them, and the
      repeat threshold returns to fps. */
  lemma TypingWithoutDelete(cfg: Config, fps: int, k: Keys,
                            s: State, x: int, y: int, f: Frame, lock: seq<bool>)
    requires Callable(fps, f, lock, k)
    requires EditingFrame(cfg, s, f, lock, k) && !f.pressing[k.del]
    ensures var r := LogicStep(cfg, fps, k, s, x, y, f, lock);
      r.state.text == (if AcceptsInput(f.inkeys, cfg.onlyNumbers) then s.text + f.inkeys else s.text) &&
      r.state.maxDelFrame == fps
  {
  }

  /** Key locks only ever get set in a frame, except the delete key's, which
      the backspace repeat releases. */
  lemma LocksOnlyGrowExceptDelete(cfg: Config, fps: int, k: Keys,
                                  s: State, x: int, y: int, f: Frame, lock: seq<bool>, i: int)
    requires Callable(fps, f, lock, k)
    requires 0 <= i < |lock| && i != k.del && lock[i]
    ensures LogicStep(cfg, fps, k, s, x, y, f, lock).lock[i]
  {
  }

  /** Typing in edit mode locks every held key other than the delete key. */
  lemma TypingLocksHeldKeys(cfg: Config, fps: int, k: Keys,
                            s: State, x: int, y: int, f: Frame, lock: seq<bool>, i: int)
    requires Callable(fps, f, lock, k)
    requires EditingFrame(cfg, s, f, lock, k) && f.inkeys != []
    requires 0 <= i < |lock| && i != k.del && f.pressing[i]
    ensures LogicStep(cfg, fps, k, s, x, y, f, lock).lock[i]
  {
  }

  /** Without typed bytes the frame touches no lock besides the primary
      button's (checkClick), delete, accept and cancel. */
  lemma NoTypingLeavesOtherLocks(cfg: Config, fps: int, k: Keys,
                                 s: State, x: int, y: int, f: Frame, lock: seq<bool>, i: int)
    requires Callable(fps, f, lock, k) && f.inkeys == []
    requires 0 <= i < |lock| && i != k.main1 && i != k.del && i != k.accept && i != k.cancel
    ensures LogicStep(cfg, fps, k, s, x, y, f, lock).lock[i] == lock[i]
  {
  }

  /** A deletion happens exactly when the delete key is held and its lock is
      free once the typing part has run. */
  lemma DeletionNeedsFreeDeleteKey(cfg: Config, fps: int, k: Keys,
                                   s: State, x: int, y: int, f: Frame, lock: seq<bool>)
    requires Callable(fps, f, lock, k) && KeysDistinct(k)
    requires EditingFrame(cfg, s, f, lock, k) && f.inkeys == []
    ensures var r := LogicStep(cfg, fps, k, s, x, y, f, lock);
      r.state.text == (if f.pressing[k.del] && !lock[k.del] then Backspace(s.text) else s.text)
  {
  }

  /** Accept, when it may defocus and is held with its lock free, ends edit
      mode and locks itself; Cancel is then left alone. */
  lemma AcceptDefocuses(cfg: Config, fps: int, k: Keys,
                        s: State, x: int, y: int, f: Frame, lock: seq<bool>)
    requires Callable(fps, f, lock, k) && KeysDistinct(k)
    requires EditingFrame(cfg, s, f, lock, k) && f.inkeys == []
    requires cfg.acceptToDefocus && f.pressing[k.accept] && !lock[k.accept]
    ensures var r := LogicStep(cfg, fps, k, s, x, y, f, lock);
      !r.state.editMode && r.lock[k.accept] && r.lock[k.cancel] == lock[k.cancel]
  {
  }

  /** Cancel, held with its lock free, ends edit mode and locks itself when
      Accept does not fire. */
  lemma CancelDefocuses(cfg: Config, fps: int, k: Keys,
                        s: State, x: int, y: int, f: Frame, lock: seq<bool>)
    requires Callable(fps, f, lock, k) && KeysDistinct(k)
    requires EditingFrame(cfg, s, f, lock, k) && f.inkeys == []
    requires !(cfg.acceptToDefocus && f.pressing[k.accept] && !lock[k.accept])
    requires f.pressing[k.cancel] && !lock[k.cancel]
    ensures var r := LogicStep(cfg, fps, k, s, x, y, f, lock);
      !r.state.editMode && r.lock[k.cancel]
  {
  }

  // ---------------------------------------------------------------------
  // Click sequences
  // ---------------------------------------------------------------------

  /** Pressing the primary button inside an unarmed, enabled box arms it and
      claims the button's lock. */
  lemma PressInsideArms(cfg: Config, fps: int, k: Keys,
                        s: State, x: int, y: int, f: Frame, lock: seq<bool>)
    requires Callable(fps, f, lock, k) && KeysDistinct(k)
    requires cfg.enabled && !s.pressed && !lock[k.main1]
    requires f.pressing[k.main1] && IsWithinRect(cfg.pos, f.mouse)
    ensures var r := LogicStep(cfg, fps, k, s, x, y, f, lock);
      r.state.pressed && r.lock[k.main1]
  {
  }

  /** Once the input system has released the button's lock, a frame with the
      mouse inside an armed box (and neither Accept nor Cancel held) enters
      edit mode. */
  lemma ReleaseInsideFocuses(cfg: Config, fps: int, k: Keys,
                             s: State, x: int, y: int, f: Frame, lock: seq<bool>)
    requires Callable(fps, f, lock, k)
    requires cfg.enabled && s.pressed && !lock[k.main1] && IsWithinRect(cfg.pos, f.mouse)
    requires !f.pressing[k.accept] && !f.pressing[k.cancel]
    ensures var r := LogicStep(cfg, fps, k, s, x, y, f, lock);
      r.state.editMode && !r.state.pressed
  {
  }

  /** Press inside, then release inside: the box is in edit mode after the
      second frame. Between the frames the input system releases the button's
      lock, which lock2 reflects. */
  lemma {:induction false} ClickInsideFocuses(cfg: Config, fps: int, k: Keys, s: State,
                                              x1: int, y1: int, f1: Frame, lock1: seq<bool>,
                                              x2: int, y2: int, f2: Frame, lock2: seq<bool>)
    requires Callable(fps, f1, lock1, k) && Callable(fps, f2, lock2, k) && KeysDistinct(k)
    requires cfg.enabled && !s.pressed && !lock1[k.main1]
    requires f1.pressing[k.main1] && IsWithinRect(cfg.pos, f1.mouse)
    requires !lock2[k.main1] && IsWithinRect(cfg.pos, f2.mouse)
    requires !f2.pressing[k.accept] && !f2.pressing[k.cancel]
    ensures var s1 := LogicStep(cfg, fps, k, s, x1, y1, f1, lock1).state;
      LogicStep(cfg, fps, k, s1, x2, y2, f2, lock2).state.editMode
  {
    PressInsideArms(cfg, fps, k, s, x1, y1, f1, lock1);
    var s1 := LogicStep(cfg, fps, k, s, x1, y1, f1, lock1).state;
    ReleaseInsideFocuses(cfg, fps, k, s1, x2, y2, f2, lock2);
  }

  /** A press that starts outside the box never leads to edit mode in the
      next frame, whatever that frame reports. */
  lemma {:induction false} PressOutsideDoesNotFocus(cfg: Config, fps: int, k: Keys, s: State,
                                                    x1: int, y1: int, f1: Frame, lock1: seq<bool>,
                                                    x2: int, y2: int, f2: Frame, lock2: seq<bool>)
    requires Callable(fps, f1, lock1, k) && Callable(fps, f2, lock2, k)
    requires !s.pressed
    requires f1.pressing[k.main1] && !IsWithinRect(cfg.pos, f1.mouse)
    ensures var s1 := LogicStep(cfg, fps, k, s, x1, y1, f1, lock1).state;
      !s1.editMode && !s1.pressed &&
      !LogicStep(cfg, fps, k, s1, x2, y2, f2, lock2).state.editMode
  {
    ClickAwayWins(cfg, fps, k, s, x1, y1, f1, lock1);
    var s1 := LogicStep(cfg, fps, k, s, x1, y1, f1, lock1).state;
    if LogicStep(cfg, fps, k, s1, x2, y2, f2, lock2).state.editMode {
      FocusNeedsReleaseInside(cfg, fps, k, s1, x2, y2, f2, lock2);
    }
  }

  /** A release outside the box does not enter edit mode. */
  lemma ReleaseOutsideDoesNotFocus(cfg: Config, fps: int, k: Keys,
                                   s: State, x: int, y: int, f: Frame, lock: seq<bool>)
    requires Callable(fps, f, lock, k)
    requires !s.editMode && !IsWithinRect(cfg.pos, f.mouse)
    ensures !LogicStep(cfg, fps, k, s, x, y, f, lock).state.editMode
  {
    if LogicStep(cfg, fps, k, s, x, y, f, lock).state.editMode {
      FocusNeedsReleaseInside(cfg, fps, k, s, x, y, f, lock);
    }
  }

  // ---------------------------------------------------------------------
  // The digit filter
  // ---------------------------------------------------------------------

  predicate AllDigits(s: seq<byte>) {
    forall i :: 0 <= i < |s| ==> IsDigit(s[i])
  }

  /** The filter decides on the first typed byte alone. */
  lemma FilterReadsFirstByteOnly(a: seq<byte>, b: seq<byte>, onlyNumbers: bool)
    requires a != [] && b != [] && a[0] == b[0]
    ensures AcceptsInput(a, onlyNumbers) == AcceptsInput(b, onlyNumbers)
  {
  }

  /** When bytes arrive one per frame, a numbers-only box keeps holding only
      digits, through typing and backspace alike. */
  lemma NumbersOnlyKeepsDigits(text: seq<byte>, inkeys: seq<byte>)
    requires AllDigits(text) && |inkeys| <= 1
    ensures AllDigits(TypedText(text, inkeys, true))
    ensures AllDigits(Backspace(text))
  {
  }

  /** Several bytes typed in one frame pass the numbers-only filter as a unit:
      a digit followed by a letter is appended whole. */
  lemma NumbersOnlyAdmitsTrailingNonDigit()
    ensures TypedText([], [0x35, 0x61], true) == [0x35, 0x61]
    ensures !AllDigits(TypedText([], [0x35, 0x61], true))
  {
    var typed: seq<byte> := [0x35, 0x61];
    assert !IsDigit(typed[1]);
  }

  // ---------------------------------------------------------------------
  // Backspace repeat while the delete key is held
  // ---------------------------------------------------------------------

  datatype Repeat = Repeat(text: seq<byte>, delFrame: int, maxDelFrame: int, locked: bool)

  /** n consecutive frames with the delete key held, where nothing but the
      backspace handler touches its lock. */
  function Held(r: Repeat, n: nat, fps: int): Repeat
    requires fps > 0
    decreases n
  {
    if n == 0 then r else Held(HeldFrame(r, fps), n - 1, fps)
  }

  /** One frame with the delete key held. */
  function HeldFrame(r: Repeat, fps: int): Repeat
    requires fps > 0
  {
    var b := DelStep(r.text, r.delFrame, r.maxDelFrame, true, r.locked, fps);
    Repeat(b.text, b.delFrame, b.maxDelFrame, b.locked)
  }

  /** While the repeat counter is below the threshold, held frames only count. */
  lemma {:induction false} HeldFramesCount(r: Repeat, n: nat, fps: int)
    requires fps > 0 && r.locked && r.delFrame + n < r.maxDelFrame
    ensures Held(r, n, fps) == r.(delFrame := r.delFrame + n)
    decreases n
  {
    if n > 0 {
      HeldFramesCount(HeldFrame(r, fps), n - 1, fps);
    }
  }

  /** After a deletion with threshold m >= 1, holding the key deletes again
      exactly m + 1 frames later, with the threshold lowered by fps/4 but not
      below fps/8. */
  lemma {:induction false} HeldRepeatInterval(text: seq<byte>, m: int, fps: int)
    requires fps > 0 && m >= 1 && m >= fps / 8
    ensures var r := Repeat(text, 0, m, true);
      Held(r, m, fps) == Repeat(text, m, m, false) &&
      Held(r, m + 1, fps).text == Backspace(text) &&
      Held(r, m + 1, fps).delFrame == 0 &&
      fps / 8 <= Held(r, m + 1, fps).maxDelFrame <= m
  {
    var r := Repeat(text, 0, m, true);
    HeldFramesCount(r, m - 1, fps);
    HeldAppend(r, m - 1, 1, fps);
    HeldAppend(r, m, 1, fps);
  }

  /** Holding for a + b frames is holding for a, then for b. */
  lemma {:induction false} HeldAppend(r: Repeat, a: nat, b: nat, fps: int)
    requires fps > 0
    ensures Held(r, a + b, fps) == Held(Held(r, a, fps), b, fps)
    decreases a
  {
    if a > 0 {
      HeldAppend(HeldFrame(r, fps), a - 1, b, fps);
    }
  }

  // ---------------------------------------------------------------------
  // Caret blink
  // ---------------------------------------------------------------------

  /** The blink counter after n editing frames. */
  function BlinkAfter(c: int, n: nat, fps: int): int
    decreases n
  {
    if n == 0 then c else BlinkAfter(Blink(c, fps), n - 1, fps)
  }

  /** How many of the n counter values starting at c show the caret in edit
      mode. */
  function VisibleFrames(c: int, n: nat, fps: int): nat
    decreases n
  {
    if n == 0 then 0
    else (if CaretVisible(true, c, fps) then 1 else 0) + VisibleFrames(Blink(c, fps), n - 1, fps)
  }

  /** Inside one cycle the counter simply counts up, and wraps to 0 at its end. */
  lemma {:induction false} BlinkRun(c: int, n: nat, fps: int)
    requires fps > 0 && 0 <= c < 2 * fps && c + n <= 2 * fps
    ensures BlinkAfter(c, n, fps) == if c + n == 2 * fps then 0 else c + n
    decreases n
  {
    if n > 0 {
      if c + 1 < 2 * fps {
        BlinkRun(c + 1, n - 1, fps);
      }
    }
  }

  lemma {:induction false} VisibleSplit(c: int, a: nat, b: nat, fps: int)
    ensures VisibleFrames(c, a + b, fps) ==
      VisibleFrames(c, a, fps) + VisibleFrames(BlinkAfter(c, a, fps), b, fps)
    decreases a
  {
    if a > 0 {
      VisibleSplit(Blink(c, fps), a - 1, b, fps);
    }
  }

  /** The first half of the cycle shows the caret on every frame. */
  lemma {:induction false} FirstHalfVisible(c: int, n: nat, fps: int)
    requires fps > 0 && 0 <= c && c + n <= fps
    ensures VisibleFrames(c, n, fps) == n
    decreases n
  {
    if n > 0 {
      FirstHalfVisible(c + 1, n - 1, fps);
    }
  }

  /** The second half of the cycle shows it on none. */
  lemma {:induction false} SecondHalfHidden(c: int, n: nat, fps: int)
    requires fps > 0 && fps <= c && c + n <= 2 * fps
    ensures VisibleFrames(c, n, fps) == 0
    decreases n
  {
    if n > 0 {
      if c + 1 < 2 * fps {
        SecondHalfHidden(c + 1, n - 1, fps);
      }
    }
  }

  /** Over any 2 * fps consecutive editing frames the caret is shown on exactly
      fps of them, wherever in the cycle the run starts. */
  lemma {:induction false} CaretShownHalfTheCycle(c: int, fps: int)
    requires fps > 0 && 0 <= c < 2 * fps
    ensures VisibleFrames(c, 2 * fps, fps) == fps
  {
    VisibleSplit(0, fps, fps, fps);
    BlinkRun(0, fps, fps);
    FirstHalfVisible(0, fps, fps);
    SecondHalfHidden(fps, fps, fps);
    VisibleSplit(0, c, 2 * fps - c, fps);
    BlinkRun(0, c, fps);
    VisibleSplit(c, 2 * fps - c, c, fps);
    BlinkRun(c, 2 * fps - c, fps);
  }

  /** Every editing frame advances the blink counter. */
  lemma EditingFrameBlinks(cfg: Config, fps: int, k: Keys,
                           s: State, x: int, y: int, f: Frame, lock: seq<bool>)
    requires Callable(fps, f, lock, k)
    requires EditingFrame(cfg, s, f, lock, k)
    ensures LogicStep(cfg, fps, k, s, x, y, f, lock).state.cursorFrame == Blink(s.cursorFrame, fps)
  {
  }
}
