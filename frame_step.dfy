/** One frame of the text box's logic, stated on values: the widget's mutable
    fields, the input system's report for the frame and the shared key-lock
    flags go in, their new values come out. The imperative widget in module
    Widget is proved to compute exactly these functions. */
module FrameStep {
  import opened Utf8
  import opened Geometry

  /** Where the bindings the widget reads sit in the input system's key arrays. */
  datatype Keys = Keys(main1: nat, del: nat, accept: nat, cancel: nat)

  predicate KeysFit(k: Keys, n: nat) {
    k.main1 < n && k.del < n && k.accept < n && k.cancel < n
  }

  predicate KeysDistinct(k: Keys) {
    k.main1 != k.del && k.main1 != k.accept && k.main1 != k.cancel &&
    k.del != k.accept && k.del != k.cancel && k.accept != k.cancel
  }

  /** What the input system reports for one frame: the mouse position, which
      keys are held, and the bytes typed since the previous frame. */
  datatype Frame = Frame(mouse: Point, pressing: seq<bool>, inkeys: seq<byte>)

  /** The widget's settings, which logic() reads and never writes. */
  datatype Config = Config(enabled: bool, onlyNumbers: bool, acceptToDefocus: bool,
                           pos: Rect, fontHeight: int)

  /** The fields logic() updates, except the cached trimmed text, which is a
      function of the text and the box width; a Step says when it is
      recomputed. */
  datatype State = State(pressed: bool, hover: bool, editMode: bool, text: seq<byte>,
                         cursorFrame: int, delFrame: int, maxDelFrame: int)

  datatype Click = Click(clicked: bool, pressed: bool, lock: seq<bool>)

  datatype Backspacing = Backspacing(text: seq<byte>, delFrame: int, maxDelFrame: int,
                                     locked: bool, deleted: bool)

  datatype Defocus = Defocus(editMode: bool, lock: seq<bool>)

  datatype Step = Step(state: State, lock: seq<bool>, retrim: bool)

  /** The counters stay in their ranges: the blink counter within one
      2 * fps cycle, the repeat threshold at most fps, the repeat counter
      non-negative. */
  predicate StateOk(s: State, fps: int) {
    0 <= s.cursorFrame < 2 * fps && 0 <= s.maxDelFrame <= fps && 0 <= s.delFrame
  }

  function Max(a: int, b: int): int {
    if a >= b then a else b
  }

  /** checkClick: press/release detection of the primary button, guarded by
      its shared lock. A press inside the box claims the lock and arms the
      widget; a later call with the lock released reports a click if the
      widget was armed and the mouse is still inside. */
  function ClickStep(enabled: bool, pressed: bool, pos: Rect, mouse: Point,
                     pressing: seq<bool>, lock: seq<bool>, main1: nat): (c: Click)
    requires main1 < |pressing| && main1 < |lock|
    ensures |c.lock| == |lock|
    ensures !enabled || lock[main1] ==> c == Click(false, pressed, lock)
    ensures c.clicked ==> pressed && IsWithinRect(pos, mouse)
    ensures enabled && !lock[main1] && pressed && IsWithinRect(pos, mouse) ==> c.clicked
    ensures enabled && !lock[main1] ==>
      (c.pressed <==> pressing[main1] && IsWithinRect(pos, mouse) && !c.clicked)
    ensures c.lock == if c.pressed && !pressed then lock[main1 := true] else lock
  {
    if !enabled then Click(false, pressed, lock)
    else if lock[main1] then Click(false, pressed, lock)
    else if pressed && IsWithinRect(pos, mouse) then Click(true, false, lock)
    else if pressing[main1] && IsWithinRect(pos, mouse) then Click(false, true, lock[main1 := true])
    else Click(false, false, lock)
  }

  predicate IsDigit(b: byte) {
    48 <= b <= 57
  }

  /** The typed bytes are appended when there are some and either any input is
      allowed or the FIRST of them is an ASCII digit. */
  predicate AcceptsInput(inkeys: seq<byte>, onlyNumbers: bool) {
    inkeys != [] && (!onlyNumbers || IsDigit(inkeys[0]))
  }

  /** The text after the typing part of a frame. */
  function TypedText(text: seq<byte>, inkeys: seq<byte>, onlyNumbers: bool): (r: seq<byte>)
    ensures r == text || r == text + inkeys
    ensures r == text + inkeys <==> inkeys == [] || AcceptsInput(inkeys, onlyNumbers)
  {
    if AcceptsInput(inkeys, onlyNumbers) then text + inkeys else text
  }

  /** Every held key becomes locked; no lock is released. */
  function LockPressed(pressing: seq<bool>, lock: seq<bool>): (r: seq<bool>)
    requires |pressing| == |lock|
    ensures |r| == |lock|
    ensures forall i :: 0 <= i < |r| && pressing[i] ==> r[i]
    ensures forall i :: 0 <= i < |r| && !pressing[i] ==> r[i] == lock[i]
  {
    seq(|lock|, i requires 0 <= i < |lock| => if pressing[i] then true else lock[i])
  }

  /** The backspace handler, given whether the delete key is held and locked.
      A deletion needs the key held and unlocked; it locks the key, restarts the
      repeat counter and lowers the threshold by fps/4, but not below fps/8.
      While the key stays held and locked the counter runs, and the lock is
      released once it reaches the threshold. Releasing the key restores the
      slow threshold fps. */
  function DelStep(text: seq<byte>, delFrame: int, maxDelFrame: int,
                   pressingDel: bool, lockDel: bool, fps: int): (b: Backspacing)
    requires fps > 0
    ensures b.deleted <==> pressingDel && !lockDel
    ensures b.text == if b.deleted then Backspace(text) else text
    ensures !pressingDel ==>
      b.maxDelFrame == fps && b.delFrame == delFrame && b.locked == lockDel
    ensures b.deleted ==>
      b.delFrame == 0 && b.maxDelFrame == Max(fps / 8, maxDelFrame - fps / 4) &&
      b.maxDelFrame >= fps / 8 && (b.locked <==> b.maxDelFrame > 0)
    ensures pressingDel && lockDel ==>
      b.delFrame == delFrame + 1 && b.maxDelFrame == maxDelFrame &&
      (b.locked <==> b.delFrame < b.maxDelFrame)
    ensures lockDel && !b.locked ==> pressingDel && b.delFrame >= b.maxDelFrame
    ensures 0 <= maxDelFrame <= fps ==> 0 <= b.maxDelFrame <= fps
    ensures 0 <= delFrame ==> 0 <= b.delFrame
  {
    var max1 := if !pressingDel then fps else maxDelFrame;
    var deleted := !lockDel && pressingDel;
    var lock1 := if deleted then true else lockDel;
    var frame1 := if deleted then 0 else if pressingDel then delFrame + 1 else delFrame;
    var max2 := if deleted then Max(fps / 8, max1 - fps / 4) else max1;
    var text1 := if deleted then Backspace(text) else text;
    var lock2 := if pressingDel && lock1 && frame1 >= max2 then false else lock1;
    Backspacing(text1, frame1, max2, lock2, deleted)
  }

  /** The caret blink counter advances by one and wraps to 0 at 2 * fps. */
  function Blink(cursorFrame: int, fps: int): (r: int)
    ensures 0 <= cursorFrame < 2 * fps ==> 0 <= r < 2 * fps
    ensures 0 <= cursorFrame < 2 * fps ==> (r == 0 <==> cursorFrame == 2 * fps - 1)
    ensures r != 0 ==> r == cursorFrame + 1
  {
    if cursorFrame + 1 == fps + fps then 0 else cursorFrame + 1
  }

  /** Accept fires when enabled for defocus, held and unlocked. */
  predicate AcceptFires(acceptToDefocus: bool, pressing: seq<bool>, lock: seq<bool>, k: Keys)
    requires k.accept < |pressing| && k.accept < |lock|
  {
    acceptToDefocus && pressing[k.accept] && !lock[k.accept]
  }

  /** Leaving edit mode with Accept or, failing that, Cancel; the key that
      fires is locked. */
  function DefocusStep(editMode: bool, acceptToDefocus: bool, pressing: seq<bool>,
                       lock: seq<bool>, k: Keys): (d: Defocus)
    requires |pressing| == |lock| && KeysFit(k, |lock|)
    ensures |d.lock| == |lock|
    ensures d.editMode ==> editMode
    ensures forall i :: 0 <= i < |lock| && lock[i] ==> d.lock[i]
    ensures forall i :: 0 <= i < |lock| && i != k.accept && i != k.cancel ==> d.lock[i] == lock[i]
    ensures AcceptFires(acceptToDefocus, pressing, lock, k) ==>
      !d.editMode && d.lock[k.accept] && (k.cancel != k.accept ==> d.lock[k.cancel] == lock[k.cancel])
    ensures !AcceptFires(acceptToDefocus, pressing, lock, k) && pressing[k.cancel] && !lock[k.cancel] ==>
      !d.editMode && d.lock[k.cancel] && (k.cancel != k.accept ==> d.lock[k.accept] == lock[k.accept])
    ensures d.lock != lock ==> !d.editMode
    ensures !AcceptFires(acceptToDefocus, pressing, lock, k) && !(pressing[k.cancel] && !lock[k.cancel]) ==>
      d == Defocus(editMode, lock)
  {
    if AcceptFires(acceptToDefocus, pressing, lock, k) then
      Defocus(false, lock[k.accept := true])
    else if pressing[k.cancel] && !lock[k.cancel] then
      Defocus(false, lock[k.cancel := true])
    else
      Defocus(editMode, lock)
  }

  /** Whether the editing part of logic() runs this frame: edit mode after the
      click-to-focus and the click-away checks. */
  predicate EditingFrame(cfg: Config, s: State, f: Frame, lock: seq<bool>, k: Keys)
    requires |f.pressing| == |lock| && KeysFit(k, |lock|)
  {
    var c := ClickStep(cfg.enabled, s.pressed, cfg.pos, f.mouse, f.pressing, lock, k.main1);
    var focused := if c.clicked then true else s.editMode;
    if f.pressing[k.main1] && !IsWithinRect(cfg.pos, f.mouse) then false else focused
  }

  // FocusStep, InputStep and CloseStep are consecutive sections of the one
  // function logic(x, y); EditStep and LogicStep put them back together.

  /** The focus part of logic(x, y): hover from (x, y), then checkClick and the
      click-away test at the input system's mouse position. */
  function FocusStep(cfg: Config, k: Keys, s: State, x: int, y: int, f: Frame, lock: seq<bool>): (r: Step)
    requires |f.pressing| == |lock| && KeysFit(k, |lock|)
    ensures |r.lock| == |lock|
    ensures r.state == s.(pressed := r.state.pressed, hover := r.state.hover, editMode := r.state.editMode)
    ensures !r.retrim
    ensures r.state.hover == IsWithinRect(cfg.pos, Point(x, y))
    ensures f.pressing[k.main1] && !IsWithinRect(cfg.pos, f.mouse) ==> !r.state.editMode
    ensures r.state.editMode && !s.editMode ==>
      cfg.enabled && s.pressed && !lock[k.main1] && IsWithinRect(cfg.pos, f.mouse)
    ensures forall i :: 0 <= i < |lock| && i != k.main1 ==> r.lock[i] == lock[i]
    ensures var c := ClickStep(cfg.enabled, s.pressed, cfg.pos, f.mouse, f.pressing, lock, k.main1);
      r.state.pressed == c.pressed && r.lock == c.lock
    ensures var c := ClickStep(cfg.enabled, s.pressed, cfg.pos, f.mouse, f.pressing, lock, k.main1);
      r.state.editMode <==> (s.editMode || c.clicked) && !(f.pressing[k.main1] && !IsWithinRect(cfg.pos, f.mouse))
  {
    var c := ClickStep(cfg.enabled, s.pressed, cfg.pos, f.mouse, f.pressing, lock, k.main1);
    Step(s.(pressed := c.pressed, hover := IsWithinRect(cfg.pos, Point(x, y)),
            editMode := EditingFrame(cfg, s, f, lock, k)),
         c.lock, false)
  }

  /** The typing and backspace part of an editing frame: the typed bytes are
      appended when the filter accepts them, every held key is locked when
      bytes were typed, and then the backspace handler runs. The trimmed text
      is recomputed when bytes were appended or one code point was deleted. */
  function InputStep(cfg: Config, fps: int, k: Keys,
                     s: State, f: Frame, lock: seq<bool>): (r: Step)
    requires fps > 0 && |f.pressing| == |lock| && KeysFit(k, |lock|)
    ensures |r.lock| == |lock|
    ensures r.state == s.(text := r.state.text, delFrame := r.state.delFrame, maxDelFrame := r.state.maxDelFrame)
    ensures f.inkeys != [] ==> r.state.text == TypedText(s.text, f.inkeys, cfg.onlyNumbers)
    ensures f.inkeys == [] ==>
      r.state.text == if f.pressing[k.del] && !lock[k.del] then Backspace(s.text) else s.text
    ensures r.retrim <==>
      AcceptsInput(f.inkeys, cfg.onlyNumbers) || (f.inkeys == [] && f.pressing[k.del] && !lock[k.del])
    ensures r.state.text != s.text ==> r.retrim
    ensures var b := DelStep(TypedText(s.text, f.inkeys, cfg.onlyNumbers), s.delFrame, s.maxDelFrame,
                             f.pressing[k.del], lock[k.del] || (f.inkeys != [] && f.pressing[k.del]), fps);
      r.state.delFrame == b.delFrame && r.state.maxDelFrame == b.maxDelFrame && r.lock[k.del] == b.locked
    ensures forall i :: 0 <= i < |lock| && i != k.del ==> r.lock[i] == (lock[i] || (f.inkeys != [] && f.pressing[i]))
  {
    var typed := TypedText(s.text, f.inkeys, cfg.onlyNumbers);
    var lock1 := if f.inkeys != [] then LockPressed(f.pressing, lock) else lock;
    var b := DelStep(typed, s.delFrame, s.maxDelFrame, f.pressing[k.del], lock1[k.del], fps);
    Step(s.(text := b.text, delFrame := b.delFrame, maxDelFrame := b.maxDelFrame),
         lock1[k.del := b.locked], AcceptsInput(f.inkeys, cfg.onlyNumbers) || b.deleted)
  }

  /** The end of an editing frame: the caret blink and the Accept/Cancel
      defocus. */
  function CloseStep(cfg: Config, fps: int, k: Keys, s: State, f: Frame, lock: seq<bool>): (r: Step)
    requires |f.pressing| == |lock| && KeysFit(k, |lock|)
    ensures |r.lock| == |lock|
    ensures r.state == s.(editMode := r.state.editMode, cursorFrame := r.state.cursorFrame)
    ensures !r.retrim
    ensures r.state.cursorFrame == Blink(s.cursorFrame, fps)
    ensures r.state.editMode ==> s.editMode
    ensures forall i :: 0 <= i < |lock| && lock[i] ==> r.lock[i]
    ensures forall i :: 0 <= i < |lock| && i != k.accept && i != k.cancel ==> r.lock[i] == lock[i]
    ensures var d := DefocusStep(s.editMode, cfg.acceptToDefocus, f.pressing, lock, k);
      r.state.editMode == d.editMode && r.lock == d.lock
    ensures AcceptFires(cfg.acceptToDefocus, f.pressing, lock, k) ==> !r.state.editMode && r.lock[k.accept]
    ensures !AcceptFires(cfg.acceptToDefocus, f.pressing, lock, k) && f.pressing[k.cancel] && !lock[k.cancel] ==>
      !r.state.editMode && r.lock[k.cancel]
    ensures !AcceptFires(cfg.acceptToDefocus, f.pressing, lock, k) && !(f.pressing[k.cancel] && !lock[k.cancel]) ==>
      r.state.editMode == s.editMode && r.lock == lock
  {
    var d := DefocusStep(s.editMode, cfg.acceptToDefocus, f.pressing, lock, k);
    Step(s.(editMode := d.editMode, cursorFrame := Blink(s.cursorFrame, fps)), d.lock, false)
  }

  /** The editing part of logic(), run when the box is in edit mode after the
      focus checks. */
  function EditStep(cfg: Config, fps: int, k: Keys,
                    s: State, f: Frame, lock: seq<bool>): (r: Step)
    requires fps > 0 && |f.pressing| == |lock| && KeysFit(k, |lock|)
    ensures |r.lock| == |lock|
    ensures r.state.pressed == s.pressed && r.state.hover == s.hover
    ensures r.state.cursorFrame == Blink(s.cursorFrame, fps)
    ensures r.state.editMode ==> s.editMode
    ensures s.editMode && !r.state.editMode ==>
      (cfg.acceptToDefocus && f.pressing[k.accept]) || f.pressing[k.cancel]
    ensures f.inkeys != [] && k.del != k.accept && k.del != k.cancel ==> r.state.editMode == s.editMode
    ensures f.inkeys != [] ==> r.state.text == TypedText(s.text, f.inkeys, cfg.onlyNumbers)
    ensures f.inkeys == [] ==>
      r.state.text == if f.pressing[k.del] && !lock[k.del] then Backspace(s.text) else s.text
    ensures r.state.text != s.text ==> r.retrim
    ensures forall i :: 0 <= i < |lock| && i != k.del && lock[i] ==> r.lock[i]
    ensures f.inkeys != [] ==> forall i :: 0 <= i < |lock| && i != k.del && f.pressing[i] ==> r.lock[i]
    ensures f.inkeys == [] ==>
      forall i :: 0 <= i < |lock| && i != k.del && i != k.accept && i != k.cancel ==> r.lock[i] == lock[i]
  {
    var t := InputStep(cfg, fps, k, s, f, lock);
    var e := CloseStep(cfg, fps, k, t.state, f, t.lock);
    Step(e.state, e.lock, t.retrim)
  }

  /** One call of logic(x, y). Hover uses (x, y); checkClick and the click-away
      test use the input system's mouse position. */
  function LogicStep(cfg: Config, fps: int, k: Keys,
                     s: State, x: int, y: int, f: Frame, lock: seq<bool>): (r: Step)
    requires fps > 0 && |f.pressing| == |lock| && KeysFit(k, |lock|)
    ensures |r.lock| == |lock|
    ensures r.state.hover == IsWithinRect(cfg.pos, Point(x, y))
  {
    var g := FocusStep(cfg, k, s, x, y, f, lock);
    if g.state.editMode then EditStep(cfg, fps, k, g.state, f, g.lock) else g
  }
}
