/*
 * The switch's three drag callbacks and the flip decision, and the switch wired to the drag
 * recognizer.
 *
 * The thumb position during a drag is a fraction `translate` in [0, 1] of the thumb container's
 * width: 0 is the unchecked (left) end, 1 the checked (right) end.  Style writes are kept as
 * state: `noAnimate` is the `no-animate` class, `transform` the thumb's CSS transform (None for
 * the empty string).
 */
module Switch {
  import opened Common
  import opened DragRecognizer

  /** A measured width in pixels; the switch divides by it. */
  type Width = w: int | w > 0 witness 1

  /**
   * `checked` is the view value, `disabled` the `ng-disabled` expression, `containerWidth`
   * what measuring the thumb container's `offsetWidth` would return now, and
   * `elementWidth` the width captured by the last accepted drag start.
   */
  datatype SwitchState = SwitchState(
    checked: bool,
    disabled: bool,
    containerWidth: Width,
    elementWidth: Option<Width>,
    noAnimate: bool,
    transform: Option<real>)

  /** `Math.max(0, Math.min(1, x))`. */
  function Clamp01(x: real): (r: real)
    ensures 0.0 <= r <= 1.0
    ensures 0.0 < r < 1.0 ==> r == x
    ensures r == 0.0 <==> x <= 0.0
    ensures r == 1.0 <==> x >= 1.0
  {
    if x < 0.0 then 0.0 else if x > 1.0 then 1.0 else x
  }

  /** The thumb position while the pointer has moved `distance` pixels to the left of where
      the drag started: a checked switch starts from the right end, an unchecked one from the
      left end. */
  function LiveTranslate(checked: bool, distance: int, w: Width): (t: real)
    ensures 0.0 <= t <= 1.0
    ensures distance == 0 ==> t == (if checked then 1.0 else 0.0)
  {
    var percent := distance as real / w as real;
    Clamp01(if checked then 1.0 - percent else -percent)
  }

  /** The flip decision as the expression parses: the conditional binds looser than `||`,
      so the tap test only chooses which comparison applies.  A translate that was never set
      compares false both ways. */
  function ShouldFlip(motion: Option<Motion>, checked: bool, translate: Option<real>): (flip: bool)
    ensures translate.None? ==> !flip
    ensures flip ==> translate.Some? && translate.value != 0.5
  {
    var tap := motion.Some? && Abs(motion.value.distance) < 5;
    if tap || checked then translate.Some? && translate.value < 0.5
    else translate.Some? && translate.value > 0.5
  }

  /** `onDragStart`: refuses the drag when disabled; otherwise captures the container width
      and turns animation off. */
  function OnDragStart(s: SwitchState, d: Drag): (r: Reply<SwitchState>)
    ensures r.vetoed <==> s.disabled
    ensures r.drag == d
    ensures r.vetoed ==> r.client == s
    ensures !r.vetoed ==> r.client == s.(elementWidth := Some(s.containerWidth), noAnimate := true)
  {
    if s.disabled then Reply(s, d, true)
    else Reply(s.(elementWidth := Some(s.containerWidth), noAnimate := true), d, false)
  }

  /** `onDrag`: moves the thumb and records the position on the drag; it never vetoes.  With no
      width captured or no distance recorded the division gives NaN, represented as an unset
      translate (it compares false like one). */
  function OnDrag(s: SwitchState, d: Drag): (r: Reply<SwitchState>)
    ensures !r.vetoed
    ensures r.client == s.(transform := r.drag.translate)
    ensures r.drag == d.(translate := r.drag.translate)
    ensures s.elementWidth.Some? && d.motion.Some? ==>
      r.drag.translate == Some(LiveTranslate(s.checked, d.motion.value.distance, s.elementWidth.value))
  {
    var t := if s.elementWidth.None? || d.motion.None? then None
      else Some(LiveTranslate(s.checked, d.motion.value.distance, s.elementWidth.value));
    Reply(s.(transform := t), d.(translate := t), false)
  }

  /** `onDragEnd`: a disabled switch is left exactly as it is; otherwise animation is restored,
      the transform cleared, and the view value negated when the flip decision says so. */
  function OnDragEnd(s: SwitchState, d: Drag): (e: SwitchState)
    ensures s.disabled ==> e == s
    ensures !s.disabled ==> !e.noAnimate && e.transform.None?
    ensures e.checked != s.checked <==> !s.disabled && ShouldFlip(d.motion, s.checked, d.translate)
    ensures e.disabled == s.disabled && e.containerWidth == s.containerWidth && e.elementWidth == s.elementWidth
  {
    if s.disabled then s
    else
      var settled := s.(noAnimate := false, transform := None);
      if ShouldFlip(d.motion, s.checked, d.translate) then settled.(checked := !s.checked) else settled
  }

  const SwitchHandlers: Handlers<SwitchState> := Handlers(OnDragStart, OnDrag, OnDragEnd)

  // ---------------------------------------------------------------------------
  // The thumb position
  // ---------------------------------------------------------------------------

  lemma PosMul(a: real, b: real)
    requires a > 0.0 && b > 0.0
    ensures a * b > 0.0
  {
  }

  /** Comparing a quotient by a positive width is comparing the dividend with the scaled bound. */
  lemma DivCompare(d: int, w: Width, c: real)
    ensures d as real / w as real > c <==> d as real > c * w as real
    ensures d as real / w as real < c <==> d as real < c * w as real
  {
    var q := d as real / w as real;
    assert q * w as real == d as real;
    if q > c {
      PosMul(q - c, w as real);
    } else if q < c {
      PosMul(c - q, w as real);
    }
  }

  /** The ends of the track: an unchecked thumb sits at the left end until the pointer has
      moved right of the start, and reaches the right end once it has moved a full width;
      a checked thumb mirrors this. */
  lemma TranslateEnds(checked: bool, d: int, w: Width)
    ensures var t := LiveTranslate(checked, d, w);
      && (!checked ==> (t == 0.0 <==> d >= 0) && (t == 1.0 <==> d <= -(w as int)))
      && (checked ==> (t == 1.0 <==> d <= 0) && (t == 0.0 <==> d >= w))
  {
    DivCompare(d, w, 0.0);
    DivCompare(d, w, 1.0);
    DivCompare(d, w, -1.0);
  }

  // ---------------------------------------------------------------------------
  // When a drag flips the switch
  // ---------------------------------------------------------------------------

  /** A press and release with no move in between never flips the switch, whatever the state. */
  lemma NoMoveNeverFlips(s: SwitchState, d: Drag)
    requires d.translate.None?
    ensures OnDragEnd(s, d).checked == s.checked
  {
  }

  /** A checked switch dragged with a live position flips exactly when the pointer ended more
      than half the width to the left of where it started. */
  lemma CheckedFlipsIff(distance: int, dir: Direction, w: Width)
    ensures ShouldFlip(Some(Motion(distance, dir)), true, Some(LiveTranslate(true, distance, w)))
      <==> 2 * distance > w
  {
    DivCompare(distance, w, 0.5);
  }

  /** An unchecked switch dragged at least five pixels flips exactly when the pointer ended more
      than half the width to the right of where it started. */
  lemma UncheckedFlipsIff(distance: int, dir: Direction, w: Width)
    requires Abs(distance) >= 5
    ensures ShouldFlip(Some(Motion(distance, dir)), false, Some(LiveTranslate(false, distance, w)))
      <==> 2 * distance < -(w as int)
  {
    DivCompare(distance, w, -0.5);
  }

  /** A short drag (under five pixels) of an unchecked switch at least ten pixels wide flips it. */
  lemma UncheckedTapFlips(distance: int, dir: Direction, w: Width)
    requires Abs(distance) < 5 && w >= 10
    ensures ShouldFlip(Some(Motion(distance, dir)), false, Some(LiveTranslate(false, distance, w)))
  {
    DivCompare(distance, w, -0.5);
  }

  /** A short drag (under five pixels) of a checked switch at least ten pixels wide does not
      flip it, although the comment beside the expression promises that a click changes it. */
  lemma CheckedTapDoesNotFlip(distance: int, dir: Direction, w: Width)
    requires Abs(distance) < 5 && w >= 10
    ensures !ShouldFlip(Some(Motion(distance, dir)), true, Some(LiveTranslate(true, distance, w)))
  {
    DivCompare(distance, w, 0.5);
  }

  // ---------------------------------------------------------------------------
  // The switch driven by the recognizer
  // ---------------------------------------------------------------------------

  /** Every drag the recognizer holds was accepted by `onDragStart`, which captured a width;
      nothing the drag does changes `disabled`. */
  ghost predicate Wired(rec: Recognizer, s: SwitchState)
  {
    rec.drag.Some? ==> s.elementWidth.Some?
  }

  lemma HandleKeepsWired(rec: Recognizer, s: SwitchState, ev: Event)
    requires Wired(rec, s)
    ensures var t := Handle(SwitchHandlers, rec, s, ev);
      Wired(t.rec, t.client) && t.client.disabled == s.disabled
      && t.client.containerWidth == s.containerWidth
  {
  }

  /** Over any run that starts idle, a drag in progress always has a captured width, so the
      live thumb position is always a number. */
  lemma {:induction false} RunKeepsWired(rec: Recognizer, s: SwitchState, evs: seq<Event>)
    requires Wired(rec, s)
    ensures var t := Run(SwitchHandlers, rec, s, evs);
      Wired(t.rec, t.client) && t.client.disabled == s.disabled
    decreases |evs|
  {
    if evs != [] {
      HandleKeepsWired(rec, s, evs[0]);
      var t := Handle(SwitchHandlers, rec, s, evs[0]);
      RunKeepsWired(t.rec, t.client, evs[1..]);
    }
  }

  /** A disabled switch is never flipped by any sequence of events. */
  lemma {:induction false} DisabledNeverFlips(rec: Recognizer, s: SwitchState, evs: seq<Event>)
    requires s.disabled
    ensures Run(SwitchHandlers, rec, s, evs).client.checked == s.checked
    decreases |evs|
  {
    if evs != [] {
      var t := Handle(SwitchHandlers, rec, s, evs[0]);
      assert t.client.checked == s.checked && t.client.disabled;
      DisabledNeverFlips(t.rec, t.client, evs[1..]);
    }
  }

  /** A mouse press, one move and a release on an idle switch: the whole gesture. */
  function Gesture(s: SwitchState, x0: int, x1: int): Step<SwitchState>
  {
    Run(SwitchHandlers, Idle, s, [Event("mousedown", Some(x0)), Event("mousemove", Some(x1)), Event("mouseup", Some(x1))])
  }

  lemma MouseDownStep(s: SwitchState, x0: int)
    requires !s.disabled
    ensures Handle(SwitchHandlers, Idle, s, Event("mousedown", Some(x0))) ==
      Step(Recognizer(true, Some(Drag("m", x0, None, None))),
           s.(elementWidth := Some(s.containerWidth), noAnimate := true), [StartHook])
  {
    assert "mousedown" == StartEvents[0];
    assert PointerClass("mousedown") == "m";
  }

  lemma MouseMoveStep(c: SwitchState, d: Drag, x1: int)
    requires c.elementWidth.Some? && d.pointerType == "m"
    ensures var t := LiveTranslate(c.checked, d.startX - x1, c.elementWidth.value);
      Handle(SwitchHandlers, Recognizer(true, Some(d)), c, Event("mousemove", Some(x1))) ==
      Step(Recognizer(true, Some(UpdateDrag(d, x1).(translate := Some(t)))),
           c.(transform := Some(t)), [DragHook])
  {
    assert "mousemove" == MoveEvents[0] && "mousemove" !in StartEvents;
    assert PointerClass("mousemove") == "m";
  }

  lemma MouseUpStep(c: SwitchState, d: Drag, x1: int)
    requires d.pointerType == "m"
    ensures Handle(SwitchHandlers, Recognizer(true, Some(d)), c, Event("mouseup", Some(x1))) ==
      Step(Idle, OnDragEnd(c, UpdateDrag(d, x1)), [EndHook])
  {
    assert "mouseup" == EndEvents[0] && "mouseup" !in StartEvents && "mouseup" !in MoveEvents;
    assert PointerClass("mouseup") == "m";
  }

  /** A full mouse gesture on an enabled switch leaves the recognizer idle, restores animation,
      clears the transform, and flips the switch exactly as the decision on the live position
      at the last move says. */
  lemma GestureOutcome(s: SwitchState, x0: int, x1: int)
    requires !s.disabled
    ensures var g := Gesture(s, x0, x1);
      var w := s.containerWidth;
      var t := LiveTranslate(s.checked, x0 - x1, w);
      && g.rec == Idle
      && g.hooks == [StartHook, DragHook, EndHook]
      && !g.client.noAnimate && g.client.transform.None?
      && g.client.elementWidth == Some(w)
      && (g.client.checked != s.checked <==>
            ShouldFlip(UpdateDrag(Drag("m", x0, None, None), x1).motion, s.checked, Some(t)))
  {
    var evs := [Event("mousedown", Some(x0)), Event("mousemove", Some(x1)), Event("mouseup", Some(x1))];
    var w := s.containerWidth;
    var t := LiveTranslate(s.checked, x0 - x1, w);
    var d0 := Drag("m", x0, None, None);
    var c1 := s.(elementWidth := Some(w), noAnimate := true);
    MouseDownStep(s, x0);
    var d1 := UpdateDrag(d0, x1).(translate := Some(t));
    var c2 := c1.(transform := Some(t));
    MouseMoveStep(c1, d0, x1);
    var c3 := OnDragEnd(c2, UpdateDrag(d1, x1));
    MouseUpStep(c2, d1, x1);
    assert Run(SwitchHandlers, Idle, c3, []) == Step(Idle, c3, []);
    assert Run(SwitchHandlers, Recognizer(true, Some(d1)), c2, evs[2..]) == Step(Idle, c3, [EndHook]) by {
      assert evs[2..] == [evs[2]] && evs[2..][1..] == [];
      assert [EndHook] + [] == [EndHook];
    }
    assert Run(SwitchHandlers, Recognizer(true, Some(d0)), c1, evs[1..]) == Step(Idle, c3, [DragHook, EndHook]) by {
      assert evs[1..][0] == evs[1] && evs[1..][1..] == evs[2..];
    }
    assert Gesture(s, x0, x1) == Step(Idle, c3, [StartHook, DragHook, EndHook]);
  }

  /** An unchecked switch 80 pixels wide, pressed at 100 and released at 70 after moving there,
      stays unchecked: the thumb was held at the left end. */
  lemma DragLeftKeepsUnchecked(s: SwitchState)
    requires !s.disabled && !s.checked && s.containerWidth == 80
    ensures !Gesture(s, 100, 70).client.checked
  {
    GestureOutcome(s, 100, 70);
    TranslateEnds(false, 30, 80);
  }

  /** The same switch dragged from 100 to 150 ends at 5/8 of the track and is checked. */
  lemma DragRightChecks(s: SwitchState)
    requires !s.disabled && !s.checked && s.containerWidth == 80
    ensures Gesture(s, 100, 150).client.checked
  {
    GestureOutcome(s, 100, 150);
    UncheckedFlipsIff(-50, Right, 80);
  }

  /** A touch gesture may take over a mouse drag: a touch end releases the pointer without
      ending the mouse drag, and the next touch start replaces that drag without `onDragEnd`
      ever running for it. */
  lemma TouchTakesOverMouseDrag(s: SwitchState)
    requires !s.disabled
    ensures var g := Run(SwitchHandlers, Idle, s,
      [Event("mousedown", Some(10)), Event("touchend", None), Event("touchstart", Some(40))]);
      && g.hooks == [StartHook, StartHook]
      && g.rec.pointerIsDown
      && g.rec.drag == Some(Drag("t", 40, None, None))
  {
    var evs := [Event("mousedown", Some(10)), Event("touchend", None), Event("touchstart", Some(40))];
    assert "mousedown" == StartEvents[0];
    assert "touchend" == EndEvents[2];
    assert "touchstart" == StartEvents[1];
    assert "touchend" !in StartEvents;
    assert "touchend" !in MoveEvents;
    assert PointerClass("mousedown") == "m";
    assert PointerClass("touchend") == "t";
    assert PointerClass("touchstart") == "t";
    var s1 := Handle(SwitchHandlers, Idle, s, evs[0]);
    assert s1.rec == Recognizer(true, Some(Drag("m", 10, None, None)));
    var s2 := Handle(SwitchHandlers, s1.rec, s1.client, evs[1]);
    assert s2.rec == Recognizer(false, Some(Drag("m", 10, None, None))) && s2.hooks == [];
    var s3 := Handle(SwitchHandlers, s2.rec, s2.client, evs[2]);
    assert s3.rec == Recognizer(true, Some(Drag("t", 40, None, None))) && s3.hooks == [StartHook];
    assert evs[1..][1..][1..] == [];
  }

  /** A touch tap on an enabled switch never settles it: the `touchend` that lifts the finger has
      no current touch to read a position from, so `onDragEnd` never runs.  The switch keeps its
      value, animation stays off, and the touch drag stays open with the pointer released. */
  lemma TouchTapLeavesDragOpen(s: SwitchState, x0: int)
    requires !s.disabled
    ensures var g := Run(SwitchHandlers, Idle, s, [Event("touchstart", Some(x0)), Event("touchend", None)]);
      && g.hooks == [StartHook]
      && g.rec == Recognizer(false, Some(Drag("t", x0, None, None)))
      && g.client.checked == s.checked
      && g.client.noAnimate
  {
    var evs := [Event("touchstart", Some(x0)), Event("touchend", None)];
    assert "touchstart" == StartEvents[1];
    assert "touchend" == EndEvents[2];
    assert "touchend" !in StartEvents;
    assert "touchend" !in MoveEvents;
    assert PointerClass("touchstart") == "t";
    assert PointerClass("touchend") == "t";
    var s1 := Handle(SwitchHandlers, Idle, s, evs[0]);
    assert s1.rec == Recognizer(true, Some(Drag("t", x0, None, None))) && s1.hooks == [StartHook];
    var s2 := Handle(SwitchHandlers, s1.rec, s1.client, evs[1]);
    assert s2 == Step(Recognizer(false, s1.rec.drag), s1.client, []);
    assert Run(SwitchHandlers, s2.rec, s2.client, []) == Step(s2.rec, s2.client, []);
    assert Run(SwitchHandlers, s1.rec, s1.client, evs[1..]) == Step(s2.rec, s2.client, []) by {
      assert evs[1..][0] == evs[1] && evs[1..][1..] == [];
      assert s2.hooks + [] == [];
    }
    assert [StartHook] + [] == [StartHook];
  }

  /** With a second finger still down, lifting the first does end a touch drag: the second
      finger's touchstart is ignored while the pointer is down, and the `touchend` then reads
      the remaining finger's position, so `onDragEnd` runs and the recognizer is idle again.
      With no move in between the switch keeps its value. */
  lemma SecondFingerEndsTouchDrag(s: SwitchState, x0: int, x1: int, x2: int)
    requires !s.disabled
    ensures var g := Run(SwitchHandlers, Idle, s,
      [Event("touchstart", Some(x0)), Event("touchstart", Some(x1)), Event("touchend", Some(x2))]);
      && g.hooks == [StartHook, EndHook]
      && g.rec == Idle
      && g.client.checked == s.checked
      && !g.client.noAnimate
  {
    var evs := [Event("touchstart", Some(x0)), Event("touchstart", Some(x1)), Event("touchend", Some(x2))];
    assert "touchstart" == StartEvents[1];
    assert "touchend" == EndEvents[2];
    assert "touchend" !in StartEvents;
    assert "touchend" !in MoveEvents;
    assert PointerClass("touchstart") == "t";
    assert PointerClass("touchend") == "t";
    var s1 := Handle(SwitchHandlers, Idle, s, evs[0]);
    assert s1.rec == Recognizer(true, Some(Drag("t", x0, None, None))) && s1.hooks == [StartHook];
    var s2 := Handle(SwitchHandlers, s1.rec, s1.client, evs[1]);
    assert s2 == Step(s1.rec, s1.client, []);
    var s3 := Handle(SwitchHandlers, s2.rec, s2.client, evs[2]);
    var c3 := OnDragEnd(s1.client, UpdateDrag(Drag("t", x0, None, None), x2));
    assert s3 == Step(Idle, c3, [EndHook]);
    assert c3.checked == s.checked;
    assert Run(SwitchHandlers, s3.rec, s3.client, []) == Step(Idle, c3, []);
    assert Run(SwitchHandlers, s2.rec, s2.client, evs[2..]) == Step(Idle, c3, [EndHook]) by {
      assert evs[2..][0] == evs[2] && evs[2..][1..] == [];
      assert [EndHook] + [] == [EndHook];
    }
    assert Run(SwitchHandlers, s1.rec, s1.client, evs[1..]) == Step(Idle, c3, [EndHook]) by {
      assert evs[1..][0] == evs[1] && evs[1..][1..] == evs[2..];
      assert [] + [EndHook] == [EndHook];
    }
  }
}
