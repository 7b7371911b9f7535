/*
 * The horizontal drag recognizer that the switch installs on its element (`setupDrag`).
 *
 * The recognizer keeps two pieces of state: whether a pointer is down on the element, and the
 * drag in progress, if any.  Start events are heard on the element, move and end events on the
 * whole document.  A drag is restricted to the pointer class that started it: the first letter
 * of the event type ('m'ouse, 't'ouch, 'p'ointer).  The three callbacks belong to the client and
 * are parameters here; the client's own state is the type parameter `C`.
 */
module DragRecognizer {
  import opened Common

  /** The event types heard by each handler. */
  const StartEvents: seq<string> := ["mousedown", "touchstart", "pointerdown"]
  const MoveEvents: seq<string> := ["mousemove", "touchmove", "pointermove"]
  const EndEvents: seq<string> := ["mouseup", "mouseleave", "touchend", "touchcancel", "pointerup", "pointercancel"]

  /** An input event: its type string and the horizontal page position `getPosition` reads from
      it.  The position is absent when reading it throws: a touch event whose list of current
      touches is empty, as on a `touchend` that lifts the last finger.  Positions are whole
      pixels. */
  datatype Event = Event(eventType: string, pageX: Option<int>)

  /** The direction of a drag, as the strings 'left', 'right' and ''. */
  datatype Direction = Left | Right | Still

  /** What an update records about the pointer's displacement since the start. */
  datatype Motion = Motion(distance: int, direction: Direction)

  /**
   * The drag record.  `motion` is absent until the first update; `translate` is the one
   * property a client writes onto the record (the switch's live thumb position).
   */
  datatype Drag = Drag(pointerType: string, startX: int, motion: Option<Motion>, translate: Option<real>)

  datatype Recognizer = Recognizer(pointerIsDown: bool, drag: Option<Drag>)

  const Idle := Recognizer(false, None)

  /** A callback's answer: the client's new state, the drag as the callback left it, and
      whether it returned `false`. */
  datatype Reply<C> = Reply(client: C, drag: Drag, vetoed: bool)

  datatype Handlers<!C> = Handlers(
    onDragStart: (C, Drag) -> Reply<C>,
    onDrag: (C, Drag) -> Reply<C>,
    onDragEnd: (C, Drag) -> C)

  /** The callbacks invoked, in order. */
  datatype Hook = StartHook | DragHook | EndHook

  datatype Step<C> = Step(rec: Recognizer, client: C, hooks: seq<Hook>)

  /** `type.charAt(0)`: the first character, or the empty string for an empty type. */
  function PointerClass(eventType: string): (c: string)
    ensures |c| == if eventType == [] then 0 else 1
    ensures c <= eventType
  {
    if eventType == [] then [] else eventType[..1]
  }

  /** `isProperEventType`: an event belongs to a drag when its pointer class is the drag's. */
  predicate IsProperEventType(drag: Drag, ev: Event)
  {
    PointerClass(ev.eventType) == drag.pointerType
  }

  /** The drag record that a start event with a readable position creates. */
  function NewDrag(ev: Event): (d: Drag)
    requires ev.pageX.Some?
    ensures d.pointerType == PointerClass(ev.eventType) && Some(d.startX) == ev.pageX
    ensures d.motion.None? && d.translate.None?
  {
    Drag(PointerClass(ev.eventType), ev.pageX.value, None, None)
  }

  /** `updateDrag`: record the displacement from the start to the event's position. */
  function UpdateDrag(drag: Drag, x: int): (d: Drag)
    ensures d.motion.Some? && d.startX - d.motion.value.distance == x
    ensures d.motion.value.direction == Left <==> x < drag.startX
    ensures d.motion.value.direction == Right <==> x > drag.startX
    ensures d.motion.value.direction == Still <==> x == drag.startX
    ensures d.(motion := drag.motion) == drag
  {
    var distance := drag.startX - x;
    var direction := if distance > 0 then Left else if distance < 0 then Right else Still;
    drag.(motion := Some(Motion(distance, direction)))
  }

  /** `startDrag`.  The pointer is marked down before the position is read, so a start whose
      position cannot be read leaves the pointer down and the old drag in place. */
  function StartDrag<C>(h: Handlers<C>, rec: Recognizer, client: C, ev: Event): (s: Step<C>)
    ensures rec.pointerIsDown ==> s == Step(rec, client, [])
    ensures !rec.pointerIsDown && ev.pageX.None? ==> s == Step(rec.(pointerIsDown := true), client, [])
    ensures !rec.pointerIsDown && ev.pageX.Some? ==>
      var r := h.onDragStart(client, NewDrag(ev));
      && s.rec.pointerIsDown
      && s.client == r.client
      && s.hooks == [StartHook]
      && s.rec.drag == (if r.vetoed then None else Some(r.drag))
  {
    if rec.pointerIsDown then Step(rec, client, [])
    else if ev.pageX.None? then Step(rec.(pointerIsDown := true), client, [])
    else
      var r := h.onDragStart(client, NewDrag(ev));
      Step(Recognizer(true, if r.vetoed then None else Some(r.drag)), r.client, [StartHook])
  }

  /** `endDrag`: clears `pointerIsDown` first, whatever the event.  When the position of a
      matching event cannot be read, `updateDrag` throws: `onDragEnd` does not run and the drag
      stays. */
  function EndDrag<C>(h: Handlers<C>, rec: Recognizer, client: C, ev: Event): (s: Step<C>)
    ensures !s.rec.pointerIsDown
    ensures s.hooks == [] || s.hooks == [EndHook]
    ensures s.hooks == [EndHook] <==>
      rec.drag.Some? && IsProperEventType(rec.drag.value, ev) && ev.pageX.Some?
    ensures s.hooks == [] ==> s.rec.drag == rec.drag && s.client == client
    ensures s.hooks == [EndHook] ==>
      s.rec.drag.None? && s.client == h.onDragEnd(client, UpdateDrag(rec.drag.value, ev.pageX.value))
  {
    var released := rec.(pointerIsDown := false);
    if rec.drag.None? || !IsProperEventType(rec.drag.value, ev) || ev.pageX.None? then
      Step(released, client, [])
    else
      var d := UpdateDrag(rec.drag.value, ev.pageX.value);
      Step(Recognizer(false, None), h.onDragEnd(client, d), [EndHook])
  }

  /** `doDrag`: a veto from `onDrag` ends the drag through `endDrag` with the same event.  An
      unreadable position throws in `updateDrag` before anything changes. */
  function DoDrag<C>(h: Handlers<C>, rec: Recognizer, client: C, ev: Event): (s: Step<C>)
    ensures rec.drag.None? || !IsProperEventType(rec.drag.value, ev) || ev.pageX.None? ==>
      s == Step(rec, client, [])
    ensures rec.drag.Some? && IsProperEventType(rec.drag.value, ev) && ev.pageX.Some? ==>
      var r := h.onDrag(client, UpdateDrag(rec.drag.value, ev.pageX.value));
      && (!r.vetoed ==> s == Step(rec.(drag := Some(r.drag)), r.client, [DragHook]))
      && (r.vetoed ==> |s.hooks| >= 1 && s.hooks[0] == DragHook && !s.rec.pointerIsDown)
      && (r.vetoed ==> (s.rec.drag.None? <==> IsProperEventType(r.drag, ev)))
  {
    if rec.drag.None? || !IsProperEventType(rec.drag.value, ev) || ev.pageX.None? then
      Step(rec, client, [])
    else
      var r := h.onDrag(client, UpdateDrag(rec.drag.value, ev.pageX.value));
      var moved := rec.(drag := Some(r.drag));
      if !r.vetoed then Step(moved, r.client, [DragHook])
      else
        var e := EndDrag(h, moved, r.client, ev);
        Step(e.rec, e.client, [DragHook] + e.hooks)
  }

  /** Dispatch one event to the handler listening for its type; other types are not heard. */
  function Handle<C>(h: Handlers<C>, rec: Recognizer, client: C, ev: Event): (s: Step<C>)
    ensures ev.eventType !in StartEvents + MoveEvents + EndEvents ==> s == Step(rec, client, [])
    ensures ev.eventType in StartEvents ==> s.rec.pointerIsDown && |s.hooks| <= 1
    ensures ev.eventType in EndEvents ==> !s.rec.pointerIsDown && |s.hooks| <= 1
    ensures |s.hooks| <= 2
  {
    if ev.eventType in StartEvents then StartDrag(h, rec, client, ev)
    else if ev.eventType in MoveEvents then DoDrag(h, rec, client, ev)
    else if ev.eventType in EndEvents then EndDrag(h, rec, client, ev)
    else Step(rec, client, [])
  }

  /** A sequence of events, handled in order; the hooks of every step are concatenated. */
  function Run<C>(h: Handlers<C>, rec: Recognizer, client: C, evs: seq<Event>): (s: Step<C>)
    ensures |s.hooks| <= 2 * |evs|
    ensures evs != [] && evs[|evs| - 1].eventType in EndEvents ==> !s.rec.pointerIsDown
    ensures evs != [] && evs[|evs| - 1].eventType in StartEvents ==> s.rec.pointerIsDown
    decreases |evs|
  {
    if evs == [] then Step(rec, client, [])
    else
      var s := Handle(h, rec, client, evs[0]);
      var t := Run(h, s.rec, s.client, evs[1..]);
      Step(t.rec, t.client, s.hooks + t.hooks)
  }

  /** How many times `k` was invoked. */
  function Count(hooks: seq<Hook>, k: Hook): nat
  {
    if hooks == [] then 0 else (if hooks[0] == k then 1 else 0) + Count(hooks[1..], k)
  }

  lemma {:induction false} CountAppend(a: seq<Hook>, b: seq<Hook>, k: Hook)
    ensures Count(a + b, k) == Count(a, k) + Count(b, k)
    decreases |a|
  {
    if a == [] {
      assert a + b == b;
    } else {
      assert (a + b)[1..] == a[1..] + b;
      CountAppend(a[1..], b, k);
    }
  }

  predicate IsEnd(ev: Event) { ev.eventType in EndEvents }

  predicate IsStart(ev: Event) { ev.eventType in StartEvents }

  // ---------------------------------------------------------------------------
  // Single events
  // ---------------------------------------------------------------------------

  /** While a pointer is down, a start event changes nothing and invokes nothing. */
  lemma StartIgnoredWhilePointerDown<C>(h: Handlers<C>, rec: Recognizer, client: C, ev: Event)
    requires IsStart(ev) && rec.pointerIsDown
    ensures Handle(h, rec, client, ev) == Step(rec, client, [])
  {
  }

  /** A start with no pointer down marks the pointer down and offers `onDragStart` a fresh
      drag of the event's pointer class at the event's position; the drag survives iff the
      callback does not veto it.  When the position cannot be read, no callback runs and the
      previous drag stays. */
  lemma StartOpensDrag<C>(h: Handlers<C>, rec: Recognizer, client: C, ev: Event)
    requires IsStart(ev) && !rec.pointerIsDown
    ensures var s := Handle(h, rec, client, ev);
      && s.rec.pointerIsDown
      && (ev.pageX.None? ==> s.hooks == [] && s.rec.drag == rec.drag && s.client == client)
      && (ev.pageX.Some? ==>
            var r := h.onDragStart(client, Drag(PointerClass(ev.eventType), ev.pageX.value, None, None));
            && s.hooks == [StartHook]
            && (s.rec.drag.Some? <==> !r.vetoed)
            && (!r.vetoed ==> s.rec.drag.value == r.drag))
  {
  }

  /** An end event of any class clears `pointerIsDown`, including one that does not end the drag. */
  lemma EndAlwaysReleasesPointer<C>(h: Handlers<C>, rec: Recognizer, client: C, ev: Event)
    requires IsEnd(ev)
    ensures !Handle(h, rec, client, ev).rec.pointerIsDown
  {
  }

  /** A matching end event with a readable position invokes `onDragEnd` exactly once, on the
      updated drag, and clears the drag.  One whose position cannot be read (a `touchend` lifting
      the last finger) only releases the pointer: the drag stays open and `onDragEnd` never runs. */
  lemma MatchingEndEndsDrag<C>(h: Handlers<C>, rec: Recognizer, client: C, ev: Event)
    requires IsEnd(ev) && rec.drag.Some? && IsProperEventType(rec.drag.value, ev)
    ensures var s := Handle(h, rec, client, ev);
      && (ev.pageX.Some? ==>
            && s.hooks == [EndHook]
            && s.rec == Idle
            && s.client == h.onDragEnd(client, UpdateDrag(rec.drag.value, ev.pageX.value)))
      && (ev.pageX.None? ==> s == Step(Recognizer(false, rec.drag), client, []))
  {
    EndAlwaysReleasesPointer(h, rec, client, ev);
  }

  /** A veto from `onDrag` takes the end path: `onDragEnd` runs right after `onDrag`, and the
      recognizer is left idle. */
  lemma DragVetoEndsDrag<C>(h: Handlers<C>, rec: Recognizer, client: C, ev: Event)
    requires ev.eventType in MoveEvents && rec.drag.Some? && IsProperEventType(rec.drag.value, ev)
    requires ev.pageX.Some?
    requires h.onDrag(client, UpdateDrag(rec.drag.value, ev.pageX.value)).vetoed
    requires h.onDrag(client, UpdateDrag(rec.drag.value, ev.pageX.value)).drag.pointerType == rec.drag.value.pointerType
    ensures var s := Handle(h, rec, client, ev);
      var r := h.onDrag(client, UpdateDrag(rec.drag.value, ev.pageX.value));
      && s.hooks == [DragHook, EndHook]
      && s.rec == Idle
      && s.client == h.onDragEnd(r.client, UpdateDrag(r.drag, ev.pageX.value))
  {
    assert ev.eventType !in StartEvents;
  }

  /** A move or end event whose pointer class differs from the drag's leaves the drag and the
      client alone and invokes nothing; an end event still releases the pointer. */
  lemma ForeignEventLeavesDrag<C>(h: Handlers<C>, rec: Recognizer, client: C, ev: Event)
    requires ev.eventType in MoveEvents || IsEnd(ev)
    requires rec.drag.Some? && !IsProperEventType(rec.drag.value, ev)
    ensures var s := Handle(h, rec, client, ev);
      && s.rec.drag == rec.drag && s.client == client && s.hooks == []
      && s.rec.pointerIsDown == (rec.pointerIsDown && !IsEnd(ev))
  {
    if IsEnd(ev) {
      EndAlwaysReleasesPointer(h, rec, client, ev);
    } else {
      assert ev.eventType !in StartEvents;
    }
  }

  /** An event whose position cannot be read invokes nothing and never touches the drag or the
      client: the handler throws as soon as it reads the position.  Only the pointer flag moves,
      set by a start and cleared by an end. */
  lemma UnreadablePositionLeavesDrag<C>(h: Handlers<C>, rec: Recognizer, client: C, ev: Event)
    requires ev.pageX.None?
    ensures var s := Handle(h, rec, client, ev);
      && s.rec.drag == rec.drag && s.client == client && s.hooks == []
      && s.rec.pointerIsDown == (IsStart(ev) || (rec.pointerIsDown && !IsEnd(ev)))
  {
    if !IsStart(ev) && ev.eventType in MoveEvents {
      assert !IsEnd(ev);
    }
  }

  // ---------------------------------------------------------------------------
  // Runs of events
  // ---------------------------------------------------------------------------

  /** After a vetoed start the pointer stays down with no drag: until some end event arrives,
      every later event (further starts included) is ignored. */
  lemma {:induction false} VetoedStartBlocksUntilEnd<C>(h: Handlers<C>, rec: Recognizer, client: C, evs: seq<Event>)
    requires rec.pointerIsDown && rec.drag.None?
    requires forall i :: 0 <= i < |evs| ==> !IsEnd(evs[i])
    ensures Run(h, rec, client, evs) == Step(rec, client, [])
    decreases |evs|
  {
    if evs != [] {
      var ev := evs[0];
      assert !IsEnd(ev);
      assert Handle(h, rec, client, ev) == Step(rec, client, []);
      VetoedStartBlocksUntilEnd(h, rec, client, evs[1..]);
    }
  }

  /** A vetoed start followed by events none of which is an end: no drag ever begins, and
      `onDragStart` was the only callback invoked. */
  lemma VetoedStartKeepsPointerDown<C>(h: Handlers<C>, client: C, start: Event, evs: seq<Event>)
    requires IsStart(start) && start.pageX.Some?
    requires h.onDragStart(client, NewDrag(start)).vetoed
    requires forall i :: 0 <= i < |evs| ==> !IsEnd(evs[i])
    ensures var s := Run(h, Idle, client, [start] + evs);
      && s.rec == Recognizer(true, None)
      && s.hooks == [StartHook]
      && s.client == h.onDragStart(client, NewDrag(start)).client
  {
    var s := Handle(h, Idle, client, start);
    assert ([start] + evs)[1..] == evs;
    VetoedStartBlocksUntilEnd(h, s.rec, s.client, evs);
  }

  /** Events of another pointer class never touch the drag in progress: only the pointer flag
      can change, and it drops as soon as one of them is an end event. */
  lemma {:induction false} ForeignEventsLeaveDrag<C>(h: Handlers<C>, rec: Recognizer, client: C, evs: seq<Event>)
    requires rec.drag.Some?
    requires forall i :: 0 <= i < |evs| ==>
      (evs[i].eventType in MoveEvents || IsEnd(evs[i])) && !IsProperEventType(rec.drag.value, evs[i])
    ensures var s := Run(h, rec, client, evs);
      && s.rec.drag == rec.drag && s.client == client && s.hooks == []
      && s.rec.pointerIsDown == (rec.pointerIsDown && forall i :: 0 <= i < |evs| ==> !IsEnd(evs[i]))
    decreases |evs|
  {
    if evs != [] {
      var ev := evs[0];
      ForeignEventLeavesDrag(h, rec, client, ev);
      var s := Handle(h, rec, client, ev);
      ForeignEventsLeaveDrag(h, s.rec, s.client, evs[1..]);
      var t := Run(h, s.rec, s.client, evs[1..]);
      assert s.hooks + t.hooks == [];
      NoEndSplit(evs);
    }
  }

  /** No event of a non-empty run is an end exactly when neither its head nor its tail has one. */
  lemma NoEndSplit(evs: seq<Event>)
    requires evs != []
    ensures (forall i :: 0 <= i < |evs| ==> !IsEnd(evs[i])) <==>
      !IsEnd(evs[0]) && (forall i :: 0 <= i < |evs[1..]| ==> !IsEnd(evs[1..][i]))
  {
    forall i | 0 <= i < |evs[1..]| ensures evs[1..][i] == evs[i + 1] { }
    if !IsEnd(evs[0]) && (forall i :: 0 <= i < |evs[1..]| ==> !IsEnd(evs[1..][i])) {
      forall i | 0 <= i < |evs| ensures !IsEnd(evs[i]) {
        if i > 0 {
          assert evs[i] == evs[1..][i - 1];
        }
      }
    }
  }

  /** One drag at a time: each `onDragEnd` closes a drag some `onDragStart` opened, so over any
      run the ends plus a drag still open never exceed the starts plus the drag open before. */
  lemma {:induction false} EndsNeverOutnumberStarts<C>(h: Handlers<C>, rec: Recognizer, client: C, evs: seq<Event>)
    ensures var s := Run(h, rec, client, evs);
      Count(s.hooks, EndHook) + (if s.rec.drag.Some? then 1 else 0)
        <= Count(s.hooks, StartHook) + (if rec.drag.Some? then 1 else 0)
    decreases |evs|
  {
    if evs != [] {
      var s := Handle(h, rec, client, evs[0]);
      assert Count(s.hooks, EndHook) + (if s.rec.drag.Some? then 1 else 0)
        <= Count(s.hooks, StartHook) + (if rec.drag.Some? then 1 else 0) by {
        StepBalance(h, rec, client, evs[0]);
      }
      EndsNeverOutnumberStarts(h, s.rec, s.client, evs[1..]);
      var t := Run(h, s.rec, s.client, evs[1..]);
      CountAppend(s.hooks, t.hooks, EndHook);
      CountAppend(s.hooks, t.hooks, StartHook);
    }
  }

  lemma StepBalance<C>(h: Handlers<C>, rec: Recognizer, client: C, ev: Event)
    ensures var s := Handle(h, rec, client, ev);
      Count(s.hooks, EndHook) + (if s.rec.drag.Some? then 1 else 0)
        <= Count(s.hooks, StartHook) + (if rec.drag.Some? then 1 else 0)
  {
    var s := Handle(h, rec, client, ev);
    assert Count([StartHook], StartHook) == 1;
    assert Count([EndHook], EndHook) == 1;
    assert Count([DragHook, EndHook], EndHook) == 1;
    assert Count([DragHook], EndHook) == 0;
  }
}
