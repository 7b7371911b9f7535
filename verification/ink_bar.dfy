/*
 * The tabs ink bar (`updateBar`): the bar under the selected tab, and the one-slot timer that
 * removes its grow class 250 ms after it last moved to a tab of nonzero width.  The delay itself
 * is not modelled: a timer fires whenever a `TimerFired` signal says so.
 *
 * The element's style is state: `display`, the translation `left`, `width` and the
 * `md-ink-bar-grow` class.  Timers are known by identity; `pending` holds those scheduled and
 * not yet fired or cancelled, `timeout` the handle the directive remembers.
 */
module InkBar {
  import opened Common
  import opened TabsController
  import opened TabLayout
  import Pagination

  /** What the directive reads from `scope.pagination` (absent when there is no pagination
      scope): `itemsPerPage`, and `tabData` (absent before any layout). */
  datatype PaginationScope = PaginationScope(itemsPerPage: Option<int>, tabData: Option<TabData>)

  /** Where `updateBar` puts the bar: hidden, shown at a tab's edges, or nowhere because reading
      the pagination's tab records threw (after `display: block` had been written). */
  datatype Placement = Hidden | Shown(left: int, width: int) | Broken

  datatype Display = Unset | DisplayNone | DisplayBlock

  type TimerId = nat

  datatype Bar = Bar(
    display: Display,
    left: int,
    width: int,
    grow: bool,
    timeout: Option<TimerId>,
    pending: set<TimerId>,
    nextTimer: TimerId)

  /** `hideInkBar` in `updateBar`: the bar is hidden when no tab is selected, when there are fewer than two tabs, or when
      the pagination scope says one item per page. */
  predicate HideInkBar(view: TabsView, pagination: Option<PaginationScope>)
  {
    || view.selected.None?
    || |view.items| < 2
    || (pagination.Some? && pagination.value.itemsPerPage == Some(1))
  }

  /** The placement decision of `updateBar`. */
  function Place(view: TabsView, pagination: Option<PaginationScope>): (p: Placement)
    ensures p.Hidden? <==> HideInkBar(view, pagination)
    ensures p.Broken? <==>
      !HideInkBar(view, pagination) && (pagination.None? || pagination.value.tabData.None?)
    ensures p.Shown? ==>
      var tabs := pagination.value.tabData.value.tabs;
      var i := IndexOf(view.items, view.selected);
      && (0 <= i < |tabs| ==> p.left == tabs[i].left && p.width == tabs[i].width)
      && (!(0 <= i < |tabs|) ==> p.left == 0 && p.width == 0)
  {
    if HideInkBar(view, pagination) then Hidden
    else if pagination.None? || pagination.value.tabData.None? then Broken
    else
      var tabs := pagination.value.tabData.value.tabs;
      var i := IndexOf(view.items, view.selected);
      if 0 <= i < |tabs| then Shown(tabs[i].left, tabs[i].width) else Shown(0, 0)
  }

  /** Schedule the removal of the grow class, cancelling the one remembered before. */
  function Schedule(bar: Bar): (b: Bar)
    ensures b.timeout == Some(bar.nextTimer) && b.nextTimer == bar.nextTimer + 1
    ensures forall t :: t in b.pending <==> t == bar.nextTimer || (t in bar.pending && Some(t) != bar.timeout)
  {
    var kept := if bar.timeout.Some? then bar.pending - {bar.timeout.value} else bar.pending;
    bar.(timeout := Some(bar.nextTimer), pending := kept + {bar.nextTimer}, nextTimer := bar.nextTimer + 1)
  }

  /** `updateBar`: the display is always written, `none` exactly when the bar is hidden; the
      grow class is only ever added here, and at most the one fresh timer is scheduled. */
  function UpdateBar(bar: Bar, view: TabsView, pagination: Option<PaginationScope>): (b: Bar)
    ensures b.display == DisplayNone <==> HideInkBar(view, pagination)
    ensures b.display != Unset
    ensures bar.nextTimer <= b.nextTimer <= bar.nextTimer + 1
    ensures b.pending <= bar.pending + {bar.nextTimer}
    ensures b.grow != bar.grow ==> b.grow
  {
    match Place(view, pagination)
    case Hidden => bar.(display := DisplayNone)
    case Broken => bar.(display := DisplayBlock)
    case Shown(left, width) =>
      var moved := bar.(display := DisplayBlock, left := left, width := width);
      if width != 0 then Schedule(moved.(grow := true)) else moved
  }

  /** The timer `id` fires: if it is still pending, the grow class goes; a cancelled timer does
      nothing. */
  function Fire(bar: Bar, id: TimerId): (b: Bar)
    ensures b.pending == bar.pending - {id}
    ensures b.grow <==> bar.grow && id !in bar.pending
    ensures b.(grow := bar.grow, pending := bar.pending) == bar
  {
    if id in bar.pending then bar.(grow := false, pending := bar.pending - {id}) else bar
  }

  /** What can call `updateBar`: the watch on the selected tab, and the two broadcasts. */
  datatype Source = SelectionWatch | PaginationChangedEvent | TabsChangedEvent

  /** The listeners `postLink` registers: none with `md-no-bar`, which returns before the
      watchers are set up, and otherwise one for each source. */
  function PostLink(noBar: bool): (listeners: set<Source>)
    ensures noBar <==> listeners == {}
    ensures !noBar ==>
      SelectionWatch in listeners && PaginationChangedEvent in listeners && TabsChangedEvent in listeners
  {
    if noBar then {} else {SelectionWatch, PaginationChangedEvent, TabsChangedEvent}
  }

  /** The events around the bar: a change from one of the sources (heard only when a listener
      for it is registered) or a timer firing. */
  datatype Signal = Update(source: Source, view: TabsView, pagination: Option<PaginationScope>) | TimerFired(id: TimerId)

  function Apply(listeners: set<Source>, bar: Bar, s: Signal): Bar
  {
    match s
    case Update(source, view, pagination) =>
      if source in listeners then UpdateBar(bar, view, pagination) else bar
    case TimerFired(id) => Fire(bar, id)
  }

  /** The bar after a sequence of signals, each heard through the registered listeners. */
  function Deliver(listeners: set<Source>, bar: Bar, signals: seq<Signal>): Bar
    decreases |signals|
  {
    if signals == [] then bar
    else Deliver(listeners, Apply(listeners, bar, signals[0]), signals[1..])
  }

  // ---------------------------------------------------------------------------
  // Properties
  // ---------------------------------------------------------------------------

  /** The one-slot timer: at most one removal is pending, and it is the remembered one; every
      timer handed out has an identity below `nextTimer`. */
  ghost predicate OneSlot(bar: Bar)
  {
    && (bar.pending == {} || (bar.timeout.Some? && bar.pending == {bar.timeout.value}))
    && (bar.timeout.Some? ==> bar.timeout.value < bar.nextTimer)
  }

  /** An update changes the bar's geometry only when it is shown, turns the grow class on only
      for a tab of nonzero width (and then schedules exactly one fresh removal), and otherwise
      leaves grow and the timers alone. */
  lemma UpdateBarEffect(bar: Bar, view: TabsView, pagination: Option<PaginationScope>)
    requires OneSlot(bar)
    ensures var b := UpdateBar(bar, view, pagination);
      var p := Place(view, pagination);
      && (b.display == DisplayNone <==> p.Hidden?)
      && (p.Shown? ==> b.left == p.left && b.width == p.width)
      && (!p.Shown? ==> b.left == bar.left && b.width == bar.width)
      && (b.timeout != bar.timeout <==> p.Shown? && p.width != 0)
      && (p.Shown? && p.width != 0 ==> b.grow && b.pending - bar.pending == {bar.nextTimer})
      && (!(p.Shown? && p.width != 0) ==> b.grow == bar.grow && b.pending == bar.pending)
  {
    var b := UpdateBar(bar, view, pagination);
    var p := Place(view, pagination);
    if p.Shown? && p.width != 0 {
      assert bar.nextTimer !in bar.pending;
    }
  }

  lemma ApplyKeepsOneSlot(listeners: set<Source>, bar: Bar, s: Signal)
    requires OneSlot(bar)
    ensures OneSlot(Apply(listeners, bar, s))
  {
    match s
    case Update(source, view, pagination) =>
      if source in listeners && Place(view, pagination).Shown? && Place(view, pagination).width != 0 {
        var b := Apply(listeners, bar, s);
        assert b.pending == {bar.nextTimer};
      }
    case TimerFired(id) =>
  }

  /** Whatever happens, at most one 250 ms removal is pending at any time. */
  lemma {:induction false} AtMostOneRemovalPending(listeners: set<Source>, bar: Bar, signals: seq<Signal>)
    requires OneSlot(bar)
    ensures var b := Deliver(listeners, bar, signals);
      OneSlot(b) && |b.pending| <= 1
    decreases |signals|
  {
    if signals != [] {
      ApplyKeepsOneSlot(listeners, bar, signals[0]);
      AtMostOneRemovalPending(listeners, Apply(listeners, bar, signals[0]), signals[1..]);
    }
    var b := Deliver(listeners, bar, signals);
    if b.pending != {} {
      assert b.pending == {b.timeout.value};
    }
  }

  /** With `md-no-bar` the bar never changes: no update is heard, and with no removal ever
      scheduled a timer firing finds nothing to do. */
  lemma {:induction false} NoBarNeverUpdates(bar: Bar, signals: seq<Signal>)
    requires bar.pending == {}
    ensures Deliver(PostLink(true), bar, signals) == bar
    decreases |signals|
  {
    if signals != [] {
      assert Apply(PostLink(true), bar, signals[0]) == bar;
      NoBarNeverUpdates(bar, signals[1..]);
    }
  }

  /** A removal scheduled by the last update that showed a wide tab, and not superseded, does
      remove the grow class when it fires. */
  lemma GrowEndsWhenTimerFires(bar: Bar, view: TabsView, pagination: Option<PaginationScope>)
    requires OneSlot(bar)
    requires Place(view, pagination).Shown? && Place(view, pagination).width != 0
    ensures var b := UpdateBar(bar, view, pagination);
      && b.grow
      && !Fire(b, b.timeout.value).grow
      && Fire(b, b.timeout.value).pending == {}
  {
    var b := UpdateBar(bar, view, pagination);
    assert b.pending == {bar.nextTimer};
  }

  /** After a successful `updatePagination` that turned paging on, the bar drawn for the
      selected tab lies inside the strip window that the page shown leaves visible. */
  lemma BarInsideVisiblePage(st: Pagination.State, view: TabsView, widths: seq<nat>, clientWidth: int)
    requires UsableWidth(clientWidth) > 0
    requires |view.items| == |widths|
    requires var o := Pagination.UpdatePagination(st, view, widths, clientWidth);
      o.completion != Pagination.Threw && o.state.active
    requires IndexOf(view.items, view.selected) != -1
    ensures var s := Pagination.UpdatePagination(st, view, widths, clientWidth).state;
      var p := Place(view, Some(PaginationScope(None, Some(s.tabData))));
      && p.Shown?
      && 0 <= p.left + s.offset
      && p.left + p.width + s.offset <= UsableWidth(clientWidth)
  {
    var s := Pagination.UpdatePagination(st, view, widths, clientWidth).state;
    Pagination.UpdatePaginationValid(st, view, widths, clientWidth);
    var d := s.tabData;
    assert CalculateTabData(widths, clientWidth) == Some(d);
    var i := IndexOf(view.items, view.selected);
    assert |view.items| >= 2 by {
      MultiplePagesMultipleTabs(widths, clientWidth, d);
    }
    CalculateFailsIff(widths, clientWidth);
    assert s.page == d.tabs[i].page - 1;
    TabInsideItsPage(widths, clientWidth, d, i);
  }
}
