/*
 * The page state machine of the tabs pagination directive.
 *
 * The directive keeps `state = {page, active, hasPrev, hasNext, pagesCount, tabData}` and the
 * tabs controller's paging offset (the translation of the tab strip).  Sliding the strip to a
 * new offset returns a promise that a transition-end event on the strip itself resolves; the
 * listeners registered for those events are kept here in order, each with the tab its promise
 * continuation focuses.  Broadcasts, focus and blur calls, selection and debounced update
 * requests are emitted as effects.  A thrown TypeError ends the operation where it happens: the
 * outcome keeps the state as far as it had been changed.
 */
module Pagination {
  import opened Common
  import opened TabsController
  import opened TabLayout

  datatype State = State(
    page: int,
    active: bool,
    hasPrev: bool,
    hasNext: bool,
    pagesCount: Option<nat>,
    tabData: TabData,
    offset: int,
    listeners: seq<Option<TabId>>)

  datatype Effect =
    | Focus(tab: TabId)
    | Blur(tab: TabId)
    | Select(target: Option<TabId>)
    | PaginationChanged       // broadcast at once
    | PaginationChangedLater  // broadcast from a zero-delay timeout
    | RequestUpdate           // the debounced `updatePagination`

  /** What the caller chains on the promise `setPage` returns: nothing, or focusing a tab
      (absent when the caller's tab is undefined, whose continuation then focuses nothing). */
  datatype Then = Ignore | FocusTab(tab: Option<TabId>)

  /** How an operation ended: with no promise, with a promise already resolved, with a promise
      waiting for a transition end, or with a TypeError. */
  datatype Completion = NoPromise | Resolved | Pending | Threw

  datatype Outcome = Outcome(state: State, effects: seq<Effect>, completion: Completion)

  function Target(k: Then): Option<TabId>
  {
    if k.FocusTab? then k.tab else None
  }

  /** The focus calls made when promise continuations run, in order. */
  function Focuses(targets: seq<Option<TabId>>): (e: seq<Effect>)
    ensures |e| <= |targets|
    ensures forall i :: 0 <= i < |e| ==> e[i].Focus?
    decreases |targets|
  {
    if targets == [] then []
    else (if targets[0].Some? then [Focus(targets[0].value)] else []) + Focuses(targets[1..])
  }

  /** `slideTabButtons(x)` with the continuation `k` chained on its promise: no change resolves
      at once; otherwise the strip moves and a listener waits for its transition end.  Sliding
      itself emits nothing: a resolved promise runs its continuation only after the current
      handler has finished (see `Continue`). */
  function Slide(st: State, x: int, k: Then): (o: Outcome)
    ensures o.state.offset == x && o.effects == []
    ensures o.completion == Resolved <==> st.offset == x
    ensures o.completion == Resolved ==> o.state == st
    ensures o.completion != Resolved ==>
      o.completion == Pending && o.state == st.(offset := x, listeners := st.listeners + [Target(k)])
  {
    if st.offset == x then Outcome(st, [], Resolved)
    else Outcome(st.(offset := x, listeners := st.listeners + [Target(k)]), [], Pending)
  }

  /** The end of a handler that chained `k` on a promise: a promise that was already resolved
      runs its continuation now, after every effect the handler made synchronously; a waiting
      one leaves it to a transition end. */
  function Continue(o: Outcome, k: Then): (r: Outcome)
    ensures r.state == o.state && r.completion == o.completion
    ensures |o.effects| <= |r.effects| && r.effects[..|o.effects|] == o.effects
    ensures o.completion != Resolved ==> r.effects == o.effects
    ensures o.completion == Resolved ==> r.effects[|o.effects|..] == Focuses([Target(k)])
  {
    if o.completion == Resolved then Outcome(o.state, o.effects + Focuses([Target(k)]), o.completion)
    else o
  }

  /** The page `setPage(p)` settles on: negative targets go to 0, targets past `pagesCount` go
      to `pagesCount` (a comparison with an unset count is false). */
  function ClampPage(p: int, pagesCount: Option<nat>): (q: nat)
    ensures p <= 0 ==> q == 0
    ensures 0 <= p && (pagesCount.None? || p <= pagesCount.value) ==> q == p
    ensures pagesCount.Some? && p > pagesCount.value ==> q == pagesCount.value
  {
    var low := if p < 0 then 0 else p;
    if pagesCount.Some? && low > pagesCount.value then pagesCount.value else low
  }

  /** `setPage(p)`: nothing happens (no promise) when `p` is already the page; otherwise the
      flags and the page are set, the change is broadcast, and the strip slides to the page's
      left edge, which throws when the settled page has no record. */
  function SetPage(st: State, p: int, k: Then): (o: Outcome)
    ensures p == st.page ==>
      o.state == st && o.effects == [] && o.completion == (if k.Ignore? then NoPromise else Threw)
    ensures o.effects == (if p == st.page then [] else [PaginationChanged])
    ensures p != st.page ==>
      var q := ClampPage(p, st.pagesCount);
      var pages := st.tabData.pages;
      && o.state.page == q
      && o.state.hasPrev == (q > 0)
      && o.state.hasNext == (q < |pages| - 1)
      && o.state.(offset := st.offset, listeners := st.listeners, page := st.page,
           hasPrev := st.hasPrev, hasNext := st.hasNext) == st
      && (o.completion == Threw <==> q >= |pages|)
      && (q < |pages| ==> o.state.offset == -pages[q].left)
  {
    if p == st.page then Outcome(st, [], if k.Ignore? then NoPromise else Threw)
    else
      var q := ClampPage(p, st.pagesCount);
      var pages := st.tabData.pages;
      var flagged := st.(hasPrev := q > 0, hasNext := q < |pages| - 1, page := q);
      if q >= |pages| then Outcome(flagged, [PaginationChanged], Threw)
      else
        var o := Slide(flagged, -pages[q].left, k);
        Outcome(o.state, [PaginationChanged], o.completion)
  }

  /** `getPageForTab(tab)`: 0-based page of a known tab, 0 for an unknown one, and a TypeError
      (None) when the tab is known but has no layout record. */
  function GetPageForTab(st: State, view: TabsView, tab: Option<TabId>): (r: Option<int>)
    ensures var i := IndexOf(view.items, tab);
      && (i == -1 ==> r == Some(0))
      && (i != -1 ==> (r.Some? <==> i < |st.tabData.tabs|))
      && (i != -1 && r.Some? ==> r.value == st.tabData.tabs[i].page - 1)
  {
    var i := IndexOf(view.items, tab);
    if i == -1 then Some(0)
    else if i < |st.tabData.tabs| then Some(st.tabData.tabs[i].page - 1)
    else None
  }

  /** The watcher on the selected tab: it only ever broadcasts a page change or asks for an
      update, the latter exactly when a tab is selected while pagination is off. */
  function OnSelectedTabChange(st: State, view: TabsView): (o: Outcome)
    ensures o.state.tabData == st.tabData && o.state.active == st.active && o.state.listeners <= st.listeners + [None]
    ensures view.selected.None? || !st.active ==> o.state == st
    ensures forall e :: e in o.effects ==> e == PaginationChanged || e == RequestUpdate
    ensures RequestUpdate in o.effects <==> view.selected.Some? && !st.active
  {
    if view.selected.None? then Outcome(st, [], NoPromise)
    else if st.active then
      match GetPageForTab(st, view, view.selected)
      case None => Outcome(st, [], Threw)
      case Some(p) => SetPage(st, p, Ignore)
    else Outcome(st, [RequestUpdate], NoPromise)
  }

  /** The watcher on the tab to focus: focus at once when the tab is in view, otherwise blur the
      previous one and focus after sliding to the tab's page.  It focuses no tab but the new one
      and blurs no tab but the old one. */
  function OnTabFocus(st: State, view: TabsView, tab: Option<TabId>, oldTab: Option<TabId>): (o: Outcome)
    ensures o.state.tabData == st.tabData && o.state.active == st.active
    ensures tab.None? ==> o.state == st && o.effects == []
    ensures forall e :: e in o.effects ==>
      || (tab.Some? && e == Focus(tab.value))
      || (oldTab.Some? && e == Blur(oldTab.value))
      || e == PaginationChanged
  {
    if tab.None? then Outcome(st, [], NoPromise)
    else
      match GetPageForTab(st, view, tab)
      case None => Outcome(st, [], Threw)
      case Some(p) =>
        if !st.active || p == st.page then Outcome(st, [Focus(tab.value)], NoPromise)
        else
          var blur := if oldTab.Some? then [Blur(oldTab.value)] else [];
          var o := SetPage(st, p, FocusTab(tab));
          Continue(Outcome(o.state, blur + o.effects, o.completion), FocusTab(tab))
  }

  /** A click on a paging button: `inc` is +1 for next and -1 for previous.  The page record is
      read first, so a target outside the pages throws before anything changes.  Otherwise the
      change is broadcast, then the new tab selected, and any focus comes after both. */
  function UserChangePage(st: State, view: TabsView, inc: int): (o: Outcome)
    requires inc == 1 || inc == -1
    ensures o.state.tabData == st.tabData && o.state.active == st.active
    ensures !(0 <= st.page + inc < |st.tabData.pages|) ==> o == Outcome(st, [], Threw)
    ensures o.completion == Threw ==> forall e :: e in o.effects ==> e == PaginationChanged
    ensures o.completion != Threw ==>
      && |o.effects| >= 2
      && o.effects[0] == PaginationChanged
      && o.effects[1].Select?
      && (forall i :: 2 <= i < |o.effects| ==> o.effects[i].Focus?)
  {
    var newPage := st.page + inc;
    var pages := st.tabData.pages;
    if newPage < 0 || newPage >= |pages| then Outcome(st, [], Threw)
    else
      var newTabIndex := if inc > 0 then pages[newPage].firstTabIndex else pages[newPage].lastTabIndex;
      var newTab := ItemAt(view.items, newTabIndex);
      var o := SetPage(st, newPage, FocusTab(newTab));
      if o.completion == Threw then o
      else Continue(Outcome(o.state, o.effects + [Select(newTab)], o.completion), FocusTab(newTab))
  }

  /** `updatePagination`, given the measured tab widths and the container's `clientWidth`:
      disable (slide home, page -1, inactive), lay out, and enable when there is more than one
      page, landing on the selected tab's page; then broadcast from a timeout. */
  function UpdatePagination(st: State, view: TabsView, widths: seq<nat>, clientWidth: int): (o: Outcome)
    requires UsableWidth(clientWidth) > 0
    ensures o.completion == NoPromise || o.completion == Threw
    ensures !o.state.active ==> o.state.page == -1 && o.state.offset == 0
    ensures o.completion == NoPromise ==>
      |o.effects| >= 1 && o.effects[|o.effects| - 1] == PaginationChangedLater
    ensures o.completion == Threw ==> PaginationChangedLater !in o.effects
  {
    var home := Slide(st, 0, Ignore).state;
    var disabled := home.(page := -1, active := false);
    match CalculateTabData(widths, clientWidth)
    case None => Outcome(disabled, [], Threw)
    case Some(d) =>
      var laid := disabled.(tabData := d, active := |d.pages| > 1);
      if !laid.active then Outcome(laid, [PaginationChangedLater], NoPromise)
      else
        var enabled := laid.(pagesCount := Some(|d.pages|));
        match GetPageForTab(enabled, view, view.selected)
        case None => Outcome(enabled, [], Threw)
        case Some(p) =>
          var o := SetPage(enabled, p, Ignore);
          if o.completion == Threw then o
          else Outcome(o.state, o.effects + [PaginationChangedLater], NoPromise)
  }

  /** A transition end bubbling to the strip: only one whose target is the strip itself
      resolves the waiting promises, and it resolves all of them. */
  function TransitionEnd(st: State, targetIsStrip: bool): (o: Outcome)
    ensures o.completion == NoPromise
    ensures o.state.(listeners := st.listeners) == st
    ensures targetIsStrip ==> o.state.listeners == []
    ensures !targetIsStrip ==> o.state == st && o.effects == []
    ensures |o.effects| <= |st.listeners|
  {
    if !targetIsStrip then Outcome(st, [], NoPromise)
    else Outcome(st.(listeners := []), Focuses(st.listeners), NoPromise)
  }

  // ---------------------------------------------------------------------------
  // The invariant
  // ---------------------------------------------------------------------------

  /** The pagination state agrees with its layout: active exactly when there is more than one
      page; an active state is on an existing page, its flags say whether there are pages on
      either side, and the strip shows that page; an inactive strip is home. */
  ghost predicate Valid(st: State)
  {
    var pages := st.tabData.pages;
    && Indexed(st.tabData)
    && (st.active <==> |pages| > 1)
    && (st.active ==>
          && st.pagesCount == Some(|pages|)
          && 0 <= st.page < |pages|
          && st.hasPrev == (st.page > 0)
          && st.hasNext == (st.page < |pages| - 1)
          && st.offset == -pages[st.page].left)
    && (!st.active ==> st.offset == 0 && (st.page == -1 || (st.page == 0 && |pages| == 1)))
  }

  /** The layout has a record for every tab the controller knows. */
  ghost predicate Covers(st: State, view: TabsView)
  {
    |view.items| <= |st.tabData.tabs|
  }

  /** A tab the controller knows but the layout has no record for: a tab added since the last
      layout, whose update is still waiting for the next animation frame. */
  ghost predicate Unmeasured(st: State, view: TabsView, tab: Option<TabId>)
  {
    var i := IndexOf(view.items, tab);
    i != -1 && i >= |st.tabData.tabs|
  }

  /** Looking up a tab's page throws exactly for an unmeasured tab, so never when every tab is
      recorded; a page found is an existing page (or 0 for an unknown tab). */
  lemma PageForTabExists(st: State, view: TabsView, tab: Option<TabId>)
    requires Indexed(st.tabData)
    ensures var r := GetPageForTab(st, view, tab);
      && (r.None? <==> Unmeasured(st, view, tab))
      && (Covers(st, view) ==> r.Some?)
      && (r.Some? ==> 0 <= r.value && (|st.tabData.pages| > 0 ==> r.value < |st.tabData.pages|))
  {
    var i := IndexOf(view.items, tab);
    if i != -1 && i < |st.tabData.tabs| {
      assert 1 <= st.tabData.tabs[i].page <= |st.tabData.pages|;
    }
  }

  /** In a valid active state, moving to any other existing page changes the strip's offset,
      since no two pages share a left edge: the move always waits for a transition end. */
  lemma SetOtherPageWaits(st: State, p: int, k: Then)
    requires Valid(st) && st.active
    requires 0 <= p < |st.tabData.pages| && p != st.page
    ensures var o := SetPage(st, p, k);
      && Valid(o.state)
      && o.state.page == p
      && o.completion == Pending
      && o.effects == [PaginationChanged]
      && o.state.listeners == st.listeners + [Target(k)]
      && o.state.tabData == st.tabData
  {
    var pages := st.tabData.pages;
    if p < st.page {
      assert pages[p].left < pages[st.page].left;
    } else {
      assert pages[st.page].left < pages[p].left;
    }
  }

  // ---------------------------------------------------------------------------
  // The operations keep the invariant
  // ---------------------------------------------------------------------------

  /** `updatePagination` throws exactly when the layout does (a zero-width first tab) or the
      selected tab has no record; with a record for every tab only the first can happen. */
  lemma UpdatePaginationThrowsIff(st: State, view: TabsView, widths: seq<nat>, clientWidth: int)
    requires UsableWidth(clientWidth) > 0
    requires |view.items| <= |widths|
    ensures UpdatePagination(st, view, widths, clientWidth).completion == Threw <==> |widths| > 0 && widths[0] == 0
  {
    CalculateFailsIff(widths, clientWidth);
    match CalculateTabData(widths, clientWidth)
    case None =>
    case Some(d) =>
      CalculatedIsIndexed(widths, clientWidth, d);
      if |d.pages| > 1 {
        var home := Slide(st, 0, Ignore).state;
        var enabled := home.(page := -1, active := true, tabData := d, pagesCount := Some(|d.pages|));
        PageForTabExists(enabled, view, view.selected);
      }
  }

  /** After a successful `updatePagination` the state is valid; pagination is active exactly
      when the layout has more than one page, and then the page shown is the selected tab's
      page (page 0 when nothing known is selected); an inactive state is at page -1. */
  lemma UpdatePaginationValid(st: State, view: TabsView, widths: seq<nat>, clientWidth: int)
    requires UsableWidth(clientWidth) > 0
    requires UpdatePagination(st, view, widths, clientWidth).completion != Threw
    ensures var o := UpdatePagination(st, view, widths, clientWidth);
      && CalculateTabData(widths, clientWidth) == Some(o.state.tabData)
      && Valid(o.state)
      && (o.state.active <==> |o.state.tabData.pages| > 1)
      && (!o.state.active ==> o.state.page == -1)
      && (o.state.active ==> Some(o.state.page) == GetPageForTab(o.state, view, view.selected))
      && o.effects[|o.effects| - 1] == PaginationChangedLater
  {
    var d :| CalculateTabData(widths, clientWidth) == Some(d);
    CalculatedIsIndexed(widths, clientWidth, d);
    if |d.pages| > 1 {
      var home := Slide(st, 0, Ignore).state;
      var enabled := home.(page := -1, active := true, tabData := d, pagesCount := Some(|d.pages|));
      var p :| GetPageForTab(enabled, view, view.selected) == Some(p);
      if IndexOf(view.items, view.selected) != -1 {
        assert 1 <= d.tabs[IndexOf(view.items, view.selected)].page <= |d.pages|;
      }
      assert 0 <= p < |d.pages|;
    }
  }

  /** A selection change keeps a valid state valid.  When pagination is active it shows the
      selected tab's page, and throws, changing nothing, exactly when that tab is unmeasured;
      when inactive it only asks for an update. */
  lemma SelectedTabChangeKeepsValid(st: State, view: TabsView)
    requires Valid(st)
    ensures var o := OnSelectedTabChange(st, view);
      && Valid(o.state)
      && (o.completion == Threw <==> st.active && Unmeasured(st, view, view.selected))
      && (o.completion == Threw ==> o.state == st && o.effects == [])
      && (view.selected.Some? && st.active && o.completion != Threw ==>
            Some(o.state.page) == GetPageForTab(st, view, view.selected))
      && (!st.active ==> o.state == st)
  {
    PageForTabExists(st, view, view.selected);
    if view.selected.Some? && st.active && !Unmeasured(st, view, view.selected) {
      var p := GetPageForTab(st, view, view.selected).value;
      if p != st.page {
        SetOtherPageWaits(st, p, Ignore);
      }
    }
  }

  /** Focusing a tab keeps a valid state valid.  It throws, changing nothing, exactly when the
      tab is unmeasured, whether or not pagination is active.  Otherwise the tab is focused at
      once exactly when pagination is inactive or the tab is on the page shown; else the
      previous tab is blurred, the strip slides to the tab's page, and the focus waits in a
      listener. */
  lemma TabFocusKeepsValid(st: State, view: TabsView, tab: TabId, oldTab: Option<TabId>)
    requires Valid(st)
    ensures var o := OnTabFocus(st, view, Some(tab), oldTab);
      var p := GetPageForTab(st, view, Some(tab));
      && Valid(o.state)
      && (o.completion == Threw <==> Unmeasured(st, view, Some(tab)))
      && (o.completion == Threw ==> o.state == st && o.effects == [])
      && (p.Some? ==> (Focus(tab) in o.effects <==> !st.active || p.value == st.page))
      && (p.Some? && (!st.active || p.value == st.page) ==> o.state == st)
      && (p.Some? && st.active && p.value != st.page ==>
            && o.completion == Pending
            && o.state.page == p.value
            && o.state.listeners == st.listeners + [Some(tab)]
            && o.effects == (if oldTab.Some? then [Blur(oldTab.value)] else []) + [PaginationChanged])
  {
    PageForTabExists(st, view, Some(tab));
    if !Unmeasured(st, view, Some(tab)) {
      var p := GetPageForTab(st, view, Some(tab)).value;
      if st.active && p != st.page {
        SetOtherPageWaits(st, p, FocusTab(Some(tab)));
      }
    }
  }

  /** A paging click keeps a valid state valid.  On an active state it throws exactly when the
      button's flag is off (no page on that side); otherwise it moves one page, selects the
      first tab of the next page or the last tab of the previous one, and focuses it once the
      strip has slid.  On an inactive state only "next" from page -1 over a single page
      succeeds: the strip is already home, so the focus follows the selection at once. */
  lemma UserChangePageKeepsValid(st: State, view: TabsView, inc: int)
    requires Valid(st)
    requires inc == 1 || inc == -1
    ensures var o := UserChangePage(st, view, inc);
      && Valid(o.state)
      && (st.active ==> (o.completion == Threw <==> !(if inc > 0 then st.hasNext else st.hasPrev)))
      && (!st.active ==>
            (o.completion == Threw <==> !(st.page == -1 && inc == 1 && |st.tabData.pages| == 1)))
      && (o.completion != Threw ==>
            var page := st.tabData.pages[st.page + inc];
            var newTab := ItemAt(view.items, if inc > 0 then page.firstTabIndex else page.lastTabIndex);
            && o.state.page == st.page + inc
            && o.completion == (if st.active then Pending else Resolved)
            && o.state.listeners == st.listeners + (if st.active then [newTab] else [])
            && o.effects == [PaginationChanged, Select(newTab)] + (if st.active then [] else Focuses([newTab])))
  {
    if st.active {
      ActivePagingClick(st, view, inc);
    } else {
      HiddenPagingClick(st, view, inc);
    }
  }

  lemma ActivePagingClick(st: State, view: TabsView, inc: int)
    requires Valid(st) && st.active
    requires inc == 1 || inc == -1
    ensures var o := UserChangePage(st, view, inc);
      && Valid(o.state)
      && (o.completion == Threw <==> !(if inc > 0 then st.hasNext else st.hasPrev))
      && (o.completion != Threw ==>
            var page := st.tabData.pages[st.page + inc];
            var newTab := ItemAt(view.items, if inc > 0 then page.firstTabIndex else page.lastTabIndex);
            && o.state.page == st.page + inc
            && o.completion == Pending
            && o.state.listeners == st.listeners + [newTab]
            && o.effects == [PaginationChanged, Select(newTab)])
  {
    if 0 <= st.page + inc < |st.tabData.pages| {
      ActiveClickMoves(st, view, inc);
    }
  }

  /** The successful case of an active paging click: the adjacent page exists. */
  lemma ActiveClickMoves(st: State, view: TabsView, inc: int)
    requires Valid(st) && st.active
    requires inc == 1 || inc == -1
    requires 0 <= st.page + inc < |st.tabData.pages|
    ensures var o := UserChangePage(st, view, inc);
      var page := st.tabData.pages[st.page + inc];
      var newTab := ItemAt(view.items, if inc > 0 then page.firstTabIndex else page.lastTabIndex);
      && Valid(o.state)
      && o.state.page == st.page + inc
      && o.completion == Pending
      && o.state.listeners == st.listeners + [newTab]
      && o.effects == [PaginationChanged, Select(newTab)]
  {
    var newPage := st.page + inc;
    var pages := st.tabData.pages;
    var newTabIndex := if inc > 0 then pages[newPage].firstTabIndex else pages[newPage].lastTabIndex;
    var newTab := ItemAt(view.items, newTabIndex);
    var moved := SetPage(st, newPage, FocusTab(newTab));
    SetOtherPageWaits(st, newPage, FocusTab(newTab));
    ClickSelectsAfterMove(st, view, inc);
    assert moved.effects + [Select(newTab)] == [PaginationChanged, Select(newTab)];
  }

  /** A paging click whose move to the adjacent page waits on a transition end: the click's
      outcome is the move's, with the selection added after the move's effects. */
  lemma ClickSelectsAfterMove(st: State, view: TabsView, inc: int)
    requires inc == 1 || inc == -1
    requires 0 <= st.page + inc < |st.tabData.pages|
    ensures var page := st.tabData.pages[st.page + inc];
      var newTab := ItemAt(view.items, if inc > 0 then page.firstTabIndex else page.lastTabIndex);
      var moved := SetPage(st, st.page + inc, FocusTab(newTab));
      moved.completion == Pending ==>
        UserChangePage(st, view, inc) == Outcome(moved.state, moved.effects + [Select(newTab)], Pending)
  {
  }

  /** The paging buttons are hidden while pagination is off, but a click still reaches
      `userChangePage`: from page -1 over a single page it lands on page 0 with the strip already
      home, so it selects the page's tab and focuses it right after; any other click throws. */
  lemma HiddenPagingClick(st: State, view: TabsView, inc: int)
    requires Valid(st) && !st.active
    requires inc == 1 || inc == -1
    ensures var o := UserChangePage(st, view, inc);
      && Valid(o.state)
      && (o.completion == Threw <==> !(st.page == -1 && inc == 1 && |st.tabData.pages| == 1))
      && (o.completion != Threw ==>
            var newTab := ItemAt(view.items, st.tabData.pages[0].firstTabIndex);
            && o.state == st.(page := 0, hasPrev := false, hasNext := false)
            && o.completion == Resolved
            && o.effects == [PaginationChanged, Select(newTab)] + Focuses([newTab]))
  {
    var pages := st.tabData.pages;
    if 0 <= st.page + inc < |pages| {
      assert st.page + inc == 0 && |pages| == 1 && pages[0].left == 0;
    }
  }

  /** A transition end on the strip releases every waiting focus, in the order the slides were
      made, and changes nothing else; one from a child element changes nothing at all. */
  lemma TransitionEndReleasesFocus(st: State, targetIsStrip: bool)
    requires Valid(st)
    ensures var o := TransitionEnd(st, targetIsStrip);
      && Valid(o.state)
      && (!targetIsStrip ==> o.state == st && o.effects == [])
      && (targetIsStrip ==> o.state == st.(listeners := []))
      && (targetIsStrip ==> forall t: TabId :: Some(t) in st.listeners <==> Focus(t) in o.effects)
  {
    if targetIsStrip {
      FocusesMatch(st.listeners);
    }
  }

  lemma {:induction false} FocusesMatch(targets: seq<Option<TabId>>)
    ensures forall t: TabId :: Some(t) in targets <==> Focus(t) in Focuses(targets)
    decreases |targets|
  {
    if targets != [] {
      FocusesMatch(targets[1..]);
      assert targets == [targets[0]] + targets[1..];
    }
  }

  /** `setPage` clamps to `pagesCount` rather than to the last page index, so asking a valid
      active state for page `pagesCount` lands on a page with no record and throws, after the
      page and flags have already been changed and the change broadcast. */
  lemma SetPagePastLastThrows(st: State, k: Then)
    requires Valid(st) && st.active
    ensures var n := |st.tabData.pages|;
      var o := SetPage(st, n, k);
      && o.completion == Threw
      && o.state.page == n
      && !o.state.hasNext
      && o.effects == [PaginationChanged]
  {
  }

  /** Any target beyond the last page settles on `pagesCount` and so throws in the same way. */
  lemma SetPageBeyondLastThrows(st: State, p: int, k: Then)
    requires Valid(st) && st.active && p >= |st.tabData.pages|
    ensures SetPage(st, p, k).completion == Threw
  {
  }
}
