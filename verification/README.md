# Switch drag and tab pagination of Angular Material, modelled in Dafny

This project models the stateful core of two Angular Material components:

- **The switch's drag gesture.** `setupDrag` is a small recognizer. It listens for start, move
  and end events and keeps a "pointer is down" flag and at most one drag record. The record is
  tied to the pointer class that started it: mouse, touch or pointer. The switch plugs three
  callbacks into the recognizer:
  - `onDragStart` vetoes the drag when the switch is disabled, and otherwise captures the width.
  - `onDrag` moves the thumb.
  - `onDragEnd` decides whether the drag flips the switch.
- **Tab pagination.**
  - `calculateTabData` lays the measured tabs out left to right. Each tab gets a position, a
    filler margin and a 1-based page number. The row is cut into pages no wider than the
    usable width, which is `clientWidth - 64 - 1`.
  - The pagination directive is a page state machine. It covers `updatePagination`, `setPage`,
    `getPageForTab`, the paging buttons (`userChangePage`), the selection and focus watchers,
    and the strip slide that waits for a transition end.
  - The ink bar's `updateBar` places the bar under the selected tab. It keeps a one-slot timer
    that removes the grow class after 250 ms.

Modules, one per file:

| file | module | what it holds |
|---|---|---|
| `common.dfy` | `Common` | `Option`, `Min`, `Max`, `Abs` |
| `tabs_controller.dfy` | `TabsController` | the tabs controller as the pagination and the ink bar see it: tab order, selection, `indexOf`, `itemAt` |
| `drag.dfy` | `DragRecognizer` | `setupDrag`, generic over the state of the component it drives |
| `switch.dfy` | `Switch` | the switch's three callbacks, the flip decision, and the switch wired to the recognizer |
| `tab_layout.dfy` | `TabLayout` | `calculateTabData` as a left-to-right fold, with its invariant |
| `pagination.dfy` | `Pagination` | the page state machine and its validity invariant |
| `ink_bar.dfy` | `InkBar` | `updateBar` and its removal timer |

## How the model works

- **Exceptions.** A JavaScript `TypeError` ends the operation in the middle.
  - In the layout, a zero-width first tab lands on page 0 while no page is open. The code then
    reads a property of an undefined page. The model returns `None`.
  - In the pagination state machine, an operation that throws ends with completion `Threw`. It
    keeps the state as far as the code had changed it before throwing.
- **Promises.**
  - `setPage` returns either nothing, a promise already resolved, or a promise waiting for a
    transition end.
  - Each slide that waits registers a listener. The listener remembers the tab its
    continuation will focus.
  - A transition end on the strip itself resolves every waiting listener, in order.
- **Effects.** Broadcasts, `focus`, `blur`, `select` and the debounced update request are
  returned as a sequence of effects.
- **The drag recognizer** is generic over the state `C` of the component it drives.
  - `onDragStart` and `onDrag` each return a `Reply`: the component's new state, the drag
    record as the callback left it, and whether it vetoed.
  - `onDragEnd` returns only the component's new state.
  - Every run also logs which callbacks were invoked.
- **Timers** of the ink bar are known by identity. `pending` is the set scheduled and neither
  fired nor cancelled. `timeout` is the handle the directive remembers.
- **Not-a-number.** A thumb position computed as NaN is represented as an unset `translate`.
  Like NaN, it compares false with everything.

### Behaviour worth noting

- **The flip decision.**
  - The comment beside the expression says the switch changes on a click (no distance) or
    on a drag past half the width.
  - The expression `Math.abs(d) < 5 || checked ? t < 0.5 : t > 0.5` parses as
    `(Math.abs(d) < 5 || checked) ? t < 0.5 : t > 0.5`. So the short-drag test only chooses
    which comparison applies.
  - A short drag of a checked switch at least 10 pixels wide does not flip it
    (`Switch.CheckedTapDoesNotFlip`).
  - A press and release with no move leaves `translate` unset, so it never flips
    (`Switch.NoMoveNeverFlips`).
- **The thumb position is clamped.** An unchecked switch dragged from x=100 to x=70 on an
  80-pixel track computes `-30/80`, which `Math.max(0, …)` clamps to 0
  (`Switch.TranslateEnds`, `Switch.DragLeftKeepsUnchecked`).
- **A touch drag never ends through a `touchend` that lifts the last finger.** That event has
  an empty list of current touches, so `getPosition` throws in `updateDrag`. By then `endDrag`
  has already released the pointer. `onDragEnd` never runs and the drag stays open
  (`DragRecognizer.MatchingEndEndsDrag`, `Switch.TouchTapLeavesDragOpen`). With a second finger
  still down, the `touchend` reads that finger's position instead, and the drag ends normally
  (`Switch.SecondFingerEndsTouchDrag`).
- **Transition-end listeners accumulate.** Every slide that moves the strip registers a
  listener, and none is removed until a transition end on the strip arrives. That one event
  runs every waiting focus continuation, in order (`Pagination.TransitionEndReleasesFocus`).
- **A resolved promise still defers its continuation.** When the strip is already in place,
  `slideTabButtons` returns a resolved promise. Its `then` callback still runs after the
  current handler, so a click selects the new tab before focusing it
  (`Pagination.HiddenPagingClick`).
- **A new tab can be selected before it is measured.** A change of tabs only schedules a
  debounced `updatePagination`. The watchers on the selection and on the tab to focus can run
  first. They then ask `getPageForTab` about a tab with no layout record, and that throws
  (`Pagination.SelectedTabChangeKeepsValid`, `Pagination.TabFocusKeepsValid`).
- **The clamp in `setPage`.** It clamps to `pagesCount`, not to the last page index. A request
  for page `pagesCount` or beyond throws. It throws after the page and flags have been changed
  and the change broadcast (`Pagination.SetPagePastLastThrows`).

## Model

| member | source | states |
|---|---|---|
| DragRecognizer.PointerClass | src/components/switch/switch.js:200-202 | the pointer class of an event type is its first character, or empty for an empty type |
| DragRecognizer.NewDrag | src/components/switch/switch.js:158-164 | a new drag takes the event's pointer class and start position and has no motion or thumb position yet |
| DragRecognizer.UpdateDrag | src/components/switch/switch.js:189-195 | the distance is the start position minus the event's x; the direction is left, right or none exactly as x is left of, right of or at the start; nothing else in the drag changes |
| DragRecognizer.StartDrag | src/components/switch/switch.js:154-169 | a start while the pointer is down does nothing; otherwise the pointer goes down; with an unreadable position nothing else happens; otherwise `onDragStart` is called once with a fresh drag, and the drag survives exactly when not vetoed |
| DragRecognizer.EndDrag | src/components/switch/switch.js:180-198 | the pointer is always released; `onDragEnd` runs exactly when there is a drag of the event's class and the position is readable, and then the drag is cleared; otherwise drag and client are untouched |
| DragRecognizer.DoDrag | src/components/switch/switch.js:170-179 | a move with no drag, of another class or with an unreadable position does nothing; otherwise `onDrag` runs on the updated drag, and a veto continues into the end path with the same event |
| DragRecognizer.Handle | src/components/switch/switch.js:131-147 | event types outside the three lists are not heard; a start always leaves the pointer down and an end always releases it, each invoking at most one callback; no event invokes more than two |
| DragRecognizer.Run | src/components/switch/switch.js:142-147 | a run of n events invokes at most 2n callbacks, and leaves the pointer released after a final end and down after a final start |
| DragRecognizer.StartIgnoredWhilePointerDown | src/components/switch/switch.js:155 | a start event while the pointer is down changes nothing and invokes nothing |
| DragRecognizer.StartOpensDrag | src/components/switch/switch.js:154-169 | a start with the pointer up puts it down; with a readable position it calls only `onDragStart` and keeps the drag iff the callback does not veto; without one it calls nothing and keeps the old drag |
| DragRecognizer.EndAlwaysReleasesPointer | src/components/switch/switch.js:180-182 | every end event, matching or not, releases the pointer |
| DragRecognizer.MatchingEndEndsDrag | src/components/switch/switch.js:180-198 | an end of the drag's class with a readable position calls `onDragEnd` once on the updated drag and leaves the recognizer idle; without a readable position it only releases the pointer and the drag stays open |
| DragRecognizer.DragVetoEndsDrag | src/components/switch/switch.js:170-179 | a vetoing `onDrag` is followed at once by `onDragEnd`, and the recognizer is left idle |
| DragRecognizer.UnreadablePositionLeavesDrag | src/components/switch/switch.js:196-199 | an event whose position cannot be read invokes nothing and leaves drag and client alone; only the pointer flag moves |
| DragRecognizer.ForeignEventLeavesDrag | src/components/switch/switch.js:171-182 | a move or end of another pointer class leaves drag and client alone and calls nothing; only an end releases the pointer |
| DragRecognizer.VetoedStartBlocksUntilEnd | src/components/switch/switch.js:155-168 | with the pointer down and no drag, any events before an end (further starts included) are ignored |
| DragRecognizer.VetoedStartKeepsPointerDown | src/components/switch/switch.js:154-168 | after a vetoed start and no end, no drag exists, the pointer stays down, and `onDragStart` was the only callback |
| DragRecognizer.ForeignEventsLeaveDrag | src/components/switch/switch.js:170-187 | over any run of events of another pointer class the drag and client never change and no callback runs; the pointer is released iff one of them is an end |
| DragRecognizer.EndsNeverOutnumberStarts | src/components/switch/switch.js:154-187 | over any run, `onDragEnd` calls plus a drag still open never exceed `onDragStart` calls plus the drag open before |
| Switch.Clamp01 | src/components/switch/switch.js:100 | the result lies in [0, 1], equals the input strictly inside, and hits 0 or 1 exactly when the input is at or beyond that end |
| Switch.LiveTranslate | src/components/switch/switch.js:95-100 | the thumb position lies in [0, 1] and with no displacement sits at the end matching the checked state |
| Switch.ShouldFlip | src/components/switch/switch.js:113-114 | an unset position never flips, and no flip happens at exactly one half |
| Switch.OnDragStart | src/components/switch/switch.js:88-93 | vetoes exactly when disabled, leaving the switch alone; otherwise captures the container width and turns animation off |
| Switch.OnDrag | src/components/switch/switch.js:94-104 | never vetoes; writes the same position to the thumb's transform and the drag, and that position is the live thumb position whenever a width and a distance exist |
| Switch.OnDragEnd | src/components/switch/switch.js:105-121 | a disabled switch is left as it is; otherwise animation returns, the transform is cleared, and the checked state changes exactly when the flip decision says so |
| Switch.TranslateEnds | src/components/switch/switch.js:95-100 | an unchecked thumb sits at 0 exactly until the pointer passes right of the start, and at 1 exactly once it has moved a full width; a checked thumb mirrors this |
| Switch.NoMoveNeverFlips | src/components/switch/switch.js:111-114 | a press and release with no move never changes the checked state |
| Switch.CheckedFlipsIff | src/components/switch/switch.js:95-114 | a checked switch flips exactly when twice the leftward distance exceeds the width, whatever direction the motion records |
| Switch.UncheckedFlipsIff | src/components/switch/switch.js:95-114 | an unchecked switch dragged at least 5 pixels flips exactly when twice the rightward distance exceeds the width |
| Switch.UncheckedTapFlips | src/components/switch/switch.js:111-114 | a drag under 5 pixels flips an unchecked switch at least 10 pixels wide |
| Switch.CheckedTapDoesNotFlip | src/components/switch/switch.js:111-114 | a drag under 5 pixels does not flip a checked switch at least 10 pixels wide |
| Switch.HandleKeepsWired | src/components/switch/switch.js:88-104 | one event keeps "a drag in progress has a captured width" and never changes `disabled` |
| Switch.RunKeepsWired | src/components/switch/switch.js:82-104 | over any run, a drag in progress always has a captured width, so the live position is a number |
| Switch.DisabledNeverFlips | src/components/switch/switch.js:88-90 | no sequence of events flips a disabled switch |
| Switch.MouseDownStep | src/components/switch/switch.js:154-169 | a mouse press on an idle enabled switch opens a mouse drag at the press position and captures the width |
| Switch.MouseMoveStep | src/components/switch/switch.js:170-179 | a mouse move during a mouse drag records the displacement and puts the live position on the thumb and the drag |
| Switch.MouseUpStep | src/components/switch/switch.js:180-187 | a mouse release during a mouse drag runs `onDragEnd` on the updated drag and leaves the recognizer idle |
| Switch.GestureOutcome | src/components/switch/switch.js:82-121 | a full mouse gesture calls the three callbacks in order, leaves the recognizer idle, restores animation, and flips exactly as the decision on the motion of the release and the last live position says |
| Switch.DragLeftKeepsUnchecked | src/components/switch/switch.js:94-114 | an unchecked 80-pixel switch dragged from 100 to 70 stays unchecked |
| Switch.DragRightChecks | src/components/switch/switch.js:94-114 | the same switch dragged from 100 to 150 becomes checked |
| Switch.SecondFingerEndsTouchDrag | src/components/switch/switch.js:154-199 | with a second finger down, its touchstart is ignored and lifting the first finger runs `onDragEnd`: the recognizer is idle again, animation is back on, and with no move the value is kept |
| Switch.TouchTapLeavesDragOpen | src/components/switch/switch.js:180-198 | a touch tap on an enabled switch runs only `onDragStart`: the value is kept, animation stays off, and the touch drag stays open |
| Switch.TouchTakesOverMouseDrag | src/components/switch/switch.js:154-187 | a touch end releases the pointer without ending a mouse drag, and the next touch start replaces that drag with no `onDragEnd` for it |
| TabsController.IndexOf | src/components/tabs/js/paginationDirective.js:195-196 | the position is -1 exactly for an absent or unknown tab, and otherwise the tab's first occurrence |
| TabsController.ItemAt | src/components/tabs/js/paginationDirective.js:73-74 | a tab is returned exactly for a position inside the list, it is the tab at that position, and its first occurrence is at or before it |
| TabsController.ItemAtIndexOf | src/components/tabs/js/paginationDirective.js:73-74 | reading back the position found for a known tab gives that tab, and for a tab that occurs once, finding the tab read at a position gives that position back |
| TabLayout.CeilDiv | src/components/tabs/js/paginationDirective.js:163 | the page number `c` satisfies `w*(c-1) < right <= w*c` |
| TabLayout.Place | src/components/tabs/js/paginationDirective.js:153-182 | one step fails only while no page is open; otherwise it appends one record, keeps the earlier ones, cuts the new width to one page, ends the running width at the new tab, and opens at most one page |
| TabLayout.Layout | src/components/tabs/js/paginationDirective.js:153-182 | a successful pass makes one record per tab, each with the tab's measured width cut to one page |
| TabLayout.CalculateTabData | src/components/tabs/js/paginationDirective.js:140-192 | only a non-empty row of tabs can fail; otherwise one record per tab, each width cut to the usable width |
| TabLayout.PlacePage | src/components/tabs/js/paginationDirective.js:163-164 | a new tab's page number is the current page count, or one more exactly when its right edge passes the last page (0 for a zero-width first tab) |
| TabLayout.PlaceFacts | src/components/tabs/js/paginationDirective.js:153-182 | one step fails exactly for a zero-width first tab; otherwise earlier records stay, and the tab either opens a page at its left edge with filler or joins the last page |
| TabLayout.LayoutFailsIff | src/components/tabs/js/paginationDirective.js:153-182 | the pass fails exactly when the first tab measures zero wide |
| TabLayout.LayoutInvariant | src/components/tabs/js/paginationDirective.js:153-182 | every promise of the layout (clamping, page membership, partition, flow, openers, widest) holds after each tab |
| TabLayout.CalculateFailsIff | src/components/tabs/js/paginationDirective.js:163-178 | the computation throws exactly when the first tab is zero wide; otherwise there is one record per tab and a page iff there is a tab |
| TabLayout.Calculated | src/components/tabs/js/paginationDirective.js:140-192 | a successful computation satisfies the whole layout invariant |
| TabLayout.RecordedWidthsFitOnePage | src/components/tabs/js/paginationDirective.js:154 | every recorded width is the measured width cut to one usable page width |
| TabLayout.FillerOnlyOpensPages | src/components/tabs/js/paginationDirective.js:160-178 | filler is never negative, sits only on a tab that opens a page, and pushes it to `w*j`, the page's left edge |
| TabLayout.PagesPartitionTabs | src/components/tabs/js/paginationDirective.js:164-178 | the pages hold consecutive runs of tab indices covering every tab, and tab i is in page j exactly when its page number is j+1 |
| TabLayout.TabsStayOnTheirPage | src/components/tabs/js/paginationDirective.js:157-179 | each tab lies between its page's edges `w*(page-1)` and `w*page`, and its right edge is its left edge plus its width |
| TabLayout.TabInsideItsPage | src/components/tabs/js/paginationDirective.js:163-178 | measured from its page's left edge, every tab fits in one usable width |
| TabLayout.MultiplePagesMultipleTabs | src/components/tabs/js/paginationDirective.js:163-174 | more than one page needs at least two tabs |
| TabLayout.WidthAndMax | src/components/tabs/js/paginationDirective.js:179-191 | the total width is the last tab's right edge (0 with no tabs), and `max` is the widest recorded width |
| TabLayout.LayoutTotal | src/components/tabs/js/paginationDirective.js:153-182 | the total width is at least the sum of the clamped widths, equals it on one page, and a sum within one page gives one page |
| TabLayout.SinglePageIff | src/components/tabs/js/paginationDirective.js:88 | at most one page exactly when the clamped widths add up to one usable width, and then no tab has filler |
| TabLayout.ExampleLayout | src/components/tabs/js/paginationDirective.js:153-182 | four 120-pixel tabs on a 300-pixel page lay out step by step as two pages of two tabs |
| TabLayout.FourTabsExample | src/components/tabs/js/paginationDirective.js:140-192 | in a 365-pixel container the third tab opens page 2 behind 60 pixels of filler, giving two pages |
| TabLayout.CalculatedIsIndexed | src/components/tabs/js/paginationDirective.js:162-178 | every tab names an existing page, every page names existing tabs, the first page starts at 0, and page left edges strictly increase |
| Pagination.Focuses | src/components/tabs/js/paginationDirective.js:52-54 | continuations produce only focus calls, at most one per continuation |
| Pagination.Slide | src/components/tabs/js/paginationDirective.js:117-138 | the offset becomes x and nothing is emitted; the promise is resolved at once exactly when the offset was already x, otherwise a listener with the continuation's tab is appended and the promise waits |
| Pagination.Continue | src/components/tabs/js/paginationDirective.js:52-54 | a resolved promise's continuation adds its focus after every effect already made; a waiting one adds nothing; state and completion are kept |
| Pagination.ClampPage | src/components/tabs/js/paginationDirective.js:206-209 | negative targets go to 0, targets past `pagesCount` go to `pagesCount`, and others are kept |
| Pagination.SetPage | src/components/tabs/js/paginationDirective.js:203-219 | the current page returns no promise and emits nothing; otherwise the page and flags are set from the clamped target, the change is broadcast once, and it throws exactly when the clamped page has no record, or else slides to that page's left edge |
| Pagination.GetPageForTab | src/components/tabs/js/paginationDirective.js:194-201 | an unknown tab gives page 0; a known tab gives its page number less one, and throws exactly when it has no record |
| Pagination.OnSelectedTabChange | src/components/tabs/js/paginationDirective.js:58-67 | keeps the layout and the active flag; only broadcasts a page change or requests an update, the latter exactly when a tab is selected while inactive; with no selection or inactive the state is unchanged |
| Pagination.OnTabFocus | src/components/tabs/js/paginationDirective.js:43-56 | keeps the layout and the active flag; with no tab nothing happens; it focuses no tab but the new one and blurs no tab but the old one |
| Pagination.UserChangePage | src/components/tabs/js/paginationDirective.js:70-78 | a target page outside the pages throws with nothing changed; a throw selects nothing; otherwise the change is broadcast, then a tab selected, and only focus calls follow |
| Pagination.UpdatePagination | src/components/tabs/js/paginationDirective.js:80-115 | never leaves a promise; an inactive result is at page -1 with the strip home; success ends with the timeout broadcast, and a throw never schedules it |
| Pagination.TransitionEnd | src/components/tabs/js/paginationDirective.js:131-137 | only the listeners change, cleared by an event on the strip; a child's event changes nothing; at most one focus per listener |
| Pagination.PageForTabExists | src/components/tabs/js/paginationDirective.js:194-201 | the lookup throws exactly for a known tab without a layout record, so never when every tab has one; a page found is an existing page |
| Pagination.SetOtherPageWaits | src/components/tabs/js/paginationDirective.js:203-219 | in a valid active state a move to another existing page stays valid, broadcasts once and always waits for a transition end |
| Pagination.UpdatePaginationThrowsIff | src/components/tabs/js/paginationDirective.js:80-115 | with a width for every tab, an update throws exactly when the first tab is zero wide |
| Pagination.UpdatePaginationValid | src/components/tabs/js/paginationDirective.js:80-115 | a successful update leaves a valid state, active exactly with more than one page, showing the selected tab's page (page -1 when inactive), and broadcasts from a timeout last |
| Pagination.SelectedTabChangeKeepsValid | src/components/tabs/js/paginationDirective.js:58-67 | a selection change keeps the state valid; when active it throws, changing nothing, exactly when the selected tab has no layout record yet, and otherwise shows that tab's page; when inactive it only requests an update |
| Pagination.TabFocusKeepsValid | src/components/tabs/js/paginationDirective.js:43-56 | focusing a tab keeps the state valid; it throws, changing nothing, exactly when the tab has no layout record yet, active or not; otherwise it focuses at once iff inactive or on the shown page, and else blurs the old tab and defers the focus to a slide |
| Pagination.UserChangePageKeepsValid | src/components/tabs/js/paginationDirective.js:70-78 | a paging click keeps the state valid; when active it throws iff that button's flag is off; when inactive it succeeds only for "next" from page -1 over one page; on success it moves one page, broadcasts, then selects the first tab of the next page or the last tab of the previous one, and focuses it after the slide |
| Pagination.ActiveClickMoves | src/components/tabs/js/paginationDirective.js:70-78 | on an active valid state, a click toward an existing page moves there, waits on the slide, broadcasts and then selects that page's edge tab |
| Pagination.ClickSelectsAfterMove | src/components/tabs/js/paginationDirective.js:70-78 | when the move waits on a slide, the click's outcome is the move's with the selection added after its effects |
| Pagination.ActivePagingClick | src/components/tabs/js/paginationDirective.js:70-78 | on an active valid state a click throws iff the button's flag is off; otherwise it waits on a slide to the adjacent page with the new tab's focus queued, after broadcasting and selecting |
| Pagination.HiddenPagingClick | src/components/tabs/js/paginationDirective.js:70-78 | on an inactive valid state only "next" from page -1 over a single page succeeds: it lands on page 0 without moving the strip, then broadcasts, selects the page's tab and focuses it, in that order |
| Pagination.TransitionEndReleasesFocus | src/components/tabs/js/paginationDirective.js:131-137 | a transition end from a child changes nothing; one on the strip clears every listener and focuses exactly the tabs they waited for |
| Pagination.FocusesMatch | src/components/tabs/js/paginationDirective.js:52-54 | a tab is focused by the continuations exactly when some continuation waited for it |
| Pagination.SetPagePastLastThrows | src/components/tabs/js/paginationDirective.js:206-218 | in a valid active state, asking for page `pagesCount` throws after setting the page, clearing the next flag and broadcasting |
| Pagination.SetPageBeyondLastThrows | src/components/tabs/js/paginationDirective.js:206-218 | in a valid active state, any target past the last page throws |
| InkBar.Place | src/components/tabs/js/inkBarDirective.js:33-46 | the bar is hidden exactly when nothing is selected, there are fewer than two tabs, or one item per page; reading the layout throws exactly when shown with no layout; otherwise it takes the selected tab's record or 0/0 |
| InkBar.UpdateBar | src/components/tabs/js/inkBarDirective.js:33-55 | the display is always written, `none` exactly when hidden; the grow class is only ever added; at most one fresh timer is scheduled |
| InkBar.Fire | src/components/tabs/js/inkBarDirective.js:50-52 | the fired timer is no longer pending; the grow class goes exactly when the timer was still pending; nothing else changes |
| InkBar.Schedule | src/components/tabs/js/inkBarDirective.js:49-52 | the remembered removal is cancelled, and a fresh timer is remembered and pending |
| InkBar.UpdateBarEffect | src/components/tabs/js/inkBarDirective.js:33-55 | `display: none` exactly when hidden; position and width change only when shown; the grow class and a fresh timer come exactly with a nonzero width |
| InkBar.ApplyKeepsOneSlot | src/components/tabs/js/inkBarDirective.js:29-52 | any update or timer keeps at most the remembered removal pending |
| InkBar.AtMostOneRemovalPending | src/components/tabs/js/inkBarDirective.js:29-52 | whichever listeners are registered, over any sequence of changes and timer firings at most one removal is ever pending |
| InkBar.PostLink | src/components/tabs/js/inkBarDirective.js:25-31 | `md-no-bar` registers no listener at all; otherwise the selection watch and both broadcasts are heard |
| InkBar.NoBarNeverUpdates | src/components/tabs/js/inkBarDirective.js:25-31 | with the listeners `md-no-bar` leaves registered, no sequence of changes and timer firings alters a bar that has no removal pending |
| InkBar.GrowEndsWhenTimerFires | src/components/tabs/js/inkBarDirective.js:47-52 | after showing a tab of nonzero width, the remembered timer firing removes the grow class and leaves nothing pending |
| InkBar.BarInsideVisiblePage | src/components/tabs/js/inkBarDirective.js:42-46 | after an update that turned paging on, the bar under the selected tab lies inside the visible window of the strip |

## Left out

- Zero-width thumb containers. `Switch.Width` is positive. With an `offsetWidth` of 0, `onDrag`
  divides by zero: any move gives an infinite position that clamps to 0 or 1, and no move gives
  NaN, which leaves the thumb where it was. A press on the switch's label still starts a drag
  in that case, because the start listeners are on the whole element.
- Containers with a usable width of zero or less. `calculateTabData` then divides by zero or a
  negative number, so the layout requires `clientWidth - 65 > 0`.
- `drag.time` and `drag.velocity`. Nothing in the modelled code reads them, and they depend on a
  clock.
- `getPosition`'s reading of `originalEvent` and touch lists. An event carries the position read
  from it directly, or none when reading it throws because the touch list is empty. Which touch
  events have an empty list is up to the caller of the model.
- The DOM and CSS writes:
  - the 9999px strip width and the per-tab `max-width` and `margin-left` styles;
  - the thumb's and the strip's `translate3d` strings.

  Only the values they carry are kept.
- Listener registration (apart from the ink bar's, which `md-no-bar` switches off) and teardown
  on `$destroy`, the window resize listener, `$$rAF.debounce`
  and `$timeout`. A debounced update is a `RequestUpdate` effect, and a timeout broadcast is a
  `PaginationChangedLater` effect. The ink bar's timer is a signal delivered at any time.
- IEEE floating point. Thumb positions (`translate`) are exact reals. A NaN position is an
  unset `translate`.
- Fractional pointer positions. Pointer positions (`pageX`, a drag's `startX` and `distance`) are
  whole pixels. Browsers may report a fractional `pageX` for touch and pointer events, so a drag
  of, say, 4.5 pixels against the 5-pixel tap threshold cannot be expressed.
- `ngModel`, `$render`, `scope.$apply` and the checkbox link. The view value is the state's
  `checked` field.
- The tabs controller, including its `count()`. Only tab order, the selection, `indexOf` and
  `itemAt` are modelled, and `count()` is taken as the number of tabs.
- `itemsPerPage` on the pagination scope. The pagination directive never sets it, so the ink
  bar takes it as an input.
- The paging offset. The code reads `pagingOffset` but writes `$$pagingOffset`; the model merges
  them into one field.
- DragRecognizer.DragVetoEndsDrag: requires that the vetoing callback keeps the drag's pointer
  class. A callback that changes it would make `endDrag` ignore the event.
- Switch.UncheckedFlipsIff: requires a drag of at least 5 pixels. Shorter drags choose the other
  comparison, which `Switch.UncheckedTapFlips` covers.
- Switch.UncheckedTapFlips: stated only for switches at least 10 pixels wide, where a drag under
  5 pixels cannot reach the midpoint.
- Switch.CheckedTapDoesNotFlip: stated only for switches at least 10 pixels wide, for the same
  reason.
- Pagination.UpdatePaginationThrowsIff: requires a measured width for every tab the controller
  knows. Without one, a selected tab with no record would also throw.
