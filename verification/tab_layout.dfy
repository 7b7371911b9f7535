/** The tab layout computation of the tabs pagination directive (`calculateTabData`):
    one left-to-right pass over the measured tab widths that assigns every tab a
    position, a filler margin and a 1-based page number, and cuts the row into pages
    no wider than the usable width. */
module TabLayout {
  import opened Common

  /** Twice the width of one paging button; must agree with the stylesheet. */
  const PaginatorsWidth: int := (8 * 4) * 2

  /** The width one page of tabs may take inside a container `clientWidth` pixels wide, as
      computed at the top of `calculateTabData`. */
  function UsableWidth(clientWidth: int): int
  {
    clientWidth - PaginatorsWidth - 1
  }

  /** One entry of `tabData.tabs`: the tab's edges after its filler margin, its
      (clamped) width, the filler margin itself and its 1-based page number. */
  datatype TabRecord = TabRecord(left: int, width: int, right: int, filler: int, page: int)

  /** One entry of `tabData.pages`: its left edge and the run of tab indices it holds. */
  datatype Page = Page(left: int, firstTabIndex: nat, lastTabIndex: nat, tabs: seq<int>)

  /** The object `calculateTabData` returns: the total width, the widest tab, the tab
      records and the pages. */
  datatype TabData = TabData(width: int, max: int, tabs: seq<TabRecord>, pages: seq<Page>)

  /** The accumulator before the first tab: nothing placed, no page opened. */
  const Empty: TabData := TabData(0, 0, [], [])

  /** `Math.ceil(a / w)` for a positive divisor, on integers. */
  function CeilDiv(a: int, w: int): (c: int)
    requires w > 0
    ensures w * (c - 1) < a <= w * c
  {
    var q := (a + w - 1) / w;
    assert (a + w - 1) == q * w + (a + w - 1) % w;
    q
  }

  lemma MulMono(w: int, x: int, y: int)
    requires w > 0 && x <= y
    ensures w * x <= w * y
  {
    assert w * y - w * x == w * (y - x);
  }

  /** Only one integer satisfies the bounds `CeilDiv` promises. */
  lemma CeilDivUnique(a: int, w: int, c: int)
    requires w > 0
    requires w * (c - 1) < a <= w * c
    ensures CeilDiv(a, w) == c
  {
    var c' := CeilDiv(a, w);
    if c' < c {
      MulMono(w, c', c - 1);
    } else if c' > c {
      MulMono(w, c, c' - 1);
    }
  }

  /** `[a, a+1, ..., b-1]`: the indices a page holds. */
  function Range(a: int, b: int): (r: seq<int>)
    requires a <= b
    ensures |r| == b - a
    ensures forall k :: 0 <= k < |r| ==> r[k] == a + k
  {
    seq(b - a, k => a + k)
  }

  /** One iteration of the `forEach` in `calculateTabData`: place the tab measured at
      `offsetWidth` after everything in `acc`. Absent when the tab would have to be
      added to the current page while no page has been opened yet (the source then
      reads a property of an undefined page and throws). */
  function Place(acc: TabData, offsetWidth: nat, w: int): (r: Option<TabData>)
    requires w > 0
    ensures r.None? ==> |acc.pages| == 0
    ensures r.Some? ==>
      var d := r.value;
      && |d.tabs| == |acc.tabs| + 1
      && d.tabs[..|acc.tabs|] == acc.tabs
      && d.tabs[|acc.tabs|].width == Min(w, offsetWidth)
      && d.width == d.tabs[|acc.tabs|].right
      && |acc.pages| <= |d.pages| <= |acc.pages| + 1
  {
    var index := |acc.tabs|;
    var tabWidth := Min(w, offsetWidth);
    var left := acc.width;
    var right := left + tabWidth;
    var page := CeilDiv(right, w);
    if page > |acc.pages| then
      var filler := w * (page - 1) - left;
      var newPage := Page(left + filler, index, index, [index]);
      var rec := TabRecord(left + filler, tabWidth, right + filler, filler, page);
      Some(TabData(right + filler, Max(acc.max, tabWidth), acc.tabs + [rec], acc.pages + [newPage]))
    else if |acc.pages| == 0 then
      None
    else
      var current := acc.pages[|acc.pages| - 1];
      var extended := current.(lastTabIndex := index, tabs := current.tabs + [index]);
      var rec := TabRecord(left, tabWidth, right, 0, page);
      Some(TabData(right, Max(acc.max, tabWidth), acc.tabs + [rec], acc.pages[..|acc.pages| - 1] + [extended]))
  }

  /** The whole pass over the widths, left to right: one record per tab, each with the tab's
      measured width cut to one page. */
  function Layout(widths: seq<nat>, w: int): (r: Option<TabData>)
    requires w > 0
    ensures r.Some? ==> |r.value.tabs| == |widths|
    ensures r.Some? ==> forall i :: 0 <= i < |widths| ==> r.value.tabs[i].width == Min(w, widths[i])
    decreases |widths|
  {
    if |widths| == 0 then Some(Empty)
    else
      var init := widths[..|widths| - 1];
      match Layout(init, w)
      case None => None
      case Some(acc) =>
        var r := Place(acc, widths[|widths| - 1], w);
        assert r.Some? ==> forall i :: 0 <= i < |init| ==> r.value.tabs[i] == r.value.tabs[..|init|][i];
        r
  }

  /** `calculateTabData()` for the measured `offsetWidth` of every tab and the
      container's `clientWidth`. */
  function CalculateTabData(widths: seq<nat>, clientWidth: int): (r: Option<TabData>)
    requires UsableWidth(clientWidth) > 0
    ensures r.None? ==> |widths| > 0
    ensures r.Some? ==> |r.value.tabs| == |widths|
    ensures r.Some? ==>
      forall i :: 0 <= i < |widths| ==> r.value.tabs[i].width == Min(UsableWidth(clientWidth), widths[i])
  {
    Layout(widths, UsableWidth(clientWidth))
  }

  // ---------------------------------------------------------------------------
  // What the pass keeps true

  /** The running state: one record per tab so far; the running width is the last
      tab's right edge and lies strictly past the start of the last page and no further
      than its end; the last page ends at the last tab. */
  ghost predicate Shape(d: TabData, n: nat, w: int)
  {
    && |d.tabs| == n
    && (n == 0 <==> |d.pages| == 0)
    && (n == 0 ==> d.width == 0 && d.max == 0)
    && (n > 0 ==>
          && d.width == d.tabs[n - 1].right
          && w * (|d.pages| - 1) < d.width <= w * |d.pages|
          && d.pages[|d.pages| - 1].lastTabIndex == n - 1)
  }

  /** Every record holds the measured width cut down to one page. */
  ghost predicate Clamped(d: TabData, widths: seq<nat>, w: int)
  {
    && |d.tabs| == |widths|
    && forall i :: 0 <= i < |widths| ==> d.tabs[i].width == Min(w, widths[i])
  }

  /** Each tab's page number names a page that holds it, and the tab lies between
      that page's edges `w*(page-1)` and `w*page`. */
  ghost predicate OnOwnPage(d: TabData, w: int)
  {
    forall i :: 0 <= i < |d.tabs| ==> TabOnPage(d, w, i)
  }

  /** The pages cut `0 .. |tabs|-1` into consecutive non-empty runs. */
  ghost predicate Partition(d: TabData)
  {
    && (|d.pages| > 0 ==>
          d.pages[0].firstTabIndex == 0 && d.pages[|d.pages| - 1].lastTabIndex == |d.tabs| - 1)
    && (forall j :: 0 <= j < |d.pages| ==> RunAt(d, j))
    && (forall j :: 0 < j < |d.pages| ==> Follows(d, j))
  }

  /** Page `j` holds a non-empty run of existing tabs and lists exactly that run. */
  ghost predicate RunAt(d: TabData, j: int)
    requires 0 <= j < |d.pages|
  {
    && d.pages[j].firstTabIndex <= d.pages[j].lastTabIndex < |d.tabs|
    && d.pages[j].tabs == Range(d.pages[j].firstTabIndex, d.pages[j].lastTabIndex + 1)
  }

  /** Page `j` starts right after page `j-1` ends. */
  ghost predicate Follows(d: TabData, j: int)
    requires 0 < j < |d.pages|
  {
    d.pages[j].firstTabIndex == d.pages[j - 1].lastTabIndex + 1
  }

  /** Where the previous tab ended (0 for the first tab). */
  function PrevRight(d: TabData, i: nat): int
    requires i <= |d.tabs|
  {
    if i == 0 then 0 else d.tabs[i - 1].right
  }

  /** Each tab starts where the previous one ended plus its own non-negative filler. */
  ghost predicate Flow(d: TabData)
  {
    forall i :: 0 <= i < |d.tabs| ==> FlowsAt(d, i)
  }

  ghost predicate FlowsAt(d: TabData, i: int)
    requires 0 <= i < |d.tabs|
  {
    d.tabs[i].filler >= 0 && d.tabs[i].left == PrevRight(d, i) + d.tabs[i].filler
  }

  /** Page `j` starts at `w*j` with its first tab; only such a first tab carries filler. */
  ghost predicate Openers(d: TabData, w: int)
  {
    && (forall j :: 0 <= j < |d.pages| ==> PageStart(d, w, j))
    && (forall i :: 0 <= i < |d.tabs| ==> FillerOpens(d, i))
  }

  ghost predicate PageStart(d: TabData, w: int, j: int)
    requires 0 <= j < |d.pages|
  {
    && d.pages[j].firstTabIndex < |d.tabs|
    && d.pages[j].left == w * j
    && d.tabs[d.pages[j].firstTabIndex].left == w * j
    && d.tabs[d.pages[j].firstTabIndex].page == j + 1
  }

  ghost predicate FillerOpens(d: TabData, i: int)
    requires 0 <= i < |d.tabs|
  {
    d.tabs[i].filler != 0 ==>
      1 <= d.tabs[i].page <= |d.pages| && i == d.pages[d.tabs[i].page - 1].firstTabIndex
  }

  /** `max` is the widest recorded tab (0 with no tabs). */
  ghost predicate Widest(d: TabData)
  {
    && (forall i :: 0 <= i < |d.tabs| ==> d.tabs[i].width <= d.max)
    && (|d.tabs| == 0 ==> d.max == 0)
    && (|d.tabs| > 0 ==> exists i :: 0 <= i < |d.tabs| && d.tabs[i].width == d.max)
  }

  ghost predicate Laid(d: TabData, widths: seq<nat>, w: int)
  {
    && Shape(d, |widths|, w)
    && Clamped(d, widths, w)
    && OnOwnPage(d, w)
    && Partition(d)
    && Flow(d)
    && Openers(d, w)
    && Widest(d)
  }

  // ---------------------------------------------------------------------------
  // One step of the pass

  /** Whether the tab measured at `x`, placed after `n` tabs, opens a new page: it is the
      first tab, or its unshifted right edge passes the end of the current last page. */
  function Opens(acc: TabData, n: nat, x: nat, w: int): bool
  {
    n == 0 || acc.width + Min(w, x) > w * |acc.pages|
  }

  /** What placing one more tab does, in closed form: earlier records and pages stay as
      they were, the new tab always lands on the last page, and when it opens a page it is
      pushed to that page's left edge `w*k`. */
  ghost predicate Placed(acc: TabData, n: nat, x: nat, w: int, d: TabData)
  {
    var tw := Min(w, x);
    var k := |acc.pages|;
    && Shape(acc, n, w)
    && Shape(d, n + 1, w)
    && k <= |d.pages|
    && (forall i :: 0 <= i < n ==> d.tabs[i] == acc.tabs[i])
    && (forall j :: 0 <= j < k - 1 ==> d.pages[j] == acc.pages[j])
    && d.max == Max(acc.max, tw)
    && d.tabs[n].page == |d.pages|
    && (Opens(acc, n, x, w) ==>
          && d.tabs[n] == TabRecord(w * k, tw, w * k + tw, w * k - acc.width, k + 1)
          && |d.pages| == k + 1
          && (k > 0 ==> d.pages[k - 1] == acc.pages[k - 1])
          && d.pages[k] == Page(w * k, n, n, [n]))
    && (!Opens(acc, n, x, w) ==>
          && k > 0
          && d.tabs[n] == TabRecord(acc.width, tw, acc.width + tw, 0, k)
          && |d.pages| == k
          && d.pages[k - 1] == acc.pages[k - 1].(lastTabIndex := n, tabs := acc.pages[k - 1].tabs + [n]))
  }

  /** The 1-based page number `Place` computes for the new tab, in closed form. */
  lemma PlacePage(acc: TabData, n: nat, x: nat, w: int)
    requires w > 0
    requires Shape(acc, n, w)
    ensures CeilDiv(acc.width + Min(w, x), w) ==
      if n == 0 && x == 0 then 0
      else if Opens(acc, n, x, w) then |acc.pages| + 1
      else |acc.pages|
  {
    var k := |acc.pages|;
    var right := acc.width + Min(w, x);
    if n == 0 {
      if x == 0 {
        CeilDivUnique(right, w, 0);
      } else {
        CeilDivUnique(right, w, 1);
      }
    } else {
      assert acc.width <= w * k;
      assert w * (k - 1) < acc.width;
      if right > w * k {
        assert right <= w * (k + 1);
        CeilDivUnique(right, w, k + 1);
      } else {
        assert w * (k - 1) < right;
        CeilDivUnique(right, w, k);
      }
    }
  }

  lemma PlaceFacts(acc: TabData, n: nat, x: nat, w: int)
    requires w > 0
    requires Shape(acc, n, w)
    ensures Place(acc, x, w).None? <==> n == 0 && x == 0
    ensures Place(acc, x, w).Some? ==> Placed(acc, n, x, w, Place(acc, x, w).value)
  {
    PlacePage(acc, n, x, w);
    if n > 0 {
      assert w * (|acc.pages| - 1) < acc.width <= w * |acc.pages|;
    }
  }

  // ---------------------------------------------------------------------------
  // The pass as a whole

  lemma LayoutSnoc(widths: seq<nat>, x: nat, w: int)
    requires w > 0
    ensures Layout(widths + [x], w) ==
      match Layout(widths, w)
      case None => None
      case Some(acc) => Place(acc, x, w)
  {
    assert (widths + [x])[..|widths|] == widths;
  }

  /** The pass fails exactly when the very first tab measures zero wide. */
  lemma {:induction false} LayoutFailsIff(widths: seq<nat>, w: int)
    requires w > 0
    ensures Layout(widths, w).None? <==> |widths| > 0 && widths[0] == 0
    ensures Layout(widths, w).Some? ==> Shape(Layout(widths, w).value, |widths|, w)
    decreases |widths|
  {
    if |widths| > 0 {
      var init := widths[..|widths| - 1];
      var x := widths[|widths| - 1];
      assert widths == init + [x];
      LayoutSnoc(init, x, w);
      LayoutFailsIff(init, w);
      if |init| > 0 {
        assert init[0] == widths[0];
      }
      match Layout(init, w)
      case None =>
      case Some(acc) =>
        PlaceFacts(acc, |init|, x, w);
    }
  }

  lemma PlaceKeepsClamped(acc: TabData, widths: seq<nat>, x: nat, w: int, d: TabData)
    requires w > 0
    requires Shape(acc, |widths|, w) && Clamped(acc, widths, w)
    requires Placed(acc, |widths|, x, w, d)
    ensures Clamped(d, widths + [x], w)
  {
  }

  /** One tab's part of `OnOwnPage`. */
  ghost predicate TabOnPage(d: TabData, w: int, i: int)
    requires 0 <= i < |d.tabs|
  {
    && 1 <= d.tabs[i].page <= |d.pages|
    && d.tabs[i].right == d.tabs[i].left + d.tabs[i].width
    && w * (d.tabs[i].page - 1) <= d.tabs[i].left
    && d.tabs[i].right <= w * d.tabs[i].page
    && d.pages[d.tabs[i].page - 1].firstTabIndex <= i <= d.pages[d.tabs[i].page - 1].lastTabIndex
  }

  lemma PlaceKeepsOnOwnPage(acc: TabData, n: nat, x: nat, w: int, d: TabData)
    requires w > 0
    requires Shape(acc, n, w) && OnOwnPage(acc, w) && Partition(acc)
    requires Placed(acc, n, x, w, d)
    ensures OnOwnPage(d, w)
  {
    forall i | 0 <= i < n ensures TabOnPage(d, w, i) {
      OldTabStaysOnPage(acc, n, x, w, d, i);
    }
    var k := |acc.pages|;
    if n > 0 && !Opens(acc, n, x, w) {
      assert w * (k - 1) < acc.width;
      assert RunAt(acc, k - 1);
    }
    assert TabOnPage(d, w, n);
  }

  lemma OldTabStaysOnPage(acc: TabData, n: nat, x: nat, w: int, d: TabData, i: nat)
    requires w > 0
    requires Placed(acc, n, x, w, d)
    requires i < n && TabOnPage(acc, w, i)
    ensures TabOnPage(d, w, i)
  {
    var k := |acc.pages|;
    assert d.tabs[i] == acc.tabs[i];
    var p := acc.tabs[i].page;
    if p < k || Opens(acc, n, x, w) {
      assert d.pages[p - 1] == acc.pages[p - 1];
    } else {
      assert d.pages[p - 1].firstTabIndex == acc.pages[p - 1].firstTabIndex;
      assert d.pages[p - 1].lastTabIndex == n;
    }
  }

  lemma PlaceKeepsPartition(acc: TabData, n: nat, x: nat, w: int, d: TabData)
    requires w > 0
    requires Shape(acc, n, w) && Partition(acc)
    requires Placed(acc, n, x, w, d)
    ensures Partition(d)
  {
    var k := |acc.pages|;
    var opens := Opens(acc, n, x, w);
    if opens {
      assert d.pages[k].tabs == Range(n, n + 1);
    } else {
      var last := acc.pages[k - 1];
      assert RunAt(acc, k - 1);
      assert last.tabs + [n] == Range(last.firstTabIndex, n + 1);
    }
    forall j | 0 <= j < |d.pages| ensures RunAt(d, j) {
      if j < k && (opens || j < k - 1) {
        assert d.pages[j] == acc.pages[j];
        assert RunAt(acc, j);
      } else if j < k {
        assert RunAt(acc, j);
      }
    }
    forall j | 0 < j < |d.pages| ensures Follows(d, j) {
      if j < k && (opens || j < k - 1) {
        assert d.pages[j] == acc.pages[j];
        assert d.pages[j - 1] == acc.pages[j - 1];
        assert Follows(acc, j);
      } else if j == k - 1 {
        assert d.pages[j - 1] == acc.pages[j - 1];
        assert Follows(acc, j);
      } else {
        assert RunAt(acc, k - 1);
      }
    }
  }

  lemma PlaceKeepsFlow(acc: TabData, n: nat, x: nat, w: int, d: TabData)
    requires w > 0
    requires Shape(acc, n, w) && Flow(acc)
    requires Placed(acc, n, x, w, d)
    ensures Flow(d)
  {
    forall i | 0 <= i < |d.tabs| ensures FlowsAt(d, i) {
      if i < n {
        assert FlowsAt(acc, i);
        assert d.tabs[i] == acc.tabs[i];
        if i > 0 {
          assert d.tabs[i - 1] == acc.tabs[i - 1];
        }
      } else if n > 0 {
        assert d.tabs[n - 1] == acc.tabs[n - 1];
      }
    }
  }

  lemma PlaceKeepsOpeners(acc: TabData, n: nat, x: nat, w: int, d: TabData)
    requires w > 0
    requires Shape(acc, n, w) && Openers(acc, w) && OnOwnPage(acc, w)
    requires Placed(acc, n, x, w, d)
    ensures Openers(d, w)
  {
    var k := |acc.pages|;
    forall j | 0 <= j < |d.pages| ensures PageStart(d, w, j) {
      if j < k {
        assert PageStart(acc, w, j);
        assert d.pages[j].firstTabIndex == acc.pages[j].firstTabIndex;
        assert d.pages[j].left == acc.pages[j].left;
        assert d.tabs[acc.pages[j].firstTabIndex] == acc.tabs[acc.pages[j].firstTabIndex];
      }
    }
    forall i | 0 <= i < |d.tabs| ensures FillerOpens(d, i) {
      if i < n {
        assert FillerOpens(acc, i);
        assert TabOnPage(acc, w, i);
        assert d.tabs[i] == acc.tabs[i];
        var p := acc.tabs[i].page;
        assert d.pages[p - 1].firstTabIndex == acc.pages[p - 1].firstTabIndex;
      }
    }
  }

  lemma PlaceKeepsWidest(acc: TabData, n: nat, x: nat, w: int, d: TabData)
    requires w > 0
    requires Shape(acc, n, w) && Widest(acc)
    requires Placed(acc, n, x, w, d)
    ensures Widest(d)
  {
    if d.max != Min(w, x) {
      var i :| 0 <= i < n && acc.tabs[i].width == acc.max;
      assert d.tabs[i] == acc.tabs[i];
    }
  }

  /** Everything the pass promises holds of its result, by induction over the tabs. */
  lemma {:induction false} LayoutInvariant(widths: seq<nat>, w: int)
    requires w > 0
    ensures Layout(widths, w).Some? ==> Laid(Layout(widths, w).value, widths, w)
    decreases |widths|
  {
    if |widths| > 0 {
      var init := widths[..|widths| - 1];
      var x := widths[|widths| - 1];
      assert widths == init + [x];
      LayoutSnoc(init, x, w);
      LayoutInvariant(init, w);
      match Layout(init, w)
      case None =>
      case Some(acc) =>
        var n := |init|;
        PlaceFacts(acc, n, x, w);
        if Place(acc, x, w).Some? {
          var d := Place(acc, x, w).value;
          PlaceKeepsClamped(acc, init, x, w, d);
          PlaceKeepsOnOwnPage(acc, n, x, w, d);
          PlaceKeepsPartition(acc, n, x, w, d);
          PlaceKeepsFlow(acc, n, x, w, d);
          PlaceKeepsOpeners(acc, n, x, w, d);
          PlaceKeepsWidest(acc, n, x, w, d);
        }
    }
  }

  // ---------------------------------------------------------------------------
  // What `calculateTabData` promises its callers

  /** The computation throws exactly when the first tab measures zero wide: it then lands on
      page 0 while no page is open. Otherwise there is one record per tab, and a page
      whenever there is a tab. */
  lemma CalculateFailsIff(widths: seq<nat>, clientWidth: int)
    requires UsableWidth(clientWidth) > 0
    ensures CalculateTabData(widths, clientWidth).None? <==> |widths| > 0 && widths[0] == 0
    ensures CalculateTabData(widths, clientWidth).Some? ==>
      var d := CalculateTabData(widths, clientWidth).value;
      |d.tabs| == |widths| && (|d.pages| == 0 <==> |widths| == 0)
  {
    LayoutFailsIff(widths, UsableWidth(clientWidth));
  }

  lemma Calculated(widths: seq<nat>, clientWidth: int, d: TabData)
    requires UsableWidth(clientWidth) > 0
    requires CalculateTabData(widths, clientWidth) == Some(d)
    ensures Laid(d, widths, UsableWidth(clientWidth))
  {
    LayoutInvariant(widths, UsableWidth(clientWidth));
  }

  /** No recorded width exceeds one page: each is the measured width cut to the usable width. */
  lemma RecordedWidthsFitOnePage(widths: seq<nat>, clientWidth: int, d: TabData)
    requires UsableWidth(clientWidth) > 0
    requires CalculateTabData(widths, clientWidth) == Some(d)
    ensures |d.tabs| == |widths|
    ensures
      forall i :: 0 <= i < |widths| ==>
        d.tabs[i].width == Min(UsableWidth(clientWidth), widths[i]) <= UsableWidth(clientWidth)
  {
    Calculated(widths, clientWidth, d);
  }

  /** Filler is never negative and sits only on the tab that opens a page; that tab is
      pushed exactly to the page's left edge `w*j`, which is also the page's `left`. */
  lemma FillerOnlyOpensPages(widths: seq<nat>, clientWidth: int, d: TabData)
    requires UsableWidth(clientWidth) > 0
    requires CalculateTabData(widths, clientWidth) == Some(d)
    ensures var w := UsableWidth(clientWidth);
      && (forall i :: 0 <= i < |d.tabs| ==>
            d.tabs[i].filler >= 0 && d.tabs[i].left == PrevRight(d, i) + d.tabs[i].filler)
      && (forall i :: 0 <= i < |d.tabs| && d.tabs[i].filler != 0 ==>
            1 <= d.tabs[i].page <= |d.pages| && i == d.pages[d.tabs[i].page - 1].firstTabIndex)
      && (forall j :: 0 <= j < |d.pages| ==>
            && d.pages[j].firstTabIndex < |d.tabs|
            && d.pages[j].left == w * j
            && d.tabs[d.pages[j].firstTabIndex].filler == w * j - PrevRight(d, d.pages[j].firstTabIndex))
  {
    var w := UsableWidth(clientWidth);
    Calculated(widths, clientWidth, d);
    forall i | 0 <= i < |d.tabs|
      ensures d.tabs[i].filler >= 0 && d.tabs[i].left == PrevRight(d, i) + d.tabs[i].filler
    {
      assert FlowsAt(d, i);
    }
    forall i | 0 <= i < |d.tabs| && d.tabs[i].filler != 0
      ensures 1 <= d.tabs[i].page <= |d.pages| && i == d.pages[d.tabs[i].page - 1].firstTabIndex
    {
      assert FillerOpens(d, i);
    }
    forall j | 0 <= j < |d.pages|
      ensures d.pages[j].firstTabIndex < |d.tabs|
      ensures d.pages[j].left == w * j
      ensures d.tabs[d.pages[j].firstTabIndex].filler == w * j - PrevRight(d, d.pages[j].firstTabIndex)
    {
      assert PageStart(d, w, j);
      assert FlowsAt(d, d.pages[j].firstTabIndex);
    }
  }

  /** Consecutive pages of a partition are ordered: an earlier page ends before a later one starts. */
  lemma {:induction false} PagesOrdered(d: TabData, j: int, j': int)
    requires Partition(d)
    requires 0 <= j < j' < |d.pages|
    ensures d.pages[j].lastTabIndex < d.pages[j'].firstTabIndex
    decreases j' - j
  {
    assert Follows(d, j');
    if j + 1 < j' {
      PagesOrdered(d, j, j' - 1);
      assert RunAt(d, j' - 1);
    }
  }

  /** The pages start at tab 0, follow each other without gap, end at the last tab, and
      each lists exactly the indices of its run; so every tab is on exactly one page. */
  lemma PagesPartitionTabs(widths: seq<nat>, clientWidth: int, d: TabData)
    requires UsableWidth(clientWidth) > 0
    requires CalculateTabData(widths, clientWidth) == Some(d)
    ensures
      && (|widths| > 0 ==> |d.pages| > 0)
      && (|d.pages| > 0 ==>
            d.pages[0].firstTabIndex == 0 && d.pages[|d.pages| - 1].lastTabIndex == |widths| - 1)
      && (forall j :: 0 < j < |d.pages| ==>
            d.pages[j].firstTabIndex == d.pages[j - 1].lastTabIndex + 1)
      && (forall j :: 0 <= j < |d.pages| ==>
            && d.pages[j].firstTabIndex <= d.pages[j].lastTabIndex
            && d.pages[j].tabs == Range(d.pages[j].firstTabIndex, d.pages[j].lastTabIndex + 1))
      && (forall i, j :: 0 <= i < |d.tabs| && 0 <= j < |d.pages| ==>
            (d.pages[j].firstTabIndex <= i <= d.pages[j].lastTabIndex <==> j == d.tabs[i].page - 1))
  {
    var w := UsableWidth(clientWidth);
    Calculated(widths, clientWidth, d);
    forall j | 0 < j < |d.pages|
      ensures d.pages[j].firstTabIndex == d.pages[j - 1].lastTabIndex + 1
    {
      assert Follows(d, j);
    }
    forall j | 0 <= j < |d.pages|
      ensures d.pages[j].firstTabIndex <= d.pages[j].lastTabIndex
      ensures d.pages[j].tabs == Range(d.pages[j].firstTabIndex, d.pages[j].lastTabIndex + 1)
    {
      assert RunAt(d, j);
    }
    forall i, j | 0 <= i < |d.tabs| && 0 <= j < |d.pages|
      ensures d.pages[j].firstTabIndex <= i <= d.pages[j].lastTabIndex <==> j == d.tabs[i].page - 1
    {
      assert TabOnPage(d, w, i);
      var p := d.tabs[i].page - 1;
      if j < p {
        PagesOrdered(d, j, p);
      } else if p < j {
        PagesOrdered(d, p, j);
      }
    }
  }

  /** A tab's page number, less one, indexes the page holding it, and after its filler the
      tab lies within that page's edges `w*(page-1)` and `w*page`: no tab straddles a boundary. */
  lemma TabsStayOnTheirPage(widths: seq<nat>, clientWidth: int, d: TabData)
    requires UsableWidth(clientWidth) > 0
    requires CalculateTabData(widths, clientWidth) == Some(d)
    ensures var w := UsableWidth(clientWidth);
      forall i :: 0 <= i < |d.tabs| ==>
        && 1 <= d.tabs[i].page <= |d.pages|
        && d.pages[d.tabs[i].page - 1].firstTabIndex <= i <= d.pages[d.tabs[i].page - 1].lastTabIndex
        && w * (d.tabs[i].page - 1) <= d.tabs[i].left
        && d.tabs[i].left + d.tabs[i].width == d.tabs[i].right
        && d.tabs[i].right <= w * d.tabs[i].page
  {
    var w := UsableWidth(clientWidth);
    Calculated(widths, clientWidth, d);
    forall i | 0 <= i < |d.tabs|
      ensures 1 <= d.tabs[i].page <= |d.pages|
      ensures d.pages[d.tabs[i].page - 1].firstTabIndex <= i <= d.pages[d.tabs[i].page - 1].lastTabIndex
      ensures w * (d.tabs[i].page - 1) <= d.tabs[i].left
      ensures d.tabs[i].left + d.tabs[i].width == d.tabs[i].right
      ensures d.tabs[i].right <= w * d.tabs[i].page
    {
      assert TabOnPage(d, w, i);
    }
  }

  /** Seen from its page's left edge, every tab lies within one usable width. */
  lemma TabInsideItsPage(widths: seq<nat>, clientWidth: int, d: TabData, i: int)
    requires UsableWidth(clientWidth) > 0
    requires CalculateTabData(widths, clientWidth) == Some(d)
    requires 0 <= i < |d.tabs|
    ensures 1 <= d.tabs[i].page <= |d.pages|
    ensures var start := d.pages[d.tabs[i].page - 1].left;
      start <= d.tabs[i].left && d.tabs[i].left + d.tabs[i].width <= start + UsableWidth(clientWidth)
  {
    var w := UsableWidth(clientWidth);
    assert TabOnPage(d, w, i) by {
      Calculated(widths, clientWidth, d);
    }
    var k := d.tabs[i].page;
    assert PageStart(d, w, k - 1) by {
      Calculated(widths, clientWidth, d);
    }
    assert w * k == w * (k - 1) + w;
  }

  /** More than one page needs more than one tab. */
  lemma MultiplePagesMultipleTabs(widths: seq<nat>, clientWidth: int, d: TabData)
    requires UsableWidth(clientWidth) > 0
    requires CalculateTabData(widths, clientWidth) == Some(d)
    requires |d.pages| > 1
    ensures |widths| >= 2
  {
    assert Follows(d, 1) && RunAt(d, 1) && |d.tabs| == |widths| by {
      Calculated(widths, clientWidth, d);
    }
  }

  /** The returned `width` is where the last tab ends (0 with no tabs), and `max` is the
      widest recorded tab. */
  lemma WidthAndMax(widths: seq<nat>, clientWidth: int, d: TabData)
    requires UsableWidth(clientWidth) > 0
    requires CalculateTabData(widths, clientWidth) == Some(d)
    ensures |d.tabs| == |widths|
    ensures
      && d.width == (if |widths| == 0 then 0 else d.tabs[|widths| - 1].right)
      && (forall i :: 0 <= i < |d.tabs| ==> d.tabs[i].width <= d.max)
      && (|widths| == 0 ==> d.max == 0)
      && (|widths| > 0 ==> exists i :: 0 <= i < |d.tabs| && d.tabs[i].width == d.max)
  {
    Calculated(widths, clientWidth, d);
  }

  /** The measured widths, each cut to one page, added up. */
  function SumClamped(widths: seq<nat>, w: int): nat
    requires w > 0
    decreases |widths|
  {
    if |widths| == 0 then 0
    else SumClamped(widths[..|widths| - 1], w) + Min(w, widths[|widths| - 1])
  }

  /** The running width never falls short of the clamped widths' sum; while at most one
      page exists it equals that sum; and while that sum fits in one page only one page
      has been opened. */
  lemma {:induction false} LayoutTotal(widths: seq<nat>, w: int)
    requires w > 0
    ensures Layout(widths, w).Some? ==>
      var d := Layout(widths, w).value;
      && d.width >= SumClamped(widths, w)
      && (|d.pages| <= 1 ==> d.width == SumClamped(widths, w))
      && (SumClamped(widths, w) <= w ==> |d.pages| <= 1)
    decreases |widths|
  {
    if |widths| > 0 {
      var init := widths[..|widths| - 1];
      var x := widths[|widths| - 1];
      assert widths == init + [x];
      LayoutSnoc(init, x, w);
      LayoutTotal(init, w);
      LayoutFailsIff(init, w);
      match Layout(init, w)
      case None =>
      case Some(acc) =>
        PlaceFacts(acc, |init|, x, w);
        if Place(acc, x, w).Some? {
          var d := Place(acc, x, w).value;
          assert SumClamped(widths, w) == SumClamped(init, w) + Min(w, x);
        }
    }
  }

  /** Pagination is needed exactly when the clamped widths add up to more than one page;
      when they fit, no filler is inserted anywhere. */
  lemma SinglePageIff(widths: seq<nat>, clientWidth: int, d: TabData)
    requires UsableWidth(clientWidth) > 0
    requires CalculateTabData(widths, clientWidth) == Some(d)
    ensures
      && (|d.pages| <= 1 <==> SumClamped(widths, UsableWidth(clientWidth)) <= UsableWidth(clientWidth))
      && (|d.pages| <= 1 ==> forall i :: 0 <= i < |d.tabs| ==> d.tabs[i].filler == 0)
  {
    var w := UsableWidth(clientWidth);
    LayoutTotal(widths, w);
    Calculated(widths, clientWidth, d);
    if |d.pages| == 1 {
      assert d.width <= w * 1;
      assert PageStart(d, w, 0);
      assert FlowsAt(d, 0);
      forall i | 0 <= i < |d.tabs| ensures d.tabs[i].filler == 0 {
        assert TabOnPage(d, w, i);
        assert FillerOpens(d, i);
      }
    }
  }

  /** The layouts after one, two, three and four 120-pixel tabs in a 300-pixel page. */
  function ExampleAfter(k: nat): TabData
    requires 1 <= k <= 4
  {
    var t0 := TabRecord(0, 120, 120, 0, 1);
    var t1 := TabRecord(120, 120, 240, 0, 1);
    var t2 := TabRecord(300, 120, 420, 60, 2);
    var t3 := TabRecord(420, 120, 540, 0, 2);
    if k == 1 then TabData(120, 120, [t0], [Page(0, 0, 0, [0])])
    else if k == 2 then TabData(240, 120, [t0, t1], [Page(0, 0, 1, [0, 1])])
    else if k == 3 then TabData(420, 120, [t0, t1, t2], [Page(0, 0, 1, [0, 1]), Page(300, 2, 2, [2])])
    else TabData(540, 120, [t0, t1, t2, t3], [Page(0, 0, 1, [0, 1]), Page(300, 2, 3, [2, 3])])
  }

  /** The first tab opens page 1. */
  lemma ExampleStep1()
    ensures Place(Empty, 120, 300) == Some(ExampleAfter(1))
  {
    var d := ExampleAfter(1);
    assert CeilDiv(120, 300) == 1 by { CeilDivUnique(120, 300, 1); }
    assert Empty.tabs + [d.tabs[0]] == d.tabs;
    assert Empty.pages + [d.pages[0]] == d.pages;
  }

  /** The second tab joins page 1. */
  lemma ExampleStep2()
    ensures Place(ExampleAfter(1), 120, 300) == Some(ExampleAfter(2))
  {
    var acc := ExampleAfter(1);
    var d := ExampleAfter(2);
    assert CeilDiv(240, 300) == 1 by { CeilDivUnique(240, 300, 1); }
    assert acc.tabs + [d.tabs[1]] == d.tabs;
    assert [0] + [1] == [0, 1];
    assert acc.pages[..0] == [];
    assert acc.pages[..0] + [Page(0, 0, 1, [0, 1])] == d.pages;
  }

  /** The third tab does not fit on page 1: it opens page 2 behind 60 pixels of filler. */
  lemma ExampleStep3()
    ensures Place(ExampleAfter(2), 120, 300) == Some(ExampleAfter(3))
  {
    var acc := ExampleAfter(2);
    var d := ExampleAfter(3);
    assert CeilDiv(360, 300) == 2 by { CeilDivUnique(360, 300, 2); }
    assert acc.tabs + [d.tabs[2]] == d.tabs;
    assert acc.pages + [d.pages[1]] == d.pages;
  }

  /** The fourth tab joins page 2. */
  lemma ExampleStep4()
    ensures Place(ExampleAfter(3), 120, 300) == Some(ExampleAfter(4))
  {
    var acc := ExampleAfter(3);
    var d := ExampleAfter(4);
    assert CeilDiv(540, 300) == 2 by { CeilDivUnique(540, 300, 2); }
    assert acc.tabs + [d.tabs[3]] == d.tabs;
    assert [2] + [3] == [2, 3];
    assert acc.pages[..1] == [Page(0, 0, 1, [0, 1])];
    assert acc.pages[..1] + [Page(300, 2, 3, [2, 3])] == d.pages;
  }

  /** `k` tabs measuring 120 pixels each. */
  function Tabs120(k: nat): (ws: seq<nat>)
    ensures |ws| == k
  {
    seq(k, _ => 120)
  }

  lemma ExampleLayoutStep(k: nat)
    requires 1 <= k <= 4
    requires Place(if k == 1 then Empty else ExampleAfter(k - 1), 120, 300) == Some(ExampleAfter(k))
    requires k > 1 ==> Layout(Tabs120(k - 1), 300) == Some(ExampleAfter(k - 1))
    ensures Layout(Tabs120(k), 300) == Some(ExampleAfter(k))
  {
    LayoutSnoc(Tabs120(k - 1), 120, 300);
    assert Tabs120(k) == Tabs120(k - 1) + [120];
  }

  lemma ExampleLayout()
    ensures Layout(Tabs120(4), 300) == Some(ExampleAfter(4))
  {
    ExampleStep1();
    ExampleLayoutStep(1);
    ExampleStep2();
    ExampleLayoutStep(2);
    ExampleStep3();
    ExampleLayoutStep(3);
    ExampleStep4();
    ExampleLayoutStep(4);
  }

  /** Four 120-pixel tabs in a 365-pixel container (a 300-pixel page): the third tab opens
      page 2 behind 60 pixels of filler, and the row has two pages. */
  lemma FourTabsExample()
    ensures CalculateTabData([120, 120, 120, 120], 365) == Some(TabData(540, 120,
      [TabRecord(0, 120, 120, 0, 1), TabRecord(120, 120, 240, 0, 1),
       TabRecord(300, 120, 420, 60, 2), TabRecord(420, 120, 540, 0, 2)],
      [Page(0, 0, 1, [0, 1]), Page(300, 2, 3, [2, 3])]))
  {
    assert UsableWidth(365) == 300;
    ExampleLayout();
    assert Tabs120(4) == [120, 120, 120, 120];
  }

  // ---------------------------------------------------------------------------
  // What the pagination state machine relies on

  /** The facts about a layout that page navigation reads: every tab names an existing page,
      every page names existing tabs, the first page starts at 0, and no two pages share
      a left edge. */
  ghost predicate Indexed(d: TabData)
  {
    && (forall i :: 0 <= i < |d.tabs| ==> 1 <= d.tabs[i].page <= |d.pages|)
    && (forall j :: 0 <= j < |d.pages| ==> d.pages[j].firstTabIndex <= d.pages[j].lastTabIndex < |d.tabs|)
    && (|d.pages| > 0 ==> d.pages[0].left == 0)
    && (forall j, j' :: 0 <= j < j' < |d.pages| ==> d.pages[j].left < d.pages[j'].left)
  }

  lemma CalculatedIsIndexed(widths: seq<nat>, clientWidth: int, d: TabData)
    requires UsableWidth(clientWidth) > 0
    requires CalculateTabData(widths, clientWidth) == Some(d)
    ensures Indexed(d)
  {
    var w := UsableWidth(clientWidth);
    assert OnOwnPage(d, w) && Partition(d) && Openers(d, w) by {
      Calculated(widths, clientWidth, d);
    }
    forall i | 0 <= i < |d.tabs| ensures 1 <= d.tabs[i].page <= |d.pages| {
      assert TabOnPage(d, w, i);
    }
    forall j | 0 <= j < |d.pages|
      ensures d.pages[j].firstTabIndex <= d.pages[j].lastTabIndex < |d.tabs|
    {
      assert RunAt(d, j);
    }
    if |d.pages| > 0 {
      assert PageStart(d, w, 0);
    }
    PageLeftsIncrease(d, w);
  }

  lemma PageLeftsIncrease(d: TabData, w: int)
    requires w > 0
    requires forall j :: 0 <= j < |d.pages| ==> PageStart(d, w, j)
    ensures forall j, j' :: 0 <= j < j' < |d.pages| ==> d.pages[j].left < d.pages[j'].left
  {
    forall j, j' | 0 <= j < j' < |d.pages| ensures d.pages[j].left < d.pages[j'].left {
      assert PageStart(d, w, j);
      assert PageStart(d, w, j');
      MulMono(w, j + 1, j');
    }
  }
}
