/** The narrow view of the tabs controller that pagination and the ink bar consume:
    the ordered tab items, the selected tab, `indexOf`, `itemAt` and `count`.
    The controller itself is not part of this model; tabs are known by an identity. */
module TabsController {
  import opened Common

  type TabId = nat

  /** What the controller exposes: its tabs in order and the selected one (if any). */
  datatype TabsView = TabsView(items: seq<TabId>, selected: Option<TabId>)

  /** `tabsCtrl.indexOf(tab)`: the first position of the tab, or -1 when there is no such tab
      (including the case where no tab is given at all). */
  function IndexOf(items: seq<TabId>, tab: Option<TabId>): (i: int)
    ensures -1 <= i < |items|
    ensures i == -1 <==> tab.None? || tab.value !in items
    ensures 0 <= i ==> items[i] == tab.value && tab.value !in items[..i]
    decreases |items|
  {
    if tab.None? || |items| == 0 then -1
    else if items[0] == tab.value then 0
    else
      var j := IndexOf(items[1..], tab);
      if j == -1 then -1
      else
        assert items[..1 + j] == [items[0]] + items[1..][..j];
        1 + j
  }

  /** `tabsCtrl.itemAt(i)`: the tab at a position, absent outside the list. */
  function ItemAt(items: seq<TabId>, i: int): (t: Option<TabId>)
    ensures t.Some? <==> 0 <= i < |items|
    ensures t.Some? ==> t.value == items[i] && IndexOf(items, t) <= i
  {
    if 0 <= i < |items| then
      IndexOfFindsItem(items, i);
      Some(items[i])
    else None
  }

  lemma {:induction false} IndexOfFindsItem(items: seq<TabId>, i: int)
    requires 0 <= i < |items|
    ensures 0 <= IndexOf(items, Some(items[i])) <= i
    decreases i
  {
    if items[0] != items[i] {
      assert items[1..][i - 1] == items[i];
      IndexOfFindsItem(items[1..], i - 1);
    }
  }

  /** `itemAt` undoes `indexOf`: the position found for a known tab holds that tab, and for a
      tab that occurs once, `indexOf` finds back the position `itemAt` read. */
  lemma ItemAtIndexOf(items: seq<TabId>, x: TabId, i: int)
    ensures x in items ==> ItemAt(items, IndexOf(items, Some(x))) == Some(x)
    ensures 0 <= i < |items| && (forall j :: 0 <= j < |items| && j != i ==> items[j] != items[i]) ==>
      IndexOf(items, ItemAt(items, i)) == i
  {
  }
}
