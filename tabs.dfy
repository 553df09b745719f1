/**
 * The tab registry of the editor, stripped of its DOM: a tab is its id and
 * the two display flags `switchToTab` sets on it (the text area shown or
 * hidden, the tab button marked active or not).
 *
 * The functions here are what the editor's methods are specified by:
 * `ShowOnly` is the effect of the display loop, `Find` is `Array.find` on
 * the id, `Without` is the `filter` that removes a tab.
 */
module Tabs {
  import opened Wrappers
  import Decimal

  datatype Tab = Tab(id: string, visible: bool, active: bool)

  /** The id a new tab gets when `n - 1` tabs are open: `tab-${n}`. */
  function TabId(n: nat): (r: string)
    ensures |r| > 4 && r[..4] == "tab-"
  {
    "tab-" + Decimal.ToDecimal(n)
  }

  /** The digits after `tab-` read back as the count the id was made from. */
  lemma TabIdNumber(n: nat)
    ensures Decimal.Value(TabId(n)[4..]) == n
  {
    assert TabId(n)[4..] == Decimal.ToDecimal(n);
    Decimal.ValueOfToDecimal(n);
  }

  /** Two counts give the same id exactly when they are equal. */
  lemma TabIdInjective(m: nat, n: nat)
    ensures TabId(m) == TabId(n) <==> m == n
  {
    if TabId(m) == TabId(n) {
      TabIdNumber(m);
      TabIdNumber(n);
    }
  }

  /** The ids of the tabs, in order. */
  function Ids(tabs: seq<Tab>): (ids: seq<string>)
    ensures |ids| == |tabs|
    ensures forall i :: 0 <= i < |tabs| ==> ids[i] == tabs[i].id
  {
    if tabs == [] then [] else [tabs[0].id] + Ids(tabs[1..])
  }

  /** One step of the display loop: shown and active exactly when the ids match. */
  function Show(t: Tab, id: string): Tab {
    Tab(t.id, t.id == id, t.id == id)
  }

  /** The tab list after the display loop of `switchToTab(id)` has run over it. */
  function ShowOnly(tabs: seq<Tab>, id: string): (r: seq<Tab>)
    ensures |r| == |tabs|
    ensures forall i :: 0 <= i < |tabs| ==>
      r[i].id == tabs[i].id && r[i].visible == (tabs[i].id == id) && r[i].active == (tabs[i].id == id)
  {
    if tabs == [] then [] else [Show(tabs[0], id)] + ShowOnly(tabs[1..], id)
  }

  /** Every tab with id `id` is shown and active, every other tab hidden and inactive. */
  predicate ShowsExactly(tabs: seq<Tab>, id: string) {
    forall t :: t in tabs ==> t.visible == (t.id == id) && t.active == (t.id == id)
  }

  /** Every tab is hidden and inactive. */
  predicate HidesAll(tabs: seq<Tab>) {
    forall t :: t in tabs ==> !t.visible && !t.active
  }

  /** The position of the first tab with id `id`, if any. */
  function FirstIndexOf(tabs: seq<Tab>, id: string): (r: Option<nat>)
    ensures r.None? <==> forall i :: 0 <= i < |tabs| ==> tabs[i].id != id
    ensures r.Some? ==>
      r.value < |tabs| && tabs[r.value].id == id &&
      forall j :: 0 <= j < r.value ==> tabs[j].id != id
  {
    if tabs == [] then None
    else if tabs[0].id == id then Some(0)
    else match FirstIndexOf(tabs[1..], id)
      case None => None
      case Some(k) => Some(k + 1)
  }

  /** `tabs.find(tab => tab.tabId === id)`, with `undefined` as `None`. */
  function Find(tabs: seq<Tab>, id: string): (r: Option<Tab>)
    ensures r.None? <==> forall t :: t in tabs ==> t.id != id
    ensures r.Some? ==> r.value in tabs && r.value.id == id
    ensures r.Some? ==> FirstIndexOf(tabs, id).Some? && r.value == tabs[FirstIndexOf(tabs, id).value]
  {
    match FirstIndexOf(tabs, id)
    case None => None
    case Some(k) => Some(tabs[k])
  }

  /** `tabs.filter(tab => tab.tabId !== id)`. */
  function Without(tabs: seq<Tab>, id: string): (r: seq<Tab>)
    ensures forall t :: t in r <==> t in tabs && t.id != id
    ensures |r| <= |tabs|
  {
    if tabs == [] then []
    else if tabs[0].id != id then [tabs[0]] + Without(tabs[1..], id)
    else Without(tabs[1..], id)
  }

  /** Filtering distributes over concatenation, so the kept tabs stay in their relative order. */
  lemma {:induction false} WithoutAppend(a: seq<Tab>, b: seq<Tab>, id: string)
    ensures Without(a + b, id) == Without(a, id) + Without(b, id)
  {
    if a == [] {
      assert a + b == b;
    } else {
      assert (a + b)[1..] == a[1..] + b;
      WithoutAppend(a[1..], b, id);
    }
  }

  /** Filtering by an id no tab has keeps the list as it is. */
  lemma {:induction false} WithoutAbsent(tabs: seq<Tab>, id: string)
    requires forall t :: t in tabs ==> t.id != id
    ensures Without(tabs, id) == tabs
  {
    if tabs != [] {
      WithoutAbsent(tabs[1..], id);
      assert [tabs[0]] + tabs[1..] == tabs;
    }
  }

  /** The list shrinks exactly when some tab carries the id. */
  lemma {:induction false} WithoutShrinks(tabs: seq<Tab>, id: string)
    ensures |Without(tabs, id)| < |tabs| <==> exists t :: t in tabs && t.id == id
  {
    if tabs != [] {
      WithoutShrinks(tabs[1..], id);
      assert forall t :: t in tabs <==> t == tabs[0] || t in tabs[1..];
    }
  }

  /** Removing the tabs of one id does not change which tab `find` gives for another id. */
  lemma {:induction false} FindWithout(tabs: seq<Tab>, id: string, other: string)
    requires other != id
    ensures Find(Without(tabs, id), other) == Find(tabs, other)
  {
    if tabs != [] {
      FindWithout(tabs[1..], id, other);
      if tabs[0].id != id {
        assert Without(tabs, id) == [tabs[0]] + Without(tabs[1..], id);
        FindCons(tabs[0], Without(tabs[1..], id), other);
      }
      FindCons(tabs[0], tabs[1..], other);
      assert [tabs[0]] + tabs[1..] == tabs;
    }
  }

  /** `find` on a list with a first element: that element if its id matches, else `find` on the rest. */
  lemma FindCons(t: Tab, rest: seq<Tab>, id: string)
    ensures Find([t] + rest, id) == if t.id == id then Some(t) else Find(rest, id)
  {
    assert ([t] + rest)[1..] == rest;
  }

  /** `find` on a list with one tab appended: the appended tab is found exactly when no earlier tab has its id. */
  lemma FindAppended(tabs: seq<Tab>, t: Tab)
    ensures (forall u :: u in tabs ==> u.id != t.id) ==> Find(tabs + [t], t.id) == Some(t)
    ensures FirstIndexOf(tabs + [t], t.id) == Some(|tabs|) <==> forall u :: u in tabs ==> u.id != t.id
  {
    var s := tabs + [t];
    var r := FirstIndexOf(s, t.id);
    assert s[|tabs|] == t;
    if forall u :: u in tabs ==> u.id != t.id {
      assert forall j :: 0 <= j < |tabs| ==> s[j] == tabs[j] && s[j] in tabs;
    } else {
      var u :| u in tabs && u.id == t.id;
      var j :| 0 <= j < |tabs| && tabs[j] == u;
      assert s[j] == u;
    }
  }

  /** The first index of an id depends only on the ids, in order. */
  lemma {:induction false} SameIdsSameIndex(a: seq<Tab>, b: seq<Tab>, id: string)
    requires Ids(a) == Ids(b)
    ensures FirstIndexOf(a, id) == FirstIndexOf(b, id)
    ensures Find(a, id).None? <==> Find(b, id).None?
  {
    if a != [] {
      assert Ids(a[1..]) == Ids(a)[1..] && Ids(b[1..]) == Ids(b)[1..];
      SameIdsSameIndex(a[1..], b[1..], id);
    }
  }

  /**
   * Pushing a new tab and then running the display loop for its id: the ids
   * gain the new one at the end, the new tab is shown and active, `find`
   * gives a tab with that id, and the new tab is the first with its id
   * exactly when no earlier tab has it.
   */
  lemma PushThenShow(tabs: seq<Tab>, id: string)
    ensures var r := ShowOnly(tabs + [Tab(id, true, false)], id);
      && Ids(r) == Ids(tabs) + [id]
      && r[|r| - 1] == Tab(id, true, true)
      && Find(r, id).Some?
      && (FirstIndexOf(r, id) == Some(|tabs|) <==> forall t :: t in tabs ==> t.id != id)
  {
    var pushed := tabs + [Tab(id, true, false)];
    var r := ShowOnly(pushed, id);
    assert Ids(r) == Ids(tabs) + [id] by {
      assert forall i :: 0 <= i < |r| ==> r[i].id == pushed[i].id;
    }
    assert Ids(r) == Ids(pushed);
    SameIdsSameIndex(r, pushed, id);
    FindAppended(tabs, Tab(id, true, false));
    assert r[|tabs|] in r;
  }

  /**
   * After the display loop of `switchToTab(id)` the ids are as before, and
   * exactly the tabs with id `id` are shown and active; `find` then gives
   * nothing exactly when no tab had that id.
   */
  lemma ShowOnlyShowsExactly(tabs: seq<Tab>, id: string)
    ensures Ids(ShowOnly(tabs, id)) == Ids(tabs)
    ensures ShowsExactly(ShowOnly(tabs, id), id)
    ensures Find(ShowOnly(tabs, id), id).None? <==> forall t :: t in tabs ==> t.id != id
  {
    var r := ShowOnly(tabs, id);
    SameIdsSameIndex(r, tabs, id);
  }
}
