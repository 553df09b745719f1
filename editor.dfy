/**
 * The `RichTextEditor` object without its DOM: the list of open tabs, the
 * current tab, the remembered style, and the log of formatting commands it
 * has sent to the browser.
 */
module Editor {
  import opened Wrappers
  import opened Tabs
  import opened LastStyle
  import Decimal

  class RichTextEditor {
    var tabs: seq<Tab>
    var current: Option<Tab>
    var lastFontName: string
    var lastFontSize: string
    var lastBold: bool
    /** Every `document.execCommand` call made so far, oldest first. */
    var log: seq<Command>

    function Remembered(): Style
      reads this`lastFontName, this`lastFontSize, this`lastBold
    {
      Style(lastFontName, lastFontSize, lastBold)
    }

    /**
     * What the display shows: when there is a current tab, it is the first
     * tab with its id, and exactly the tabs with that id are shown and
     * active; when there is none, every tab is hidden and inactive.
     */
    ghost predicate Valid()
      reads this`tabs, this`current
    {
      match current
      case None => HidesAll(tabs)
      case Some(c) => Find(tabs, c.id) == current && ShowsExactly(tabs, c.id)
    }

    /**
     * Under `Valid`, a current tab is listed, shown and active and is the
     * first with its id; without one, no tab is shown or active.
     */
    lemma CurrentIsShown()
      requires Valid()
      ensures current.Some? ==>
        current.value in tabs && current.value.visible && current.value.active
        && FirstIndexOf(tabs, current.value.id).Some?
        && tabs[FirstIndexOf(tabs, current.value.id).value] == current.value
      ensures current.None? ==> forall t :: t in tabs ==> !t.visible && !t.active
    {
    }

    /** A new editor remembers the default style and opens its first tab, `tab-1`. */
    constructor ()
      ensures Valid()
      ensures tabs == [Tab(TabId(1), true, true)] && current == Some(tabs[0])
      ensures Remembered() == DEFAULT_STYLE
      ensures log == []
    {
      tabs := [];
      current := None;
      lastFontName := FONT_LIST[0];
      lastFontSize := "3";
      lastBold := false;
      log := [];
      new;
      CreateNewTab();
    }

    /**
     * Opens a tab with id `tab-N`, N being one more than the number of open
     * tabs, appends it and switches to it. The earlier tabs keep their ids
     * and order; the new id is current, and the new tab is the current one
     * exactly when no earlier tab has its id.
     */
    method CreateNewTab()
      modifies this`tabs, this`current
      ensures Valid()
      ensures var newId := TabId(|old(tabs)| + 1);
        && tabs == ShowOnly(old(tabs) + [Tab(newId, true, false)], newId)
        && Ids(tabs) == Ids(old(tabs)) + [newId]
        && tabs[|tabs| - 1] == Tab(newId, true, true)
        && current.Some? && current.value.id == newId
        && (FirstIndexOf(tabs, newId) == Some(|old(tabs)|) <==> forall t :: t in old(tabs) ==> t.id != newId)
    {
      var tabId := TabId(|tabs| + 1);
      PushThenShow(tabs, tabId);
      tabs := tabs + [Tab(tabId, true, false)];
      SwitchToTab(tabId);
    }

    /**
     * Shows exactly the tabs with id `tabId` and marks them active, hides
     * and deactivates all others, and makes the first tab with that id
     * current (none when no tab has it). The ids and their order do not
     * change.
     */
    method SwitchToTab(tabId: string)
      modifies this`tabs, this`current
      ensures Valid()
      ensures tabs == ShowOnly(old(tabs), tabId)
      ensures Ids(tabs) == Ids(old(tabs))
      ensures ShowsExactly(tabs, tabId)
      ensures current == Find(tabs, tabId)
      ensures current.None? <==> forall t :: t in old(tabs) ==> t.id != tabId
    {
      var shown := tabs;
      var i := 0;
      while i < |shown|
        invariant 0 <= i <= |shown| == |tabs|
        invariant forall k :: 0 <= k < i ==> shown[k] == Show(tabs[k], tabId)
        invariant forall k :: i <= k < |shown| ==> shown[k] == tabs[k]
      {
        shown := shown[i := Show(shown[i], tabId)];
        i := i + 1;
      }
      ShowOnlyShowsExactly(tabs, tabId);
      assert shown == ShowOnly(tabs, tabId);
      tabs := shown;
      current := Find(tabs, tabId);
    }

    /**
     * Closes every tab with id `tabId`. When no tab has that id nothing
     * changes. Otherwise the other tabs stay in their order; if the current
     * tab was closed and tabs remain, the first remaining tab becomes
     * current; if no tab remains there is no current tab; else the current
     * tab stays.
     */
    method RemoveTab(tabId: string)
      requires Valid()
      modifies this`tabs, this`current
      ensures Valid()
      ensures Find(old(tabs), tabId).None? ==> tabs == old(tabs) && current == old(current)
      ensures Find(old(tabs), tabId).Some? ==>
        var rest := Without(old(tabs), tabId);
        && Ids(tabs) == Ids(rest)
        && |tabs| < |old(tabs)|
        && (if old(current).Some? && old(current).value.id == tabId && rest != [] then
              tabs == ShowOnly(rest, rest[0].id) && current == Some(tabs[0])
            else
              tabs == rest && current == (if rest == [] then None else old(current)))
    {
      var tabToRemove := Find(tabs, tabId);
      if tabToRemove.Some? {
        WithoutShrinks(tabs, tabId);
        ghost var oldCurrent := current;
        tabs := Without(tabs, tabId);
        if current.Some? && current.value.id == tabId && |tabs| > 0 {
          SwitchToTab(tabs[0].id);
        } else if |tabs| == 0 {
          current := None;
        } else if current.Some? {
          FindWithout(old(tabs), tabId, current.value.id);
        }
      }
    }

    /** `modifyText`: sends one formatting command to the browser. */
    method ModifyText(command: Command)
      modifies this`log
      ensures log == old(log) + [command]
    {
      log := log + [command];
    }

    /** Sends the size chosen in the size menu to the browser. */
    method ApplyFontSizeToSelection(menuSize: string)
      modifies this`log
      ensures log == old(log) + [FontSize(menuSize)]
    {
      log := log + [FontSize(menuSize)];
    }

    /**
     * Reapplies the remembered style: its font and size when they are
     * non-empty, then bold only when bold was on.
     */
    method ApplyLastStyles()
      modifies this`log
      ensures log == old(log) + Reapply(Remembered())
    {
      if lastFontName != "" {
        ModifyText(FontName(lastFontName));
      }
      if lastFontSize != "" {
        ModifyText(FontSize(lastFontSize));
      }
      if lastBold {
        ModifyText(Bold);
      }
    }

    /**
     * The input handler of every text area: remembers the reported style
     * when the selection is not collapsed, sends the menu font and size, and
     * reapplies the remembered style when the text area is empty.
     */
    method OnInput(ev: InputEvent)
      modifies this`lastFontName, this`lastFontSize, this`lastBold, this`log
      ensures Remembered() == Remember(old(Remembered()), ev)
      ensures log == old(log) + EventCommands(old(Remembered()), ev)
    {
      if !ev.selectionCollapsed {
        lastFontName := ev.menuFont;
        lastFontSize := ev.menuSize;
        lastBold := ev.surfaceBold;
      }
      ModifyText(FontName(ev.menuFont));
      ApplyFontSizeToSelection(ev.menuSize);
      if ev.contentEmpty {
        ApplyLastStyles();
      }
    }
  }

  /**
   * Ids are numbered from the count of open tabs, so closing `tab-1` of
   * two tabs and opening a new one gives two tabs with id `tab-2`.
   */
  method DuplicateIdAfterRemoval() returns (ids: seq<string>)
    ensures ids == ["tab-2", "tab-2"]
  {
    var editor := OpenTwoCloseFirst();
    editor.CreateNewTab();
    ids := Ids(editor.tabs);
    SecondTabId();
  }

  /** A new editor with a second tab opened holds `tab-1` and `tab-2`, the second current. */
  method OpenTwo() returns (editor: RichTextEditor)
    ensures fresh(editor) && editor.Valid()
    ensures Ids(editor.tabs) == [TabId(1), TabId(2)]
    ensures editor.current.Some? && editor.current.value.id == TabId(2)
  {
    editor := new RichTextEditor();
    editor.CreateNewTab();
  }

  /** Closing `tab-1` of those two tabs leaves only `tab-2`. */
  method OpenTwoCloseFirst() returns (editor: RichTextEditor)
    ensures fresh(editor) && editor.Valid()
    ensures Ids(editor.tabs) == [TabId(2)]
  {
    editor := OpenTwo();
    CloseFirstOfTwo(editor.tabs);
    TabIdInjective(1, 2);
    editor.RemoveTab(TabId(1));
  }

  /** With tabs `tab-1`, `tab-2` open, closing `tab-1` leaves `tab-2` alone. */
  lemma CloseFirstOfTwo(two: seq<Tab>)
    requires Ids(two) == [TabId(1), TabId(2)]
    ensures Find(two, TabId(1)).Some?
    ensures Ids(Without(two, TabId(1))) == [TabId(2)]
  {
    TabIdInjective(1, 2);
    assert two[0] in two;
    assert Without(two, TabId(1)) == [two[1]] by {
      assert two[1..][1..] == [];
    }
  }

  /** The second tab's id reads `tab-2`. */
  lemma SecondTabId()
    ensures TabId(2) == "tab-2"
  {
    assert Decimal.ToDecimal(2) == [Decimal.DigitChar(2)];
    assert Decimal.DigitChar(2) == '2';
  }

  /**
   * After a selection made in Arial, size 5, bold, the user empties the
   * text area with the menus on Georgia, size 4: the menu font and size
   * are sent, then the remembered Arial, 5 and bold.
   */
  method ReapplyAfterEmptying() returns (sent: seq<Command>)
    ensures sent == [FontName("Georgia"), FontSize("4"), FontName("Arial"), FontSize("5"), Bold]
  {
    var editor := new RichTextEditor();
    var selected := Style("Arial", "5", true);
    editor.OnInput(InputEvent(false, "Arial", "5", true, false));
    assert editor.Remembered() == selected;
    var before := |editor.log|;
    editor.OnInput(InputEvent(true, "Georgia", "4", false, true));
    assert Reapply(selected) == [FontName("Arial"), FontSize("5"), Bold];
    sent := editor.log[before..];
  }
}
