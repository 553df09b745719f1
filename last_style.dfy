/**
 * The editor's memory of the last used style and the formatting commands an
 * input event makes it issue. Each `document.execCommand` call is a
 * `Command` record; the browser's answers (the selection being collapsed,
 * the bold state, the text area being empty) arrive as fields of an
 * `InputEvent`.
 */
module LastStyle {
  import opened Wrappers

  /** The fonts offered in the font menu, in menu order. */
  const FONT_LIST: seq<string> :=
    ["Arial", "Verdana", "Times New Roman", "Garamond", "Georgia", "Courier New", "cursive"]

  /** The remembered style: `lastFontName`, `lastFontSize`, `lastBold`. */
  datatype Style = Style(fontName: string, fontSize: string, bold: bool)

  /** The style remembered before any edit: the first menu font, size 3, not bold. */
  const DEFAULT_STYLE: Style := Style(FONT_LIST[0], "3", false)

  /** The default style is Arial, size 3, not bold; its font is the first on the menu. */
  lemma DefaultStyleValues()
    ensures DEFAULT_STYLE == Style("Arial", "3", false)
    ensures DEFAULT_STYLE.fontName in FONT_LIST
  {
    assert FONT_LIST[0] == "Arial";
  }

  /** The formatting commands the editor sends to the browser. */
  datatype Command = FontName(font: string) | FontSize(size: string) | Bold

  /**
   * One input event on a text area: whether the selection is collapsed, the
   * values of the font and size menus, whether the browser reports bold at
   * the selection, and whether the text area is empty.
   */
  datatype InputEvent = InputEvent(
    selectionCollapsed: bool,
    menuFont: string,
    menuSize: string,
    surfaceBold: bool,
    contentEmpty: bool)

  /** The style an event reports: the menu font, the menu size and the reported bold state. */
  function Snapshot(ev: InputEvent): Style {
    Style(ev.menuFont, ev.menuSize, ev.surfaceBold)
  }

  /**
   * The remembered style after an event: overwritten only when the selection
   * is not collapsed. For a single event this agrees with `LatestSelection`,
   * the from-the-end description of what a run of events leaves behind.
   */
  function Remember(s: Style, ev: InputEvent): (r: Style)
    ensures r == match LatestSelection([ev]) case None => s case Some(x) => x
  {
    assert [ev][..0] == [];
    if ev.selectionCollapsed then s else Snapshot(ev)
  }

  /**
   * A non-collapsed selection leaves nothing of the earlier style: every
   * earlier style gives the same result. The style changes only on a
   * non-collapsed selection, and remembering the same event twice is
   * remembering it once.
   */
  lemma RememberOverwrites(s: Style, ev: InputEvent)
    ensures !ev.selectionCollapsed ==> forall t :: Remember(t, ev) == Remember(s, ev)
    ensures Remember(s, ev) != s ==> !ev.selectionCollapsed
    ensures Remember(Remember(s, ev), ev) == Remember(s, ev)
  {
  }

  /**
   * The commands that reapply a remembered style to an empty text area:
   * the font if it is a non-empty name, the size if it is non-empty, and
   * bold only when bold was on.
   */
  function Reapply(s: Style): seq<Command> {
    (if s.fontName != "" then [FontName(s.fontName)] else [])
    + (if s.fontSize != "" then [FontSize(s.fontSize)] else [])
    + (if s.bold then [Bold] else [])
  }

  /**
   * Reapplying sends one command per truthy field and nothing else: bold
   * exactly when bold is on, and last; the font exactly when its name is
   * non-empty, and first; the size exactly when it is non-empty.
   */
  lemma ReapplySends(s: Style)
    ensures var r := Reapply(s);
      && |r| == (if s.fontName != "" then 1 else 0) + (if s.fontSize != "" then 1 else 0) + (if s.bold then 1 else 0)
      && (Bold in r <==> s.bold)
      && (FontName(s.fontName) in r <==> s.fontName != "")
      && (FontSize(s.fontSize) in r <==> s.fontSize != "")
      && (forall c :: c in r ==> c == FontName(s.fontName) || c == FontSize(s.fontSize) || c == Bold)
      && (s.bold ==> r[|r| - 1] == Bold)
      && (s.fontName != "" ==> r[0] == FontName(s.fontName))
  {
  }

  /**
   * Everything one input event issues, given the style remembered before it:
   * the menu font, the menu size and, when the text area is empty, the
   * reapplied style as remembered after the event.
   */
  function EventCommands(s: Style, ev: InputEvent): seq<Command> {
    [FontName(ev.menuFont), FontSize(ev.menuSize)]
    + (if ev.contentEmpty then Reapply(Remember(s, ev)) else [])
  }

  /**
   * Every event sends the menu font and then the menu size; only those when
   * the area is not empty, else followed by the style as remembered after
   * the event. Bold goes out exactly when the area is empty and bold is on
   * in that style.
   */
  lemma EventCommandsSend(s: Style, ev: InputEvent)
    ensures var r := EventCommands(s, ev);
      && 2 <= |r| <= 5
      && r[0] == FontName(ev.menuFont) && r[1] == FontSize(ev.menuSize)
      && (!ev.contentEmpty ==> |r| == 2)
      && (ev.contentEmpty ==> r[2..] == Reapply(Remember(s, ev)))
      && (Bold in r <==> ev.contentEmpty && (if ev.selectionCollapsed then s.bold else ev.surfaceBold))
  {
    var r := EventCommands(s, ev);
    ReapplySends(Remember(s, ev));
    assert Bold !in [FontName(ev.menuFont), FontSize(ev.menuSize)];
  }

  /** The remembered style after a run of input events, one after the other. */
  function Replay(s: Style, evs: seq<InputEvent>): Style
    decreases evs
  {
    if evs == [] then s else Replay(Remember(s, evs[0]), evs[1..])
  }

  /** The style reported by the latest event with a non-collapsed selection, if there is one. */
  function LatestSelection(evs: seq<InputEvent>): Option<Style> {
    if evs == [] then None
    else if !evs[|evs| - 1].selectionCollapsed then Some(Snapshot(evs[|evs| - 1]))
    else LatestSelection(evs[..|evs| - 1])
  }

  /** Replaying one more event is remembering it after the rest. */
  lemma {:induction false} ReplaySnoc(s: Style, evs: seq<InputEvent>, ev: InputEvent)
    ensures Replay(s, evs + [ev]) == Remember(Replay(s, evs), ev)
    decreases evs
  {
    if evs != [] {
      assert (evs + [ev])[1..] == evs[1..] + [ev];
      ReplaySnoc(Remember(s, evs[0]), evs[1..], ev);
    }
  }

  /**
   * After any run of input events the remembered style is what the latest
   * event with a non-collapsed selection reported, or the style from
   * before the run when no event had one.
   */
  lemma {:induction false} ReplayRemembersLatestSelection(s: Style, evs: seq<InputEvent>)
    ensures Replay(s, evs) == match LatestSelection(evs) case None => s case Some(x) => x
  {
    if evs != [] {
      var init, last := evs[..|evs| - 1], evs[|evs| - 1];
      assert evs == init + [last];
      ReplaySnoc(s, init, last);
      ReplayRemembersLatestSelection(s, init);
    }
  }

  /** From the start of a session the remembered style is the default or some event's snapshot. */
  lemma RememberedStyleOrigin(evs: seq<InputEvent>)
    ensures Replay(DEFAULT_STYLE, evs) == DEFAULT_STYLE
         || exists i :: 0 <= i < |evs| && !evs[i].selectionCollapsed && Replay(DEFAULT_STYLE, evs) == Snapshot(evs[i])
  {
    ReplayRemembersLatestSelection(DEFAULT_STYLE, evs);
    LatestSelectionIsAnEvent(evs);
  }

  /** The latest selection, when there is one, was reported by an event with a non-collapsed selection. */
  lemma {:induction false} LatestSelectionIsAnEvent(evs: seq<InputEvent>)
    ensures LatestSelection(evs).Some? ==>
      exists i :: 0 <= i < |evs| && !evs[i].selectionCollapsed && LatestSelection(evs).value == Snapshot(evs[i])
    ensures LatestSelection(evs).None? <==> forall i :: 0 <= i < |evs| ==> evs[i].selectionCollapsed
  {
    if evs != [] {
      var init := evs[..|evs| - 1];
      LatestSelectionIsAnEvent(init);
      assert forall i :: 0 <= i < |init| ==> init[i] == evs[i];
    }
  }
}
