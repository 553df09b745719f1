# RichTextEditor: tab registry and last-style memory

A Dafny model of the stateful core of megaWord's `RichTextEditor`
(`script.js`): the browser-based rich-text editor with tabs. Without its DOM
calls the editor object holds two small state machines, and both are modelled
here as a class whose methods change its fields in place.

- **Tab registry.** The editor keeps an ordered list of open tabs and a current
  tab. A tab is modelled as a record of its id and its two display flags: its
  text area shown or hidden, and its tab button marked active or not.
  `CreateNewTab` names the new tab `tab-N`, where N is one more than the number
  of open tabs. It appends the tab and switches to it. `SwitchToTab` shows and
  activates exactly the tabs with the given id. It then makes the first such
  tab current, or no tab if none has the id. `RemoveTab` filters out every tab
  with the id and then picks a new current tab by the source's three rules.
  Ids come from the current count, so they can repeat: after closing `tab-1`
  of two tabs, a new tab is again `tab-2` (`DuplicateIdAfterRemoval`). With two
  tabs of one id, both are shown, and the older one becomes current because
  `find` returns the first match.
- **Last-style memory.** The editor remembers a font name, a font size and a
  bold flag. They start as (`Arial`, `3`, not bold). Every input event on a text
  area overwrites all three with the font menu, the size menu and the bold
  state the browser reports, but only when the selection is not collapsed.
  Each event then sends the menu font and the menu size. When the text area is
  empty, it also resends the remembered style: the font and size if they are
  non-empty, and bold only if bold is on. Each `document.execCommand` call is
  modelled as a `Command` appended to the editor's `log`.

The files:

- `wrappers.dfy`: `Option`.
- `decimal.dfy`: how a number is written in the `tab-N` template, and its inverse.
- `tabs.dfy`: the tab record and the pure functions that specify the registry: the display loop (`ShowOnly`), `find` (`Find`) and `filter` (`Without`), with lemmas about them.
- `last_style.dfy`: the style, command and event records; the commands one event sends (`EventCommands`, `Reapply`); the style after a run of events (`Replay`), with lemmas.
- `editor.dfy`: the class `RichTextEditor`, its object invariant `Valid`, its methods, and two client scenarios with their steps.

`Valid` is the display invariant that every tab method keeps. When there is a
current tab, it is the first tab with its id, and exactly the tabs with that
id are shown and active. When there is none, every tab is hidden and inactive.

Four facts about `script.js` shape the last-style part of the model:

- The remembered style belongs to the editor, and all tabs share it (script.js:19-21).
- It starts as the default style (script.js:19-21). Nothing marks it as unset.
- It is resent on every input event that finds the text area empty, not only when the area becomes empty (script.js:114-115).
- It is resent after the menu font and size have been sent (script.js:110-115).

## Model

| member | source | states |
|---|---|---|
| `Tabs.TabId` | script.js:76 | The id of a new tab starts with `tab-` and has at least one character after it. |
| `Tabs.TabIdNumber` | script.js:76 | The digits after `tab-` read back as the count the id was made from. |
| `Tabs.TabIdInjective` | script.js:76 | Two tab counts give the same `tab-N` id exactly when they are equal, so repeated ids come only from repeated counts. |
| `Decimal.ValueOfToDecimal` | script.js:76 | Reading back the decimal text the id template writes for a count gives that count. |
| `Decimal.ToDecimalInjective` | script.js:76 | Distinct counts are written as distinct decimal texts. |
| `Decimal.ToDecimal` | script.js:76 | The text written for a count is non-empty, all digits, and has no leading zero. |
| `Tabs.ShowOnly` | script.js:125-128 | After the display loop, the list has the same length and ids, and each tab is shown and active exactly when its id is the requested one. |
| `Tabs.ShowOnlyShowsExactly` | script.js:125-129 | After the display loop, ids are unchanged, exactly the tabs with the id are shown and active, and `find` comes back empty exactly when no tab had the id. |
| `Tabs.FirstIndexOf` | script.js:129 | Gives the position of the first tab with the id and no earlier match, or nothing exactly when no tab has the id. |
| `Tabs.Find` | script.js:129 | `find` gives nothing exactly when no tab has the id. Otherwise it gives the first listed tab with that id: no earlier tab has it. |
| `Tabs.SameIdsSameIndex` | script.js:129 | Which tab `find` picks depends only on the ids, in order, and not on the display flags. |
| `Tabs.FindAppended` | script.js:120-121 | After a push, the pushed tab is the first with its id exactly when no earlier tab has that id. |
| `Tabs.Without` | script.js:139 | The filtered list holds exactly the tabs whose id differs from the removed one, and it is no longer than the original. |
| `Tabs.WithoutAppend` | script.js:139 | Filtering distributes over concatenation, so the kept tabs stay in their original relative order. |
| `Tabs.WithoutAbsent` | script.js:139 | Filtering by an id that no tab has leaves the list as it is. |
| `Tabs.WithoutShrinks` | script.js:133-139 | The filter shortens the list exactly when `find` would have found a tab with the id. |
| `Tabs.FindWithout` | script.js:139-145 | Removing the tabs of one id does not change which tab `find` gives for any other id, so an untouched current tab stays the first of its id. |
| `Tabs.PushThenShow` | script.js:120-121 | Pushing a tab and switching to its id appends its id to the ids, leaves it shown and active, makes `find` succeed, and makes it the first with its id exactly when no earlier tab has that id. |
| `Tabs.FindCons` | script.js:129 | `find` on a list gives its first tab if the id matches, and otherwise whatever `find` gives on the rest. |
| `Editor.RichTextEditor.CurrentIsShown` | script.js:124-145 | Under the display invariant the tab methods keep, a current tab is listed, shown and active, and is the first tab with its id. With no current tab, every tab is hidden and inactive. |
| `Editor.RichTextEditor.constructor` | script.js:2-31 | A new editor remembers (`Arial`, `3`, not bold) and has sent no command. It has one tab `tab-1`, shown, active and current. |
| `Editor.RichTextEditor.CreateNewTab` | script.js:75-121 | Appends exactly one tab with id `tab-(old count + 1)` and keeps the earlier ids in order. Shows and activates the new tab and every tab sharing its id. Makes the new id current; the new tab is the current one exactly when no earlier tab has its id. Establishes `Valid`. |
| `Editor.RichTextEditor.SwitchToTab` | script.js:124-130 | Keeps the ids and their order. Shows and activates exactly the tabs with the id and hides the rest. Makes the first tab with the id current, or none exactly when no tab has it. Establishes `Valid`. |
| `Editor.RichTextEditor.RemoveTab` | script.js:132-147 | An id no tab has changes nothing. Otherwise every tab with the id goes, and the rest keep their order. If the current tab was removed and tabs remain, the first remaining tab becomes current and is shown. If no tab remains, there is no current tab. Otherwise current and flags are unchanged. Keeps `Valid`. |
| `Editor.RichTextEditor.ModifyText` | script.js:149-151 | Sends exactly one command: it is appended to the log. |
| `Editor.RichTextEditor.ApplyFontSizeToSelection` | script.js:153-157 | Sends exactly one command, the size chosen in the size menu. |
| `Editor.RichTextEditor.ApplyLastStyles` | script.js:159-169 | Sends `Reapply` of the remembered style and changes nothing else. |
| `LastStyle.ReapplySends` | script.js:159-169 | Sends one command per truthy field, so at most three. Bold is sent exactly when bold is on. Bold, when sent, is last. The font is sent exactly when its name is non-empty, and first. The size is sent exactly when it is non-empty. Nothing but the remembered font, the remembered size and bold is sent. |
| `LastStyle.DefaultStyleValues` | script.js:16-21 | The remembered style starts as Arial, size 3, not bold; Arial is the first font on the menu. |
| `LastStyle.RememberOverwrites` | script.js:103-107 | A non-collapsed selection overwrites all three fields, so nothing of the earlier style survives: every earlier style gives the same result. The style changes only on a non-collapsed selection. Handling the same event twice remembers the same style as handling it once. |
| `Editor.RichTextEditor.OnInput` | script.js:101-117 | The remembered style becomes `Remember(old, event)`: the reported style when the selection is not collapsed, unchanged otherwise. The log grows by exactly `EventCommands` of the event. |
| `LastStyle.EventCommandsSend` | script.js:101-117 | Every event sends the menu font and then the menu size, and only those when the text area is not empty. When it is empty, the rest is exactly `Reapply` of the style as remembered after this event. Bold is sent exactly when the area is empty and bold is on in the style as remembered after this event's update. |
| `LastStyle.ReplayRemembersLatestSelection` | script.js:103-107 | After any run of input events, the remembered style is the one reported by the latest event with a non-collapsed selection. If there was none, it is the style from before the run. |
| `LastStyle.ReplaySnoc` | script.js:103-107 | Replaying one more event is remembering that event after the others. |
| `LastStyle.LatestSelectionIsAnEvent` | script.js:103-107 | There is no latest selection exactly when every event's selection was collapsed. Otherwise it is the snapshot of some event whose selection was not collapsed. |
| `LastStyle.RememberedStyleOrigin` | script.js:19-21 | From the start of a session, the remembered style is the default or a snapshot reported by some event with a non-collapsed selection. |
| `Editor.DuplicateIdAfterRemoval` | script.js:76 | Opening two tabs, closing `tab-1` and opening another leaves the ids `tab-2`, `tab-2`. |
| `Editor.CloseFirstOfTwo` | script.js:132-139 | With ids `tab-1`, `tab-2`, `find` locates `tab-1` and the filter leaves only `tab-2`. |
| `Editor.SecondTabId` | script.js:76 | The id of the second tab reads `tab-2`. |
| `Editor.ReapplyAfterEmptying` | script.js:101-116 | After a selection in Arial, size 5, bold, emptying the area with the menus on Georgia, size 4 sends Georgia, 4, Arial, 5 and bold, in that order. |

## Left out

- DOM construction and event wiring are not modelled. This covers `setupFontOptions`, `setupEventListeners`, the creation of tab buttons, close buttons and text areas, `classList`, `focus`, the `Tab N` button label and `window.onload`. They are UI plumbing. The font list is kept only for its first entry, the default font.
- The effect of `document.execCommand` on the document is not modelled. Each call is only recorded as a `Command`. `document.queryCommandState("bold")`, `window.getSelection().isCollapsed` and the `innerHTML === ""` test are fields of `InputEvent`.
- The toolbar handlers that call `modifyText` with other commands (italic, colours and so on) are not modelled; they are DOM wiring.
- `RemoveTab` does not model the DOM removal at script.js:136-137. That removal detaches only the first matching tab's elements, while the list filter drops every match.
- Tabs are values, not objects, so object identity is not captured. The model identifies the current tab by its position: `Valid` makes it the tab at the first index with its id. After the display loop, two tabs with one id are equal values, so only the position tells them apart. That position is the older tab, as in the source.
- `lastFontSize` starts as the number `3` and later holds the size menu's string value. The model uses the string `"3"` throughout. Both are truthy, and the browser accepts either as the size argument.
- Decimal.ToDecimal: writes every count in plain decimal digits. JavaScript's `${n}` switches to exponent form from 10^21 and is exact only up to 2^53. Tab counts never come near those values.
