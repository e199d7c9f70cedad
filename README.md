# calcite-web widget behaviour, modelled in Dafny

calcite-web's JavaScript keeps all widget state in the DOM. Open and
selected elements carry the class `is-active`. ARIA attributes
(`aria-hidden`, `aria-expanded`) and `tabindex` mirror that state. A few
closure variables remember which toggle opened a panel and which document
listeners are registered. This project models that core of
`assets/js/libs/calcite-web.js` and proves what it does:

- `class_list.dfy` (module `ClassList`): the class-string layer as pure
  functions on strings. `hasClass` is the padded substring search. `addClass`
  appends `" " + c`. `removeClass` replaces the first `" c "` with `" "` for
  each piece of `split(' ')` and then trims. `toggleClass` picks one of the
  two. The module models JavaScript's `indexOf`, `replace` with a string
  pattern (first occurrence only), `split(' ')` (empty pieces kept) and
  `trim` (the ES5 whitespace set). The lemmas relate class strings to the
  list of class names they carry (`Words`).
- `dom.dfy` (module `Dom`): the `Element` class, whose fields the handlers
  update in place. It also holds imperative `AddClass`, `RemoveClass` and
  `ToggleClass` proved against the string functions, `closest` over an
  ancestor-or-self chain, and the list helpers `removeActive`,
  `toggleActive` and `toggleAriaHidden`.
- `accordion.dfy`, `dropdown.dfy`, `tabs.dfy`, `site_search.dfy`: the
  handlers of those widgets.
- `overlay.dfy` (module `Overlay`): the state calcite.drawer and
  calcite.modal keep in their closures (class `Overlays`), and the
  handler steps the two share. `Reachable` says that at most one panel is
  open, exactly while the Escape listener is registered. The toggle and
  Escape handlers keep it. The backdrop handler keeps it when the click
  lands on the open panel, but not on a closed one: it does not check that
  the panel is open (`Overlay.Overlays.BackdropOpensClosed`).
- `drawer.dfy`, `modal.dfy`: the drawer and modal handlers on top of
  `Overlay`.
- `wrappers.dfy`: `Option` and `Outcome`. `Outcome.Fault` stands for a
  handler that throws a TypeError. For example, `hasClass(null, ...)` throws
  when a lookup found nothing, and `lastOn.focus()` throws while `lastOn` is
  undefined. Such a handler keeps the effects it made before the throw.

Events and queries become parameters:
- An event target and its ancestors are a `seq<Element>` (`chain`). The
  first element of `chain` is the context node.
- The element lists a widget found at setup are `seq<Element>` fields or
  parameters.
- A registered listener is a boolean, because `addEventListener` ignores a
  second registration of the same function.
- `focus()` is recorded in a ghost field `focused`.

The class-string lemmas take two preconditions:
- the class name is a token, meaning non-empty and free of whitespace;
- the class string is `WellFormed`, meaning space is its only whitespace and
  no class name repeats.

Where the code differs from what its function names suggest, the model
follows the code:
- An accordion click does not alternate `aria-expanded` between "true" and
  "false". After setup every click writes "false" (`Accordion.ClicksLeaveFalse`).
- toggleClass twice does not always restore membership. A duplicated class
  name is lost (`ClassList.ToggleTwiceLosesDuplicate`).
- Closing a drawer or modal toggles `aria-hidden` rather than removing it.
  Closing restores the page only when the attribute started out absent or
  "true" (`Dom.ToggledHiddenTwice`, `Dom.ToggledHiddenFalseTwice`).
- A backdrop click does not return focus to the toggle. It also leaves the
  focus fence registered (`Overlay.Overlays.BackdropLeavesFence`).
- `closest` returns null, not undefined, when the chain runs out.

## Model

| member | source | states |
|---|---|---|
| ClassList.TrimSpec | assets/js/libs/calcite-web.js:105 | trim yields a contiguous piece of the input that neither starts nor ends with whitespace; the result is empty exactly when the input is all whitespace |
| ClassList.TrimStartSpec | assets/js/libs/calcite-web.js:105 | the start of trim: what remains is a suffix of the input, everything dropped is whitespace, and the rest does not start with whitespace |
| ClassList.TrimEndSpec | assets/js/libs/calcite-web.js:105 | the end of trim: what remains is a prefix of the input, everything dropped is whitespace, and the rest does not end with whitespace |
| ClassList.IndexOf | assets/js/libs/calcite-web.js:87 | indexOf is -1 exactly when the pattern never occurs; otherwise it is the first occurrence |
| ClassList.IndexOfFrom | assets/js/libs/calcite-web.js:87 | the search from a start position finds an occurrence at or after it with none in between, or reports that there is none |
| ClassList.ReplaceFirst | assets/js/libs/calcite-web.js:103 | replace with a string pattern substitutes at the first occurrence only, and leaves the text alone when the pattern does not occur |
| ClassList.Split | assets/js/libs/calcite-web.js:92 | split(' ') always yields at least one piece |
| ClassList.SplitAtSpace | assets/js/libs/calcite-web.js:92 | splitting at a space concatenates the pieces of the two sides |
| ClassList.SplitSpaceFree | assets/js/libs/calcite-web.js:92 | a string without spaces (a single class name) is a single piece |
| ClassList.HasClass | assets/js/libs/calcite-web.js:85-88 | hasClass holds exactly when " c " occurs somewhere in " s " |
| ClassList.HasClassIsMembership | assets/js/libs/calcite-web.js:85-88 | for a class-name token, hasClass holds exactly when the name is one of the string's class names |
| ClassList.WordsPadded | assets/js/libs/calcite-web.js:86 | padding a class string with spaces keeps its class names |
| ClassList.WordsAround | assets/js/libs/calcite-web.js:86 | a string cut around " c " carries the names before, then c, then the names after |
| ClassList.TrimWords | assets/js/libs/calcite-web.js:105 | trim keeps the class names of a space-only string |
| ClassList.AddClassOne | assets/js/libs/calcite-web.js:91-97 | for a token, addClass is a single conditional append |
| ClassList.AddClassToken | assets/js/libs/calcite-web.js:91-97 | after addClass with a token, hasClass holds; the string is unchanged when the class was present and is old + " " + c otherwise; the name is appended once, never duplicated, and no new whitespace is introduced |
| ClassList.RemoveClassWords | assets/js/libs/calcite-web.js:100-106 | removeClass with a token deletes the first occurrence of that class name and keeps every other name in order |
| ClassList.RemoveClassDeletes | assets/js/libs/calcite-web.js:100-106 | when the name occurs at most once, it is gone afterwards and every other name keeps its count |
| ClassList.RemoveClassKeepsDuplicate | assets/js/libs/calcite-web.js:100-106 | when the name occurs twice or more, hasClass still holds after one removal |
| ClassList.DuplicateSurvivesRemoval | assets/js/libs/calcite-web.js:100-106 | concretely, removing "a" from "a a" leaves "a" present |
| ClassList.RemoveClassWellFormed | assets/js/libs/calcite-web.js:100-106 | on a well-formed string the class is absent afterwards and the string stays well formed |
| ClassList.RemoveClassAbsentKeepsWords | assets/js/libs/calcite-web.js:100-106 | removing a class that is not there keeps the class names |
| ClassList.RemoveFirstCount | assets/js/libs/calcite-web.js:103 | deleting the first occurrence lowers that name's count by one and keeps every other count |
| ClassList.ToggleClassFlips | assets/js/libs/calcite-web.js:109-115 | on a well-formed string, toggleClass flips membership and keeps the string well formed |
| ClassList.ToggleClassTwice | assets/js/libs/calcite-web.js:109-115 | toggling twice restores membership, and restores the class names when the class was absent |
| ClassList.ToggleTwiceLosesDuplicate | assets/js/libs/calcite-web.js:109-115 | without well-formedness the round trip fails: toggling "a" twice on "a a" leaves "a" absent |
| Dom.AddClass | assets/js/libs/calcite-web.js:91-97 | the loop leaves exactly the className that addClass computes |
| Dom.RemoveClass | assets/js/libs/calcite-web.js:100-106 | the loop plus trim leaves exactly the className that removeClass computes |
| Dom.ToggleClass | assets/js/libs/calcite-web.js:109-115 | the element's className becomes the toggled value |
| Dom.AddActive | assets/js/libs/calcite-web.js:167 | adding is-active to a well-formed string makes it active and keeps it well formed |
| Dom.RemoveActiveValue | assets/js/libs/calcite-web.js:156 | removing is-active from a well-formed string makes it inactive and keeps it well formed |
| Dom.ToggleActiveValue | assets/js/libs/calcite-web.js:109-115 | toggling is-active on a well-formed string flips it and keeps it well formed |
| Dom.FirstMatch | assets/js/libs/calcite-web.js:122-131 | the position closest stops at holds a matching element node and no earlier node matches; there is none exactly when no node matches |
| Dom.Found | assets/js/libs/calcite-web.js:122-131 | the element closest returns is on the chain and matches; it is null exactly when nothing matches |
| Dom.Closest | assets/js/libs/calcite-web.js:122-131 | the walk returns the first element node on the ancestor-or-self chain that carries the class, the context itself included, or null |
| Dom.FirstAt | assets/js/libs/calcite-web.js:124-128 | a match with no earlier match is where the walk stops |
| Dom.RemoveClassAll | assets/js/libs/calcite-web.js:155-157 | every element of the list gets the className removeClass computes for it |
| Dom.RemoveActive | assets/js/libs/calcite-web.js:151-158 | every element loses is-active; a well-formed one is inactive afterwards and stays well formed |
| Dom.ToggleActive | assets/js/libs/calcite-web.js:161-169 | an active el only loses is-active; otherwise every other list element loses it and el gains it, even when el is in the list |
| Dom.ActiveToggledOutcome | assets/js/libs/calcite-web.js:161-169 | on well-formed strings el's state flips; when it opens, every other element is inactive; at most one active is preserved |
| Dom.ToggleAriaHidden | assets/js/libs/calcite-web.js:172-181 | every node's aria-hidden is toggled: "true" is removed, and any other value, absence included, becomes "true" |
| Dom.ToggledHiddenTwice | assets/js/libs/calcite-web.js:172-181 | toggling twice restores an absent or "true" attribute |
| Dom.ToggledHiddenFalseTwice | assets/js/libs/calcite-web.js:172-181 | toggling twice turns "false" into an absent attribute |
| Dom.DeactivateAll | assets/js/libs/calcite-web.js:281-284 | every panel gets its class removed and loses tabindex |
| Accordion.ToggleAriaExpanded | assets/js/libs/calcite-web.js:189-196 | the element's aria-expanded becomes "false" when it holds any present non-empty value, "false" included, and becomes "true" only when it is absent or empty |
| Accordion.ClicksLeaveFalse | assets/js/libs/calcite-web.js:189-196 | after setup, any number of clicks leaves aria-expanded "false" |
| Accordion.SetupSections | assets/js/libs/calcite-web.js:201-209 | the setup loop throws exactly when some section has no element child; every section before the first such one gets aria-expanded "true" if it is active and "false" if it is not, and that section and the later ones keep their old value |
| Accordion.FirstClickDisagrees | assets/js/libs/calcite-web.js:205-222 | a collapsed section, once clicked, is active while its aria-expanded says "false" |
| Accordion.ToggleAccordion | assets/js/libs/calcite-web.js:219-223 | the closest accordion-section toggles is-active and aria-expanded and nothing else on the chain changes; without one the handler throws and nothing changes |
| Dropdown.Dropdowns.constructor | assets/js/libs/calcite-web.js:230-232 | the group starts with its menus and no body listener |
| Dropdown.Dropdowns.CloseAllDropdowns | assets/js/libs/calcite-web.js:234-239 | the body listener is unregistered and every menu loses is-active |
| Dropdown.Dropdowns.ToggleMenu | assets/js/libs/calcite-web.js:246-251 | every other menu is closed, the clicked one toggles, the body listener is registered |
| Dropdown.Dropdowns.ToggleClick | assets/js/libs/calcite-web.js:241-252 | the closest js-dropdown of the toggle toggles as in ToggleMenu and nothing else on the chain changes; without one the handler throws and nothing changes |
| Dropdown.ToggleClickExclusive | assets/js/libs/calcite-web.js:246-250 | the clicked menu ends open exactly when it was closed (always open when it is outside the group) and stays well formed |
| Dropdown.Dropdowns.MenuToggledOutcome | assets/js/libs/calcite-web.js:241-252 | after a toggle click at most the clicked menu is open, so at most one menu of the group is active |
| Dropdown.Dropdowns.BodyClick | assets/js/libs/calcite-web.js:234-239 | a body click closes every menu when the listener is registered and changes nothing otherwise |
| Overlay.Overlays.constructor | assets/js/libs/calcite-web.js:262-267 | a fresh widget has no lastOn and no listeners, and is reachable when no panel is open |
| Overlay.Overlays.ToggleHidden | assets/js/libs/calcite-web.js:285 | wrapper and footer both get the toggled aria-hidden |
| Overlay.Overlays.Flip | assets/js/libs/calcite-web.js:299-300 | toggleActive over the panels and toggleAriaHidden over wrapper and footer |
| Overlay.Overlays.FlipOutcome | assets/js/libs/calcite-web.js:299-300 | the panel's state flips, an opened panel is the only open one, and at most one open is kept |
| Overlay.Overlays.ToggleFound | assets/js/libs/calcite-web.js:296-315 | without a panel the handler throws and nothing changes; otherwise it flips and then settles as Settle states |
| Overlay.Overlays.Toggle | assets/js/libs/calcite-web.js:297-315 | the panel flips, then an open panel closes and a closed one opens |
| Overlay.Overlays.Settle | assets/js/libs/calcite-web.js:302-314 | closing unregisters both listeners, focuses lastOn and drops tabindex, and throws when lastOn is undefined; opening registers both listeners, records the toggle, sets tabindex "0" and focuses the panel |
| Overlay.Overlays.Release | assets/js/libs/calcite-web.js:303-305 | both listeners end unregistered; focus moves to lastOn, or the handler throws when lastOn is undefined |
| Overlay.Overlays.Close | assets/js/libs/calcite-web.js:302-306 | listeners unregistered; on success focus is on lastOn and tabindex is gone; when lastOn is undefined it throws and tabindex and focus are kept |
| Overlay.Overlays.Open | assets/js/libs/calcite-web.js:307-314 | both listeners registered, lastOn is the toggle, tabindex "0", focus on the panel |
| Overlay.Overlays.ToggleKeepsReachable | assets/js/libs/calcite-web.js:292-315 | from a reachable state a toggle click on a panel never throws, flips it, and leads to a reachable state |
| Overlay.Overlays.Backdrop | assets/js/libs/calcite-web.js:323-327 | the panel flips and only the Escape listener is unregistered; the fence and lastOn are kept |
| Overlay.Overlays.BackdropOpensClosed | assets/js/libs/calcite-web.js:321-328 | a backdrop click on a closed panel opens it without registering the Escape listener, which leaves the reachable states |
| Overlay.Overlays.BackdropLeavesFence | assets/js/libs/calcite-web.js:321-328 | a backdrop click on the open panel closes every panel and keeps the state reachable, but the fence stays registered |
| Overlay.Overlays.DeactivatePanels | assets/js/libs/calcite-web.js:281-284 | every panel loses is-active and tabindex |
| Overlay.Overlays.DeactivatedClosesAll | assets/js/libs/calcite-web.js:281-284 | after that loop no panel is open and class strings stay well formed |
| Overlay.Overlays.Fence | assets/js/libs/calcite-web.js:269-277 | a focusin outside every panel, while the fence is registered, focuses the last open panel; otherwise focus is unchanged |
| Overlay.LastActive | assets/js/libs/calcite-web.js:271-275 | the loop's final focus is an open panel of the list, or the previous focus when none is open |
| Overlay.LastActiveIsLast | assets/js/libs/calcite-web.js:271-275 | the loop ends on the last open panel: when items[j] is open and no later panel is, focus lands on items[j] |
| Overlay.FenceFocusesOpen | assets/js/libs/calcite-web.js:269-277 | with at most one panel open, the fence moves focus to the open panel |
| Drawer.ToggleClick | assets/js/libs/calcite-web.js:292-315 | the drawer the data-drawer lookup found is toggled as Overlays.ToggleFound states; a missing drawer throws before any change |
| Drawer.Escape | assets/js/libs/calcite-web.js:281-288 | every drawer deactivated, aria-hidden toggled, both listeners unregistered, then focus on lastOn or a throw when it is undefined |
| Drawer.KeyUp | assets/js/libs/calcite-web.js:279-290 | only keyCode 27 with the listener registered acts, as Escape does; any other keyup changes nothing |
| Drawer.EscapeKeepsReachable | assets/js/libs/calcite-web.js:279-290 | from a reachable state Escape never throws, closes every drawer, returns focus to lastOn and leads to a reachable state |
| Drawer.BackdropClick | assets/js/libs/calcite-web.js:321-328 | only a click on an element with class "drawer" acts, as Overlays.Backdrop does |
| Drawer.FocusIn | assets/js/libs/calcite-web.js:269-277 | the fence for js-drawer |
| Modal.ModalOf | assets/js/libs/calcite-web.js:400-405 | a non-empty data-modal selects the lookup result; otherwise the result is the first js-modal element on the toggle's ancestor-or-self chain with none before it, or null exactly when no node of the chain is one |
| Modal.ToggleClick | assets/js/libs/calcite-web.js:396-423 | the chosen modal is toggled as Overlays.ToggleFound states; a missing modal throws before any change |
| Modal.Escape | assets/js/libs/calcite-web.js:385-392 | every modal deactivated; when lastOn is undefined the throw comes before aria-hidden and the listeners change; otherwise focus on lastOn, aria-hidden toggled, both listeners unregistered |
| Modal.KeyUp | assets/js/libs/calcite-web.js:383-394 | only keyCode 27 with the listener registered acts, as Escape does; any other keyup changes nothing |
| Modal.EscapeKeepsReachable | assets/js/libs/calcite-web.js:383-394 | from a reachable state Escape never throws, closes every modal, returns focus to lastOn and leads to a reachable state |
| Modal.BackdropClick | assets/js/libs/calcite-web.js:430-437 | only a click whose target is the modal itself acts, as Overlays.Backdrop does |
| Modal.FocusIn | assets/js/libs/calcite-web.js:373-381 | the fence for js-modal |
| Tabs.Position | assets/js/libs/calcite-web.js:468 | indexOf on the tab list: -1 exactly when the tab is absent, otherwise its first position |
| Tabs.From | assets/js/libs/calcite-web.js:465 | the ancestor chain of the found tab: the suffix of the event chain that starts at that tab, empty when there is no tab |
| Tabs.SetExpanded | assets/js/libs/calcite-web.js:473-479 | every item gets the given aria-expanded |
| Tabs.Clear | assets/js/libs/calcite-web.js:470-479 | every item loses the class and gets aria-expanded "false" |
| Tabs.ClearGroup | assets/js/libs/calcite-web.js:470-481 | every tab and section cleared, then the clicked tab gains the class |
| Tabs.Mark | assets/js/libs/calcite-web.js:482-485 | the section gains the class; tab and section get aria-expanded "true" |
| Tabs.Select | assets/js/libs/calcite-web.js:468-486 | the handler after its lookups: it throws exactly when the tab's index names no section, and clears, marks and sets aria-expanded as the source does |
| Tabs.SwitchTab | assets/js/libs/calcite-web.js:461-486 | without a tab or tab group on the chain it throws and nothing changes; otherwise the group is switched as Select states |
| Tabs.SwitchTabOutcome | assets/js/libs/calcite-web.js:461-486 | when the index names a section, exactly the clicked tab and that section are active with aria-expanded "true"; every other tab and section is inactive with "false" |
| Tabs.MissingSectionLeavesTab | assets/js/libs/calcite-web.js:481-482 | with no section at the tab's index the handler throws with the tab active, its aria-expanded "false", and every section cleared |
| SiteSearch.ToggleContainer | assets/js/libs/calcite-web.js:521-528 | an open container closes and the input is emptied; a closed one opens and the input is kept |
| SiteSearch.ToggleForm | assets/js/libs/calcite-web.js:519-529 | the closest js-site-search toggles as ToggleContainer states; without one the handler throws and nothing changes |
| SiteSearch.OpenThenClose | assets/js/libs/calcite-web.js:519-529 | focus in then focus out on a collapsed bar leaves it collapsed with its original class names |

## Left out

- Event plumbing (`click`, `addEvent`, `removeEvent`, `eventTarget`, `preventDefault`, `stopPropagation`, lines 33-78): browser APIs. A registered listener is a boolean. An event is a call to the handler it reaches, with its target chain as a parameter.
- Propagation: a toggle click stops propagation, so its own click never reaches the dropdown body listener. The model treats the body click as a separate event (`Dropdown.Dropdowns.BodyClick`).
- DOM queries (`findElements`, `querySelectorAll`, `nodeListToArray`, lines 134-148, and the `querySelector` lookups of the drawer, modal and tabs handlers): their results are parameters or fields. A list from a query has no repeated element (`Distinct`).
- Focus: `focus()` is browser behaviour. It is recorded only in the ghost field `focused`.
- The Enter-key handlers of the accordion and tabs (lines 211-215 and 492-496) are not separate members. They call the same handler as a click, which is modelled.
- calcite.expandingNav (lines 336-360) is not part of this model.
- calcite.sticky (lines 542-582) is left out: it needs layout values, cloned nodes and a timer.
- Tab widths (lines 455-458) are left out: floating-point arithmetic and CSS strings.
- Setup attribute writes are left out: `role`, `aria-live` and `tabindex` in the accordion and tabs setup loops, and the tabs setup's `aria-expanded` writes on tabs and sections (calcite-web.js:489 and :504-506). The one exception is `aria-expanded` on accordion sections (`Accordion.SetupSections`).
- Accordion.SetupSections: models the loop over one accordion's sections. A throw there also ends the setup of every later accordion on the page. It also escapes the pattern loop in `init` (calcite-web.js:589-593), so no pattern after the accordion in the default list is set up (dropdown, drawer, expandingNav, modal, tabs, siteSearch, sticky). Neither consequence is modelled.
- `init`, the AMD/CommonJS/global export and `noConflict` (lines 589-613) are packaging.
- Overlay.Overlays.ToggleHidden: assumes `.wrapper` and `.footer` exist and are different elements. With either missing, `toggleAriaHidden` would throw, and that case is not modelled.
- Tabs.SwitchTab: assumes that the clicked tab is not itself one of the group's sections and that no element is both a tab and a section. Overlapping markup is not modelled.
- Dom.Element: `nodeType`, `className`, `aria-hidden`, `aria-expanded`, `tabindex` and `value` are the only state. `setAttribute` with a number or a boolean is recorded as its string form ("0", "false").
- ClassList: lemmas about class names assume space is the only whitespace in a class string (`SpaceOnly`). `Trim` itself models the full ES5 whitespace set.
