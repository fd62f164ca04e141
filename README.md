# generic-tabs: the tab-selection state machine

This project models the `generic-tabs` custom element
(`generic-tabs/GenericTabs.js`). The element keeps one selection index,
`__index`, and mirrors it in its host attribute `selected`. Four things move
the index:

- start-up (`connectedCallback`);
- a change of the `selected` attribute (`attributeChangedCallback`), including
  writes through the `selected` setter;
- a key press in the tab list (`__onKeyDown`);
- a click in the tab list (`__onTabClicked`).

Every confirmed change runs a re-render pass, `__updateActive`. The pass walks
the slotted tabs and, by position, the slotted panels. For each position it
writes:

- the `selected`, `aria-selected` and `tabindex` markers: the selected tab loses its `tabindex`, every other tab gets `-1`;
- the `hidden` flag of the panel;
- the roles;
- the generated id `generic-tab-<i>`, and `aria-controls`/`aria-labelledby`.

At the selected position it also writes the index back to the host attribute
and sets `value` to the tab's trimmed text. When asked to, it then emits
`selected-changed` with the index as payload.

The model is written in the source's imperative form:

- `GenericTabsElement.GenericTabs` is a class holding the index, the host
  attribute (`Option<int>`, where `None` means absent) and `value`. It also
  holds a ghost log of emitted event payloads and a ghost record of the
  tab `.focus()` was last called on.
- The tabs and panels are arrays of attribute records (`TabRender.Tab`,
  `TabRender.Panel`). Each handler takes them as parameters, standing for
  `__getTabs()`/`__getPanels()`.
- `UpdateActive` is the `forEach` loop. Its loop invariant says the first `i`
  positions are rendered. It is proved equal to the pure function
  `TabRender.Render` of the state before the pass.
- The properties of the pass are lemmas about `Render`: exactly one tab
  selected, idempotence, and ARIA wiring.

The write-back at line 124 is modelled as it behaves: `setAttribute` runs the
attribute-change hook synchronously, and the hook runs a nested render pass.
`UpdateActive`, `RenderPosition`, `SetSelectedAttribute` and
`AttributeChangedCallback` are therefore mutually recursive. The recursion
ends because the nested pass finds the attribute already equal to the index,
and a write of an unchanged value does nothing. This has consequences
that differ from what one would expect of a tab component (that a slot
change never notifies and that a notifying pass emits exactly once). The
model follows the code, and states each consequence in a contract:

- A render pass emits an event of its own, from the nested pass,
  whenever the index names a tab and the host attribute held a different value
  or was absent (`TabRender.ReflectEvents`).
- A slot change therefore can notify: when the attribute is absent, a slot
  change with tabs present emits one event (`SlotChange`). It emits nothing
  once the attribute is present.
- `removeAttribute('selected')` makes the hook read the missing attribute as
  `Number(null) == 0`. The pass then writes `"0"` back, so two events with
  payload 0 are emitted when there is at least one tab
  (`RemoveSelectedAttribute`).
- Setting the attribute to the value it already holds emits nothing and does
  not re-render (`SetSelectedAttribute`, `WriteSelected`).
- Tab `i`'s `aria-controls` names `generic-tab-i`, which is the id of tab `i`
  itself. Panels are never given an id, so the reference never reaches the
  paired panel (`ControlsNameTheTabItself`). Panel `i`'s `aria-labelledby`
  does name tab `i` and no other (`LabelledByNamesPairedTab`).
- The source names the hook's parameters `(name, newVal, oldVal)`, while the
  platform passes the old value second and the new one third. Only their
  inequality is used, so the swap has no effect. The model names them in
  platform order.

Two JavaScript built-ins are modelled in `JsStrings`:

- `String.prototype.trim`, with ECMAScript white space and line terminators;
- the decimal rendering of a non-negative integer in a template literal,
  `NatToString`, with its inverse `ParseDecimal`.

## Model

| member | source | states |
|---|---|---|
| JsStrings.TrimStart | generic-tabs/GenericTabs.js:129 | the result is a suffix of the input, everything dropped is white space, and it does not start with white space |
| JsStrings.TrimEnd | generic-tabs/GenericTabs.js:129 | the result is a prefix of the input, everything dropped is white space, and it does not end with white space |
| JsStrings.Trim | generic-tabs/GenericTabs.js:129 | `textContent.trim()` is the part of the text left after removing only white space at its start and at its end, and it has no white space at either end |
| JsStrings.TrimKeepsTrimmed | generic-tabs/GenericTabs.js:129 | a text without white space at either end is its own trim |
| JsStrings.TrimIdempotent | generic-tabs/GenericTabs.js:129 | trimming a trimmed text changes nothing |
| JsStrings.NatToString | generic-tabs/GenericTabs.js:140 | the index printed in `generic-tab-${i}` is a non-empty string of decimal digits without a leading zero |
| JsStrings.ParseNatToString | generic-tabs/GenericTabs.js:140 | reading the printed index back as a decimal number gives the index |
| JsStrings.NatToStringInjective | generic-tabs/GenericTabs.js:140 | two indices print the same exactly when they are equal |
| TabRender.TabIdInjective | generic-tabs/GenericTabs.js:140-142 | the generated ids `generic-tab-i` and `generic-tab-j` are equal exactly when i == j |
| TabRender.RenderSelectsExactlyOne | generic-tabs/GenericTabs.js:122-135 | with 0 <= index < number of tabs, after the pass exactly the tab at index is selected with aria-selected "true" and no tabindex; every other tab has "false" and tabindex "-1"; only the panel at index is not hidden; the host attribute is index and `value` is the trimmed text of that tab |
| TabRender.RenderOutOfRangeSelectsNone | generic-tabs/GenericTabs.js:122-135 | with an index naming no tab, no tab is selected, every paired panel is hidden, the host attribute and `value` are untouched, and no write-back event occurs |
| TabRender.RenderWiresAria | generic-tabs/GenericTabs.js:137-142 | whatever the selection, tab i gets role "tab", id and aria-controls `generic-tab-i`; paired panel i gets role "tabpanel" and aria-labelledby `generic-tab-i`; texts, panel ids and panels past the tab count are unchanged |
| TabRender.LabelledByNamesPairedTab | generic-tabs/GenericTabs.js:140-142 | panel i's aria-labelledby names the id of tab j exactly when i == j |
| TabRender.ControlsNameTheTabItself | generic-tabs/GenericTabs.js:140-141 | tab i's aria-controls names the id of tab j exactly when i == j, that is, the tab itself and not a panel |
| TabRender.RenderIdempotent | generic-tabs/GenericTabs.js:117-143 | a second pass with the same index leaves the rendered state unchanged and provokes no write-back event |
| TabRender.RenderTabIdempotent | generic-tabs/GenericTabs.js:125-141 | marking a tab twice for the same position and index is marking it once |
| TabRender.RenderPanelIdempotent | generic-tabs/GenericTabs.js:128-142 | marking a panel twice for the same position and index is marking it once |
| TabRender.PassStep | generic-tabs/GenericTabs.js:122-143 | one loop step, the write-back at the selected position and then the marking of position i, extends "positions below i rendered" to i + 1 |
| TabRender.StepKeepsProgress | generic-tabs/GenericTabs.js:125-142 | marking position i of a partly rendered list renders positions up to i + 1 and leaves the text of tab i as it was before the pass |
| TabRender.NestedPassKeepsProgress | generic-tabs/GenericTabs.js:122-143 | a complete nested pass with the same index leaves the outer pass's rendered prefix rendered and renders every position |
| TabRender.PassComplete | generic-tabs/GenericTabs.js:122-143 | once all positions are visited, the state is exactly the rendered state of the one before the pass |
| TabRender.PassEventsStep | generic-tabs/GenericTabs.js:122-124 | the events of one more loop step extend the log of the first i steps to the log of the first i + 1 |
| TabRender.PassEventsComplete | generic-tabs/GenericTabs.js:145-152 | after the loop, the log holds the write-back events and then, when asked, the pass's own event with the index |
| TabRender.WriteSelectedRenders | generic-tabs/GenericTabs.js:63-70 | on a rendered state, writing an in-range index to the host attribute gives the rendered state for that index, leaves the attribute equal to it, and emits nothing exactly when the attribute already held it |
| KeyNavigation.NextIndexInRange | generic-tabs/GenericTabs.js:84-112 | from a valid index every recognised key lands on a valid index, and only an unrecognised key gives no index |
| KeyNavigation.ArrowsWrapModulo | generic-tabs/GenericTabs.js:85-109 | Right is +1 and Left is -1 modulo the tab count; Home gives 0 and End gives n - 1 whatever the prior index |
| KeyNavigation.ArrowsAreInverse | generic-tabs/GenericTabs.js:85-101 | on a valid index, Left undoes Right and Right undoes Left |
| GenericTabsElement.GenericTabs.constructor | generic-tabs/GenericTabs.js:31-38 | a new element has no `selected` attribute, no `value`, an empty event log and no `.focus()` call |
| GenericTabsElement.GenericTabs.ConnectedCallback | generic-tabs/GenericTabs.js:40-45 | the index becomes the attribute's number, or 0 when absent, so it mirrors the attribute |
| GenericTabsElement.GenericTabs.UpdateActive | generic-tabs/GenericTabs.js:117-153 | the pass leaves the index unchanged, leaves the items, attribute and `value` equal to `Render` of the state before it, and appends the write-back events and then, if asked, one event with the index |
| GenericTabsElement.GenericTabs.RenderPosition | generic-tabs/GenericTabs.js:122-143 | one forEach step: the write-back at the selected position, then the marking of position i, with the events of that write-back |
| GenericTabsElement.GenericTabs.MarkPosition | generic-tabs/GenericTabs.js:125-142 | the attribute writes of position i turn tab i and panel i into their rendered forms, and set `value` at the selected position |
| GenericTabsElement.GenericTabs.AttributeChangedCallback | generic-tabs/GenericTabs.js:63-70 | for a changed `selected` value, the index becomes the attribute's number and a notifying render follows; for any other call nothing changes |
| GenericTabsElement.GenericTabs.SetSelectedAttribute | generic-tabs/GenericTabs.js:78 | `setAttribute('selected', v)`: if the attribute already held v nothing changes; otherwise the index becomes v and the state and events are those of one notifying render for v |
| GenericTabsElement.GenericTabs.RemoveSelectedAttribute | generic-tabs/GenericTabs.js:63-70 | removing a present attribute sets the index to 0, renders for 0, and emits two events with payload 0 when there is a tab (one otherwise); removing an absent one changes nothing |
| GenericTabsElement.GenericTabs.SetSelected | generic-tabs/GenericTabs.js:76-79 | the getter then returns val, the attribute holds val and `.focus()` is not called; for a new in-range val, tab val is selected, its panel shown, `value` is its trimmed text and exactly one event with val is emitted |
| GenericTabsElement.GenericTabs.SlotChange | generic-tabs/GenericTabs.js:47-49 | a slot change re-renders for the unchanged index; it emits only the write-back event, and nothing while the attribute is present |
| GenericTabsElement.GenericTabs.Focus | generic-tabs/GenericTabs.js:162-165 | `.focus()` is called on the tab at the index exactly when the index names a tab; otherwise it throws (`FocusFailed`) |
| GenericTabsElement.GenericTabs.MoveIndex | generic-tabs/GenericTabs.js:84-112 | the key switch: recognised keys move the index as `NextIndex` says, only the arrows prevent the default action, and an unrecognised key changes nothing |
| GenericTabsElement.GenericTabs.OnKeyDown | generic-tabs/GenericTabs.js:81-115 | an unrecognised key changes nothing; any other key moves the index to `NextIndex`, writes it to the attribute with that write's render and events, and calls `.focus()` on the tab, or fails when there is none |
| GenericTabsElement.GenericTabs.OnTabClicked | generic-tabs/GenericTabs.js:155-160 | a target without role "tab" changes nothing; otherwise the index becomes its position in the tab list (-1 when it is not a slotted tab), the attribute is written with that write's render and events, and `.focus()` is called on it, or fails when it is not a slotted tab |

## Left out

- `generic-portal/GenericPortal.js`: it only moves itself into `document.body`, a DOM side effect with no logic to state.
- The shadow DOM template, styles, `attachShadow`, listener registration and the tab list's `aria-label` from `label` (lines 3-22, 31-38, 47-55): rendering plumbing. The constructor is modelled only for the state it leaves.
- `Number(...)` on arbitrary attribute text, including NaN and non-integer values: the attribute is an `Option<int>`. So the model does not capture two spellings of one number ("1" and "01") comparing as different strings in the hook.
- The numeric key codes of `KEYCODES` (`utils/keycodes.js` is not part of this model): keys are the enumeration `Left | Right | Home | End | Other`.
- `querySelectorAll` and document order: the tab and panel lists are arrays passed to each handler. A slot change is the call `SlotChange` with the new arrays.
- `CustomEvent` and `dispatchEvent`: an emitted event is its payload appended to the ghost log `events`. Listeners that react synchronously to the event are not modelled.
- Fewer panels than tabs, where `panels[i]` is undefined and the pass throws: every member that renders requires at least as many panels as tabs.
- The guard `!tabs || !panels` (line 121): it never fires for arrays, so it is not modelled. An empty tab list gives a pass with no steps.
- `__index` is undefined before `connectedCallback`: the constructor starts it at 0.
- Real focus: `focusCalledOn` is a ghost record of the tab `.focus()` was last called on, not of the focused element. Whether that tab can take focus is not modelled: the pass just before the call has removed the selected tab's `tabindex`, so a tab that is not focusable by itself does not receive focus. A TypeError from `.focus()` on a missing tab is the result `FocusFailed`, returned after the state changes have taken effect.
- When the platform runs the lifecycle callbacks: the environment calls the methods. The hook is run synchronously inside `setAttribute`/`removeAttribute`, as the platform does for custom elements.
- A click on a child element of a tab: `ClickTarget.OtherElement` carries its own role, and `indexOf` finds it at -1.
- GenericTabsElement.GenericTabs.Selected: the getter returns the index. It has no contract of its own; `SetSelected` states the getter after a write.
