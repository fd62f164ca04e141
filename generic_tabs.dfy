// The `generic-tabs` custom element: its selection index, the mirrored
// `selected` host attribute, `value`, and the handlers that change them.
// The tab list and the panel list are arrays passed to each handler; they
// stand for the children currently assigned to the `tab` and `panel` slots.
// Emitted `selected-changed` events are a ghost log of their payloads.

module GenericTabsElement {
  import opened Options
  import opened JsStrings
  import opened TabRender
  import opened KeyNavigation

  /** What a click landed on: the k-th tab element itself, or any other element
      (a child of a tab, or an element outside the tab list) with its role. */
  datatype ClickTarget = TabElement(position: nat) | OtherElement(role: Option<string>)

  /** How an input handler ended: ignored, `.focus()` called on a tab, or `.focus()` called on
      an undefined tab (a TypeError thrown after the state changes took effect). */
  datatype HandlerResult = Ignored | Focused | FocusFailed

  class GenericTabs {
    var index: int
    var selectedAttr: Option<int>
    var value: Option<string>
    ghost var events: seq<int>
    /** The position of the tab `.focus()` was last called on. Whether that tab can
        take focus (the pass has just removed its tabindex) is not modelled. */
    ghost var focusCalledOn: Option<nat>

    /** The index mirrors the host attribute whenever the attribute is present. */
    ghost predicate Valid()
      reads this
    {
      selectedAttr.Some? ==> index == selectedAttr.value
    }

    ghost function ViewOf(tabs: array<Tab>, panels: array<Panel>): View
      reads this, tabs, panels
    {
      View(tabs[..], panels[..], selectedAttr, value)
    }

    /** An element created without attributes; the index is 0 until connected. */
    constructor ()
      ensures Valid()
      ensures index == 0 && selectedAttr == None && value == None
      ensures events == [] && focusCalledOn == None
    {
      index := 0;
      selectedAttr := None;
      value := None;
      events := [];
      focusCalledOn := None;
    }

    /** Start-up: the index comes from the `selected` attribute, or 0 without one. */
    method ConnectedCallback()
      modifies this`index
      ensures Valid()
      ensures index == AttrNumber(selectedAttr)
    {
      if selectedAttr.Some? {
        index := selectedAttr.value;
      } else {
        index := 0;
      }
    }

    /** The `selected` getter. */
    function Selected(): int
      reads this
    {
      index
    }

    /**
     * The re-render pass. It visits every tab position in order and then,
     * when asked to, notifies with the index.
     */
    method UpdateActive(shouldDispatchEvent: bool, tabs: array<Tab>, panels: array<Panel>)
      requires tabs.Length <= panels.Length
      modifies this, tabs, panels
      decreases if selectedAttr == Some(index) then 0 else 1, 3
      // The pre-state is written out as old(View(...)) rather than old(ViewOf(...)) in
      // every contract of this class: the spelled-out form is much cheaper for the solver.
      ensures index == old(index) && focusCalledOn == old(focusCalledOn)
      ensures ViewOf(tabs, panels) == Render(old(View(tabs[..], panels[..], selectedAttr, value)), index)
      ensures events == old(events) + RenderEvents(old(View(tabs[..], panels[..], selectedAttr, value)), index, shouldDispatchEvent)
    {
      var n := tabs.Length;
      ghost var orig := ViewOf(tabs, panels);
      var i := 0;
      while i < n
        invariant 0 <= i <= n
        invariant index == old(index) && focusCalledOn == old(focusCalledOn)
        invariant PassProgress(orig, ViewOf(tabs, panels), i, index)
        invariant events == old(events) + PassEvents(orig, i, index)
      {
        ghost var v := ViewOf(tabs, panels);
        PassStep(orig, v, i, index);
        PassEventsStep(old(events), orig, v, i, index);
        RenderPosition(i, tabs, panels);
        i := i + 1;
      }
      PassComplete(orig, ViewOf(tabs, panels), index);
      PassEventsComplete(old(events), orig, index, shouldDispatchEvent);
      if shouldDispatchEvent {
        events := events + [index];
      }
    }

    /**
     * One step of the pass (the body of its forEach): at the selected
     * position the index is first written back to the host attribute, then
     * the items at position i are marked.
     */
    method RenderPosition(i: nat, tabs: array<Tab>, panels: array<Panel>)
      requires i < tabs.Length <= panels.Length
      modifies this, tabs, panels
      decreases if selectedAttr == Some(index) then 0 else 1, 2
      ensures index == old(index) && focusCalledOn == old(focusCalledOn)
      ensures ViewOf(tabs, panels) ==
        MarkStep(WriteBack(old(View(tabs[..], panels[..], selectedAttr, value)), i, index), i, index)
      ensures events == old(events) + (if i == index then WriteSelectedEvents(old(View(tabs[..], panels[..], selectedAttr, value)), index) else [])
    {
      if i == index {
        SetSelectedAttribute(index, tabs, panels);
      }
      MarkPosition(i, tabs, panels);
    }

    /**
     * The attribute writes of one step of the pass (after the write-back of
     * the index): markers, tabindex and panel visibility by whether
     * position i is the selected one, then roles and generated references.
     */
    method MarkPosition(i: nat, tabs: array<Tab>, panels: array<Panel>)
      requires i < tabs.Length <= panels.Length
      modifies this`value, tabs, panels
      ensures ViewOf(tabs, panels) == MarkStep(old(View(tabs[..], panels[..], selectedAttr, value)), i, index)
    {
      var t, p := tabs[i], panels[i];
      if i == index {
        t := t.(selected := true, ariaSelected := Some("true"), tabIndex := None);
        p := p.(hidden := false);
        value := Some(Trim(t.text));
      } else {
        t := t.(selected := false, ariaSelected := Some("false"), tabIndex := Some("-1"));
        p := p.(hidden := true);
      }
      t := t.(role := Some("tab"));
      p := p.(role := Some("tabpanel"));
      t := t.(id := TabId(i), ariaControls := Some(TabId(i)));
      p := p.(ariaLabelledBy := Some(TabId(i)));
      assert t == RenderTab(tabs[i], i, index);
      assert p == RenderPanel(panels[i], i, index);
      tabs[i], panels[i] := t, p;
    }

    /**
     * The attribute-change hook, run with the attribute already holding newVal.
     * A write of an unchanged value does nothing, which is what ends the
     * write-back from the render pass.
     */
    method AttributeChangedCallback(name: string, oldVal: Option<int>, newVal: Option<int>,
                                    tabs: array<Tab>, panels: array<Panel>)
      requires newVal == selectedAttr
      requires tabs.Length <= panels.Length
      modifies this, tabs, panels
      decreases if name == "selected" && oldVal != newVal then (if selectedAttr.None? then 1 else 0) else 0,
                if name == "selected" && oldVal != newVal then 4 else 0
      ensures focusCalledOn == old(focusCalledOn)
      ensures name == "selected" && oldVal != newVal ==>
        Valid()
        && index == AttrNumber(old(selectedAttr))
        && ViewOf(tabs, panels) == Render(old(View(tabs[..], panels[..], selectedAttr, value)), index)
        && events == old(events) + RenderEvents(old(View(tabs[..], panels[..], selectedAttr, value)), index, true)
      ensures !(name == "selected" && oldVal != newVal) ==>
        unchanged(this) && unchanged(tabs) && unchanged(panels)
    {
      if name == "selected" {
        if newVal != oldVal {
          index := AttrNumber(selectedAttr);
          UpdateActive(true, tabs, panels);
        }
      }
    }

    /**
     * setAttribute('selected', v): the attribute takes v and the hook runs.
     * When the attribute already held v nothing else happens; otherwise the
     * index becomes v and one full render notifies once with payload v.
     */
    method SetSelectedAttribute(v: int, tabs: array<Tab>, panels: array<Panel>)
      requires tabs.Length <= panels.Length
      modifies this, tabs, panels
      decreases if selectedAttr == Some(v) then 0 else 1, 1
      ensures focusCalledOn == old(focusCalledOn)
      ensures index == if old(selectedAttr) != Some(v) then v else old(index)
      ensures ViewOf(tabs, panels) == WriteSelected(old(View(tabs[..], panels[..], selectedAttr, value)), v)
      ensures events == old(events) + WriteSelectedEvents(old(View(tabs[..], panels[..], selectedAttr, value)), v)
    {
      var previous := selectedAttr;
      selectedAttr := Some(v);
      AttributeChangedCallback("selected", previous, Some(v), tabs, panels);
    }

    /**
     * removeAttribute('selected'): the hook reads the missing attribute as 0,
     * and the render pass writes "0" back, which notifies a second time.
     */
    method RemoveSelectedAttribute(tabs: array<Tab>, panels: array<Panel>)
      requires tabs.Length <= panels.Length
      modifies this, tabs, panels
      ensures Valid() && focusCalledOn == old(focusCalledOn)
      ensures old(selectedAttr).Some? ==>
        index == 0
        && ViewOf(tabs, panels) == Render(old(View(tabs[..], panels[..], selectedAttr, value)).(selectedAttr := None), 0)
        && events == old(events) + (if tabs.Length > 0 then [0, 0] else [0])
      ensures old(selectedAttr).None? ==> unchanged(this) && unchanged(tabs) && unchanged(panels)
    {
      if selectedAttr.Some? {
        var previous := selectedAttr;
        selectedAttr := None;
        AttributeChangedCallback("selected", previous, None, tabs, panels);
      }
    }

    /** The `selected` setter: the index takes val, then the attribute is written. */
    method SetSelected(val: int, tabs: array<Tab>, panels: array<Panel>)
      requires Valid()
      requires tabs.Length <= panels.Length
      modifies this, tabs, panels
      ensures Valid() && Selected() == val && selectedAttr == Some(val)
      ensures focusCalledOn == old(focusCalledOn)
      ensures ViewOf(tabs, panels) == WriteSelected(old(View(tabs[..], panels[..], selectedAttr, value)), val)
      ensures events == old(events) + WriteSelectedEvents(old(View(tabs[..], panels[..], selectedAttr, value)), val)
      ensures old(selectedAttr) != Some(val) && 0 <= val < tabs.Length ==>
        tabs[val].selected && !panels[val].hidden && value == Some(Trim(old(tabs[val].text)))
        && events == old(events) + [val]
    {
      index := val;
      SetSelectedAttribute(index, tabs, panels);
      if old(selectedAttr) != Some(val) && 0 <= val < tabs.Length {
        RenderSelectsExactlyOne(old(View(tabs[..], panels[..], selectedAttr, value)).(selectedAttr := Some(val)), val);
      }
    }

    /** A slot change: a render pass that does not ask for a notification. */
    method SlotChange(tabs: array<Tab>, panels: array<Panel>)
      requires Valid()
      requires tabs.Length <= panels.Length
      modifies this, tabs, panels
      ensures Valid() && index == old(index) && focusCalledOn == old(focusCalledOn)
      ensures ViewOf(tabs, panels) == Render(old(View(tabs[..], panels[..], selectedAttr, value)), index)
      ensures events == old(events) + ReflectEvents(old(View(tabs[..], panels[..], selectedAttr, value)), index)
      ensures old(selectedAttr).Some? ==> events == old(events)
    {
      UpdateActive(false, tabs, panels);
    }

    /** Calls `.focus()` on the selected tab; there is no tab to call it on when the index is out of range. */
    method Focus(tabs: array<Tab>) returns (ok: bool)
      modifies this`focusCalledOn
      ensures ok <==> 0 <= index < tabs.Length
      ensures focusCalledOn == if ok then Some(index as nat) else old(focusCalledOn)
    {
      ok := 0 <= index < tabs.Length;
      if ok {
        focusCalledOn := Some(index as nat);
      }
    }

    /**
     * The switch on the key code: the arrows wrap around the ends and
     * suppress the default action, Home and End jump to the first and last
     * tab. An unrecognised key changes nothing.
     */
    method MoveIndex(key: Key, n: nat) returns (recognised: bool, defaultPrevented: bool)
      modifies this`index
      ensures recognised <==> key != Other
      ensures defaultPrevented == PreventsDefault(key)
      ensures index == if recognised then NextIndex(key, old(index), n).value else old(index)
    {
      match key {
        case Left =>
          if index == 0 {
            index := n - 1;
          } else {
            index := index - 1;
          }
          defaultPrevented := true;
        case Right =>
          if index == n - 1 {
            index := 0;
          } else {
            index := index + 1;
          }
          defaultPrevented := true;
        case Home =>
          index := 0;
          defaultPrevented := false;
        case End =>
          index := n - 1;
          defaultPrevented := false;
        case Other =>
          return false, false;
      }
      recognised := true;
    }

    /**
     * A key press inside the tab list. Unrecognised keys return before any
     * change; the others move the index, write the attribute and call `.focus()`.
     */
    method OnKeyDown(key: Key, tabs: array<Tab>, panels: array<Panel>)
      returns (defaultPrevented: bool, result: HandlerResult)
      requires Valid()
      requires tabs.Length <= panels.Length
      modifies this, tabs, panels
      ensures Valid()
      ensures defaultPrevented == PreventsDefault(key)
      ensures key == Other ==>
        result == Ignored && unchanged(this) && unchanged(tabs) && unchanged(panels)
      ensures key != Other ==> index == NextIndex(key, old(index), tabs.Length).value
      ensures key != Other ==>
        ViewOf(tabs, panels) == WriteSelected(old(View(tabs[..], panels[..], selectedAttr, value)), index)
      ensures key != Other ==>
        events == old(events) + WriteSelectedEvents(old(View(tabs[..], panels[..], selectedAttr, value)), index)
      ensures key != Other ==>
        result == (if 0 <= index < tabs.Length then Focused else FocusFailed)
        && focusCalledOn == (if 0 <= index < tabs.Length then Some(index as nat) else old(focusCalledOn))
    {
      var recognised;
      recognised, defaultPrevented := MoveIndex(key, tabs.Length);
      if !recognised {
        return defaultPrevented, Ignored;
      }
      SetSelectedAttribute(index, tabs, panels);
      var ok := Focus(tabs);
      result := if ok then Focused else FocusFailed;
    }

    /** The position indexOf finds for a click target: its own, or -1 for an element not in the list. */
    function ClickedPosition(target: ClickTarget): int {
      match target
      case TabElement(k) => k
      case OtherElement(_) => -1
    }

    function TargetRole(target: ClickTarget, tabs: array<Tab>): Option<string>
      requires target.TabElement? ==> target.position < tabs.Length
      reads tabs
    {
      match target
      case TabElement(k) => tabs[k].role
      case OtherElement(role) => role
    }

    /**
     * A click inside the tab list. Only a target with role "tab" is accepted;
     * the index becomes its position in the tab list (-1 when it is not one of
     * the slotted tabs), the attribute is written and `.focus()` is called.
     */
    method OnTabClicked(target: ClickTarget, tabs: array<Tab>, panels: array<Panel>)
      returns (result: HandlerResult)
      requires Valid()
      requires tabs.Length <= panels.Length
      requires target.TabElement? ==> target.position < tabs.Length
      modifies this, tabs, panels
      ensures Valid()
      ensures old(TargetRole(target, tabs)) != Some("tab") ==>
        result == Ignored && unchanged(this) && unchanged(tabs) && unchanged(panels)
      ensures old(TargetRole(target, tabs)) == Some("tab") ==>
        var j := ClickedPosition(target);
        index == j
        && ViewOf(tabs, panels) == WriteSelected(old(View(tabs[..], panels[..], selectedAttr, value)), j)
        && events == old(events) + WriteSelectedEvents(old(View(tabs[..], panels[..], selectedAttr, value)), j)
        && result == (if target.TabElement? then Focused else FocusFailed)
        && focusCalledOn == (if target.TabElement? then Some(target.position) else old(focusCalledOn))
    {
      if TargetRole(target, tabs) != Some("tab") {
        return Ignored;
      }
      index := ClickedPosition(target);
      SetSelectedAttribute(index, tabs, panels);
      var ok := Focus(tabs);
      result := if ok then Focused else FocusFailed;
    }
  }
}
