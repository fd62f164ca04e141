// The per-item state that one re-render pass of the tab element writes,
// stated as functions of the items before the pass and the selection index.
// Tabs and panels are records of the attributes the pass touches; the tab at
// position i and the panel at position i are paired by position only.

module TabRender {
  import opened Options
  import opened JsStrings

  /** A tab element: its text content and the attributes the render pass writes. */
  datatype Tab = Tab(
    text: string,
    id: string,
    selected: bool,               // presence of the `selected` attribute
    ariaSelected: Option<string>,
    tabIndex: Option<string>,
    role: Option<string>,
    ariaControls: Option<string>)

  /** A panel element: its id (never written) and the attributes the render pass writes. */
  datatype Panel = Panel(
    id: string,
    hidden: bool,                 // presence of the `hidden` attribute
    role: Option<string>,
    ariaLabelledBy: Option<string>)

  /** What a render pass reads and writes: the items, the host's `selected` attribute and `value`. */
  datatype View = View(tabs: seq<Tab>, panels: seq<Panel>, selectedAttr: Option<int>, value: Option<string>)

  /** The generated identifier `generic-tab-<i>`. */
  function TabId(i: nat): string {
    "generic-tab-" + NatToString(i)
  }

  lemma TabIdInjective(i: nat, j: nat)
    ensures TabId(i) == TabId(j) <==> i == j
  {
    if TabId(i) == TabId(j) {
      assert NatToString(i) == TabId(i)[12..] == TabId(j)[12..] == NatToString(j);
      NatToStringInjective(i, j);
    }
  }

  /** Tab i after the pass: selected markers, roving tabindex, role and ARIA wiring. */
  function RenderTab(t: Tab, i: nat, index: int): Tab {
    var marked :=
      if i == index then t.(selected := true, ariaSelected := Some("true"), tabIndex := None)
      else t.(selected := false, ariaSelected := Some("false"), tabIndex := Some("-1"));
    marked.(role := Some("tab"), id := TabId(i), ariaControls := Some(TabId(i)))
  }

  /** Panel i after the pass: shown only when paired with the selected tab. */
  function RenderPanel(p: Panel, i: nat, index: int): Panel {
    p.(hidden := i != index, role := Some("tabpanel"), ariaLabelledBy := Some(TabId(i)))
  }

  function RenderTabs(ts: seq<Tab>, index: int): (r: seq<Tab>)
    ensures |r| == |ts|
  {
    seq(|ts|, k requires 0 <= k < |ts| => RenderTab(ts[k], k, index))
  }

  /** The pass walks the tab list; panels past the tab count are not touched. */
  function RenderPanels(ps: seq<Panel>, n: nat, index: int): (r: seq<Panel>)
    ensures |r| == |ps|
  {
    seq(|ps|, k requires 0 <= k < |ps| => if k < n then RenderPanel(ps[k], k, index) else ps[k])
  }

  /**
   * The state after one render pass. Only when the index names a tab does
   * the pass write the host attribute and `value`.
   */
  function Render(v: View, index: int): View {
    var inRange := 0 <= index < |v.tabs|;
    View(RenderTabs(v.tabs, index),
         RenderPanels(v.panels, |v.tabs|, index),
         if inRange then Some(index) else v.selectedAttr,
         if inRange then Some(Trim(v.tabs[index].text)) else v.value)
  }

  /**
   * The event the pass provokes through its write-back of the host
   * attribute: the write reaches the attribute-change hook, which re-renders
   * and notifies, exactly when the attribute held something else.
   */
  function ReflectEvents(v: View, index: int): seq<int> {
    if 0 <= index < |v.tabs| && v.selectedAttr != Some(index) then [index] else []
  }

  /** All events a pass emits, in order: the write-back one, then its own if asked. */
  function RenderEvents(v: View, index: int, shouldDispatchEvent: bool): seq<int> {
    ReflectEvents(v, index) + (if shouldDispatchEvent then [index] else [])
  }

  /** Number(getAttribute('selected')): an absent attribute reads as 0. */
  function AttrNumber(a: Option<int>): int {
    match a
    case None => 0
    case Some(v) => v
  }

  // ---------------------------------------------------------------------------
  // Properties of one pass
  // ---------------------------------------------------------------------------

  /** With an index naming a tab, that tab alone is selected and its panel alone is shown. */
  lemma RenderSelectsExactlyOne(v: View, index: int)
    requires 0 <= index < |v.tabs| <= |v.panels|
    ensures var r := Render(v, index);
      (forall k :: 0 <= k < |v.tabs| ==>
        (r.tabs[k].selected <==> k == index)
        && r.tabs[k].ariaSelected == Some(if k == index then "true" else "false")
        && r.tabs[k].tabIndex == (if k == index then None else Some("-1"))
        && (r.panels[k].hidden <==> k != index))
      && r.selectedAttr == Some(index)
      && r.value == Some(Trim(v.tabs[index].text))
  {
  }

  /** With an index naming no tab, nothing is selected, every paired panel is hidden,
      and the host attribute and `value` keep their old contents. */
  lemma RenderOutOfRangeSelectsNone(v: View, index: int)
    requires |v.tabs| <= |v.panels|
    requires !(0 <= index < |v.tabs|)
    ensures var r := Render(v, index);
      (forall k :: 0 <= k < |v.tabs| ==>
        !r.tabs[k].selected && r.tabs[k].ariaSelected == Some("false")
        && r.tabs[k].tabIndex == Some("-1") && r.panels[k].hidden)
      && r.selectedAttr == v.selectedAttr && r.value == v.value
      && ReflectEvents(v, index) == []
  {
  }

  /** Whatever the selection, every pair gets its roles and generated references;
      text, panel ids and unpaired panels are left alone. */
  lemma RenderWiresAria(v: View, index: int)
    ensures var r := Render(v, index);
      |r.tabs| == |v.tabs| && |r.panels| == |v.panels|
      && (forall k :: 0 <= k < |v.tabs| ==>
        r.tabs[k].role == Some("tab") && r.tabs[k].id == TabId(k)
        && r.tabs[k].ariaControls == Some(TabId(k)) && r.tabs[k].text == v.tabs[k].text)
      && (forall k :: 0 <= k < |v.tabs| && k < |v.panels| ==>
        r.panels[k].role == Some("tabpanel") && r.panels[k].ariaLabelledBy == Some(TabId(k)))
      && (forall k :: 0 <= k < |v.panels| ==> r.panels[k].id == v.panels[k].id)
      && (forall k :: |v.tabs| <= k < |v.panels| ==> r.panels[k] == v.panels[k])
  {
  }

  /** Panel i's aria-labelledby names tab i and no other tab. */
  lemma LabelledByNamesPairedTab(v: View, index: int, i: nat, j: nat)
    requires i < |v.tabs| <= |v.panels| && j < |v.tabs|
    ensures var r := Render(v, index);
      r.panels[i].ariaLabelledBy == Some(r.tabs[j].id) <==> i == j
  {
    TabIdInjective(i, j);
  }

  /** Tab i's aria-controls names tab i itself: panels are given no id by the pass,
      so the reference never reaches the paired panel. */
  lemma ControlsNameTheTabItself(v: View, index: int, i: nat, j: nat)
    requires i < |v.tabs| && j < |v.tabs|
    ensures var r := Render(v, index);
      r.tabs[i].ariaControls == Some(r.tabs[j].id) <==> i == j
  {
    TabIdInjective(i, j);
  }

  lemma RenderTabIdempotent(t: Tab, i: nat, index: int)
    ensures RenderTab(RenderTab(t, i, index), i, index) == RenderTab(t, i, index)
  {
  }

  /** A second pass with the same items and index changes nothing and provokes
      no write-back event. */
  lemma RenderIdempotent(v: View, index: int)
    ensures Render(Render(v, index), index) == Render(v, index)
    ensures ReflectEvents(Render(v, index), index) == []
  {
    var r := Render(v, index);
    assert RenderTabs(r.tabs, index) == r.tabs;
    assert RenderPanels(r.panels, |r.tabs|, index) == r.panels;
    if 0 <= index < |v.tabs| {
      assert r.tabs[index].text == v.tabs[index].text;
    }
  }

  lemma RenderPanelIdempotent(p: Panel, i: nat, index: int)
    ensures RenderPanel(RenderPanel(p, i, index), i, index) == RenderPanel(p, i, index)
  {
  }

  // ---------------------------------------------------------------------------
  // A pass part-way through: the first i positions rendered, the rest either
  // untouched or already rendered by a nested pass
  // ---------------------------------------------------------------------------

  ghost predicate TabsRenderedUpTo(ts: seq<Tab>, orig: seq<Tab>, i: nat, index: int) {
    |ts| == |orig| && i <= |ts|
    && (forall k :: 0 <= k < i ==> ts[k] == RenderTab(orig[k], k, index))
    && (forall k :: i <= k < |ts| ==> ts[k] == orig[k] || ts[k] == RenderTab(orig[k], k, index))
  }

  ghost predicate PanelsRenderedUpTo(ps: seq<Panel>, orig: seq<Panel>, n: nat, i: nat, index: int) {
    |ps| == |orig| && i <= n <= |ps|
    && (forall k :: 0 <= k < i ==> ps[k] == RenderPanel(orig[k], k, index))
    && (forall k :: i <= k < n ==> ps[k] == orig[k] || ps[k] == RenderPanel(orig[k], k, index))
    && (forall k :: n <= k < |ps| ==> ps[k] == orig[k])
  }

  /** One step of the pass at position i, after the write-back: the item writes and `value`. */
  function MarkStep(v: View, i: nat, index: int): (r: View)
    requires i < |v.tabs| && i < |v.panels|
    ensures r.selectedAttr == v.selectedAttr
  {
    v.(tabs := v.tabs[i := RenderTab(v.tabs[i], i, index)],
       panels := v.panels[i := RenderPanel(v.panels[i], i, index)],
       value := if i == index then Some(Trim(v.tabs[i].text)) else v.value)
  }

  /** The pass from orig has handled the positions before i. */
  ghost predicate PassProgress(orig: View, v: View, i: nat, index: int) {
    |orig.tabs| <= |orig.panels|
    && TabsRenderedUpTo(v.tabs, orig.tabs, i, index)
    && PanelsRenderedUpTo(v.panels, orig.panels, |orig.tabs|, i, index)
    && v.selectedAttr == (if 0 <= index < i then Some(index) else orig.selectedAttr)
    && v.value == (if 0 <= index < i && index < |orig.tabs| then Some(Trim(orig.tabs[index].text)) else orig.value)
  }

  /**
   * The state after setAttribute('selected', j): when the attribute held
   * something else, the hook takes j as the index and runs a full pass;
   * otherwise nothing but the (equal) attribute is written.
   */
  function WriteSelected(v: View, j: int): View {
    if v.selectedAttr != Some(j) then Render(v.(selectedAttr := Some(j)), j) else v
  }

  /** The events setAttribute('selected', j) emits. */
  function WriteSelectedEvents(v: View, j: int): seq<int> {
    if v.selectedAttr != Some(j) then [j] else []
  }

  /** The state after the write-back of the index at position i of a pass. */
  function WriteBack(v: View, i: nat, index: int): View {
    if i == index then WriteSelected(v, index) else v
  }

  /**
   * One step keeps the pass on track, whether or not the write-back at the
   * selected position ran a nested full pass first.
   */
  lemma PassStep(orig: View, v: View, i: nat, index: int)
    requires i < |orig.tabs| && PassProgress(orig, v, i, index)
    ensures PassProgress(orig, MarkStep(WriteBack(v, i, index), i, index), i + 1, index)
  {
    var n := |orig.tabs|;
    var w := WriteBack(v, i, index);
    if i == index && v.selectedAttr != Some(index) {
      NestedPassKeepsProgress(v.tabs, orig.tabs, v.panels, orig.panels, n, i, index);
    }
    StepKeepsProgress(w.tabs, orig.tabs, w.panels, orig.panels, n, i, index);
  }

  /** The events a pass from orig has emitted once it has handled the positions before i. */
  function PassEvents(orig: View, i: nat, index: int): seq<int> {
    if 0 <= index < i then WriteSelectedEvents(orig, index) else []
  }

  lemma PassEventsStep(log: seq<int>, orig: View, v: View, i: nat, index: int)
    requires i < |orig.tabs| && PassProgress(orig, v, i, index)
    ensures log + PassEvents(orig, i, index) + (if i == index then WriteSelectedEvents(v, index) else [])
         == log + PassEvents(orig, i + 1, index)
  {
    if i == index {
      assert PassEvents(orig, i, index) == [];
    } else {
      assert PassEvents(orig, i + 1, index) == PassEvents(orig, i, index);
    }
  }

  /** The events of a whole pass: the write-back's, then the pass's own when asked. */
  lemma PassEventsComplete(log: seq<int>, orig: View, index: int, shouldDispatchEvent: bool)
    ensures log + PassEvents(orig, |orig.tabs|, index) + (if shouldDispatchEvent then [index] else [])
         == log + RenderEvents(orig, index, shouldDispatchEvent)
  {
    assert PassEvents(orig, |orig.tabs|, index) == ReflectEvents(orig, index);
  }

  /** A pass that has handled every position has produced Render. */
  lemma PassComplete(orig: View, v: View, index: int)
    requires PassProgress(orig, v, |orig.tabs|, index)
    ensures v == Render(orig, index)
  {
  }

  /** A nested full pass keeps a partial pass's progress. */
  lemma NestedPassKeepsProgress(ts: seq<Tab>, origTabs: seq<Tab>, ps: seq<Panel>, origPanels: seq<Panel>,
                                n: nat, i: nat, index: int)
    requires n == |ts| && TabsRenderedUpTo(ts, origTabs, i, index)
    requires PanelsRenderedUpTo(ps, origPanels, n, i, index)
    ensures TabsRenderedUpTo(RenderTabs(ts, index), origTabs, n, index)
    ensures PanelsRenderedUpTo(RenderPanels(ps, n, index), origPanels, n, n, index)
  {
    forall k | 0 <= k < n
      ensures RenderTabs(ts, index)[k] == RenderTab(origTabs[k], k, index)
      ensures RenderPanels(ps, n, index)[k] == RenderPanel(origPanels[k], k, index)
    {
      RenderTabIdempotent(origTabs[k], k, index);
      RenderPanelIdempotent(origPanels[k], k, index);
    }
  }

  /** Rendering position i of a partial pass advances it by one. */
  lemma StepKeepsProgress(ts: seq<Tab>, origTabs: seq<Tab>, ps: seq<Panel>, origPanels: seq<Panel>,
                          n: nat, i: nat, index: int)
    requires n == |ts| && i < n
    requires TabsRenderedUpTo(ts, origTabs, i, index)
    requires PanelsRenderedUpTo(ps, origPanels, n, i, index)
    ensures TabsRenderedUpTo(ts[i := RenderTab(ts[i], i, index)], origTabs, i + 1, index)
    ensures PanelsRenderedUpTo(ps[i := RenderPanel(ps[i], i, index)], origPanels, n, i + 1, index)
    ensures ts[i].text == origTabs[i].text
  {
    RenderTabIdempotent(origTabs[i], i, index);
    RenderPanelIdempotent(origPanels[i], i, index);
  }

  // ---------------------------------------------------------------------------
  // Writing the attribute
  // ---------------------------------------------------------------------------

  /**
   * Writing j always leaves the attribute at j. On a view already rendered
   * for the index its attribute holds, writing an index that names a tab
   * gives exactly the render for that index, and notifies iff it changed.
   */
  lemma WriteSelectedRenders(v: View, j: int)
    requires v.selectedAttr.Some? ==> v == Render(v, v.selectedAttr.value)
    requires 0 <= j < |v.tabs|
    ensures WriteSelected(v, j) == Render(v, j)
    ensures WriteSelected(v, j).selectedAttr == Some(j)
    ensures WriteSelectedEvents(v, j) == [] <==> v.selectedAttr == Some(j)
  {
    if v.selectedAttr != Some(j) {
      assert Render(v.(selectedAttr := Some(j)), j) == Render(v, j);
    }
  }
}
