/**
 * The color-table registry as a value: the four fields of ColorTableAttributes and the
 * per-slot dirty flags that its AttributeSubject base keeps. Every mutating operation of
 * the Java class has a function here that gives the state after it; the lemmas state what
 * those operations promise (aligned vectors, valid selectors, the frame of each setter).
 */
module Registry {
  import opened ControlPoints

  /** The number of slots the class owns; slot i is selected by Select(i). */
  const NumSlots: nat := 4
  const NamesSlot: nat := 0
  const ColorTablesSlot: nat := 1
  const ActiveContinuousSlot: nat := 2
  const ActiveDiscreteSlot: nat := 3

  datatype State = State(
    names: seq<string>,
    colorTables: seq<ColorControlPointList>,
    activeContinuous: string,
    activeDiscrete: string,
    /** One flag per slot of the subject; slots past NumSlots belong to a subclass. */
    selected: seq<bool>)

  predicate HasSlots(st: State) {
    |st.selected| >= NumSlots
  }

  /** The two parallel vectors have the same length. */
  predicate Aligned(st: State) {
    |st.names| == |st.colorTables|
  }

  predicate SelectorOk(selector: string, names: seq<string>) {
    selector == "" || selector in names
  }

  /** Each active selector is empty or names an entry. */
  predicate SelectorsValid(st: State) {
    SelectorOk(st.activeContinuous, st.names) && SelectorOk(st.activeDiscrete, st.names)
  }

  /** The fields compared by ColorTableAttributes.equals (the flags are not compared). */
  predicate SameFields(a: State, b: State) {
    && a.names == b.names
    && a.colorTables == b.colorTables
    && a.activeContinuous == b.activeContinuous
    && a.activeDiscrete == b.activeDiscrete
  }

  /** `after` keeps the flags of `before` and additionally selects exactly `slots`. */
  predicate SelectsExactly(before: State, after: State, slots: set<int>) {
    && |after.selected| == |before.selected|
    && forall k :: 0 <= k < |before.selected| ==> after.selected[k] == (before.selected[k] || k in slots)
  }

  /** The base's Select(i): flag i set, every field and every other flag kept. */
  function Select(st: State, i: nat): (r: State)
    requires i < |st.selected|
    ensures SameFields(r, st)
    ensures SelectsExactly(st, r, {i})
  {
    st.(selected := st.selected[i := true])
  }

  function SelectAll(st: State): (r: State)
    ensures SameFields(r, st) && |r.selected| == |st.selected|
    ensures forall k :: 0 <= k < |r.selected| ==> r.selected[k]
  {
    st.(selected := seq(|st.selected|, _ => true))
  }

  /** Vector.remove(i): the element at i goes, the others keep their order. */
  function RemoveAt<T>(s: seq<T>, i: nat): (r: seq<T>)
    requires i < |s|
    ensures |r| == |s| - 1
    ensures forall k :: 0 <= k < i ==> r[k] == s[k]
    ensures forall k :: i <= k < |r| ==> r[k] == s[k + 1]
  {
    s[..i] + s[i + 1..]
  }

  /** The first name, or "" when there is none. */
  function FirstOrEmpty(names: seq<string>): (r: string)
    ensures |names| > 0 ==> r == names[0]
    ensures |names| == 0 ==> r == ""
  {
    if |names| > 0 then names[0] else ""
  }

  /** The linear scan of GetColorTableIndex: the least index holding `name`, or -1. */
  function FirstIndex(names: seq<string>, name: string): (r: int)
    ensures -1 <= r < |names|
    ensures r == -1 <==> name !in names
    ensures 0 <= r ==> names[r] == name && forall k :: 0 <= k < r ==> names[k] != name
  {
    if |names| == 0 then -1
    else if names[0] == name then 0
    else
      var k := FirstIndex(names[1..], name);
      if k < 0 then -1 else k + 1
  }

  // ----- setters (Select after each assignment) -----

  function SetNames(st: State, names: seq<string>): (r: State)
    requires HasSlots(st)
    ensures r.names == names
    ensures r.colorTables == st.colorTables
    ensures r.activeContinuous == st.activeContinuous && r.activeDiscrete == st.activeDiscrete
    ensures SelectsExactly(st, r, {NamesSlot})
  {
    Select(st.(names := names), NamesSlot)
  }

  function SetActiveContinuous(st: State, selector: string): (r: State)
    requires HasSlots(st)
    ensures r.activeContinuous == selector
    ensures r.names == st.names && r.colorTables == st.colorTables
    ensures r.activeDiscrete == st.activeDiscrete
    ensures SelectsExactly(st, r, {ActiveContinuousSlot})
  {
    Select(st.(activeContinuous := selector), ActiveContinuousSlot)
  }

  function SetActiveDiscrete(st: State, selector: string): (r: State)
    requires HasSlots(st)
    ensures r.activeDiscrete == selector
    ensures r.names == st.names && r.colorTables == st.colorTables
    ensures r.activeContinuous == st.activeContinuous
    ensures SelectsExactly(st, r, {ActiveDiscreteSlot})
  {
    Select(st.(activeDiscrete := selector), ActiveDiscreteSlot)
  }

  // ----- the attribute-group operations on colorTables alone -----

  function AddColorTables(st: State, c: ColorControlPointList): (r: State)
    requires HasSlots(st)
    ensures r.colorTables == st.colorTables + [c]
    ensures r.names == st.names
    ensures r.activeContinuous == st.activeContinuous && r.activeDiscrete == st.activeDiscrete
    ensures SelectsExactly(st, r, {ColorTablesSlot})
  {
    Select(st.(colorTables := st.colorTables + [c]), ColorTablesSlot)
  }

  function ClearColorTables(st: State): (r: State)
    requires HasSlots(st)
    ensures r.colorTables == []
    ensures r.names == st.names
    ensures r.activeContinuous == st.activeContinuous && r.activeDiscrete == st.activeDiscrete
    ensures SelectsExactly(st, r, {ColorTablesSlot})
  {
    Select(st.(colorTables := []), ColorTablesSlot)
  }

  /** Out of range: nothing changes, not even a flag. */
  function RemoveColorTables(st: State, index: int): (r: State)
    requires HasSlots(st)
    ensures 0 <= index < |st.colorTables| ==>
      && r.colorTables == RemoveAt(st.colorTables, index)
      && r.names == st.names
      && r.activeContinuous == st.activeContinuous && r.activeDiscrete == st.activeDiscrete
      && SelectsExactly(st, r, {ColorTablesSlot})
    ensures !(0 <= index < |st.colorTables|) ==> r == st
  {
    if 0 <= index < |st.colorTables| then
      Select(st.(colorTables := RemoveAt(st.colorTables, index)), ColorTablesSlot)
    else
      st
  }

  // ----- the keyed-collection operations -----

  /** Appends the pair; an existing equal name is not looked for. */
  function AddColorTable(st: State, name: string, c: ColorControlPointList): (r: State)
    requires HasSlots(st)
    ensures r.names == st.names + [name]
    ensures r.colorTables == st.colorTables + [c]
    ensures r.activeContinuous == st.activeContinuous && r.activeDiscrete == st.activeDiscrete
    ensures SelectsExactly(st, r, {NamesSlot, ColorTablesSlot})
  {
    AddColorTables(Select(st.(names := st.names + [name]), NamesSlot), c)
  }

  /**
   * RemoveColorTable(int), step by step as the Java method runs: remove the name, remove
   * the color table at the same index (when colorTables is long enough), then re-select each
   * active selector that named the removed entry.
   */
  function RemoveColorTableAt(st: State, index: int): (r: State)
    requires HasSlots(st)
    ensures HasSlots(r) && |r.selected| == |st.selected|
  {
    if 0 <= index < |st.names| then
      var nameAt := st.names[index];
      var s1 := Select(st.(names := RemoveAt(st.names, index)), NamesSlot);
      var s2 := RemoveColorTables(s1, index);
      var s3 := if nameAt == st.activeContinuous then SetActiveContinuous(s2, FirstOrEmpty(s2.names)) else s2;
      if nameAt == st.activeDiscrete then SetActiveDiscrete(s3, FirstOrEmpty(s3.names)) else s3
    else
      st
  }

  /** RemoveColorTable(String): look the name up, then remove by index. */
  function RemoveColorTable(st: State, name: string): (r: State)
    requires HasSlots(st)
    ensures HasSlots(r) && |r.selected| == |st.selected|
  {
    RemoveColorTableAt(st, FirstIndex(st.names, name))
  }

  /** The copy constructor: equal fields, a fresh set of four flags, all selected. */
  function Copy(st: State): (r: State)
    ensures SameFields(r, st)
    ensures |r.selected| == NumSlots && forall k :: 0 <= k < NumSlots ==> r.selected[k]
  {
    st.(selected := seq(NumSlots, _ => true))
  }

  // ----- lemmas -----

  /** AddColorTable keeps the vectors aligned and every valid selector valid. */
  lemma AddPreservesInvariants(st: State, name: string, c: ColorControlPointList)
    requires HasSlots(st)
    ensures Aligned(st) ==> Aligned(AddColorTable(st, name, c))
    ensures SelectorsValid(st) ==> SelectorsValid(AddColorTable(st, name, c))
  {
  }

  /**
   * Adding a name that is already present is accepted: the vectors grow, and a lookup
   * by that name still finds the older entry, so the new payload is not reachable by name.
   */
  lemma AddDuplicateIsShadowed(st: State, name: string, c: ColorControlPointList)
    requires HasSlots(st) && name in st.names
    ensures var r := AddColorTable(st, name, c);
      && |r.names| == |st.names| + 1
      && FirstIndex(r.names, name) == FirstIndex(st.names, name) < |st.names|
  {
    var r := AddColorTable(st, name, c);
    var i := FirstIndex(st.names, name);
    assert r.names[i] == name;
  }

  /** Removing at an index outside names changes no field and no flag. */
  lemma RemoveOutOfRangeIsNoOp(st: State, index: int)
    requires HasSlots(st) && !(0 <= index < |st.names|)
    ensures RemoveColorTableAt(st, index) == st
  {
  }

  /** Removing a name that is not present changes no field and no flag. */
  lemma RemoveAbsentNameIsNoOp(st: State, name: string)
    requires HasSlots(st) && name !in st.names
    ensures RemoveColorTable(st, name) == st
  {
  }

  /** In range on aligned vectors: the pair at index goes from both, order and alignment kept. */
  lemma RemoveInRange(st: State, index: int)
    requires HasSlots(st) && Aligned(st) && 0 <= index < |st.names|
    ensures var r := RemoveColorTableAt(st, index);
      && r.names == RemoveAt(st.names, index)
      && r.colorTables == RemoveAt(st.colorTables, index)
      && Aligned(r)
      && r.selected[NamesSlot] && r.selected[ColorTablesSlot]
  {
  }

  /**
   * The net effect of an in-range removal on the selectors and flags: a selector that named
   * the removed entry becomes the new first name (or ""), any other is untouched; slot 0 is
   * selected, slot 1 when a color table was removed, slot 2 or 3 when its selector moved.
   */
  lemma RemoveReselectsActive(st: State, index: int)
    requires HasSlots(st) && 0 <= index < |st.names|
    ensures var r := RemoveColorTableAt(st, index);
      var nameAt := st.names[index];
      && r.names == RemoveAt(st.names, index)
      && r.colorTables == (if index < |st.colorTables| then RemoveAt(st.colorTables, index) else st.colorTables)
      && r.activeContinuous == (if nameAt == st.activeContinuous then FirstOrEmpty(r.names) else st.activeContinuous)
      && r.activeDiscrete == (if nameAt == st.activeDiscrete then FirstOrEmpty(r.names) else st.activeDiscrete)
      && SelectsExactly(st, r,
           {NamesSlot}
           + (if index < |st.colorTables| then {ColorTablesSlot} else {})
           + (if nameAt == st.activeContinuous then {ActiveContinuousSlot} else {})
           + (if nameAt == st.activeDiscrete then {ActiveDiscreteSlot} else {}))
  {
  }

  /** A selector that did not name the removed entry is still present after the removal. */
  lemma SelectorSurvivesRemoval(names: seq<string>, index: nat, selector: string)
    requires index < |names| && selector in names && selector != names[index]
    ensures selector in RemoveAt(names, index)
  {
    var j :| 0 <= j < |names| && names[j] == selector;
    var r := RemoveAt(names, index);
    if j < index {
      assert r[j] == selector;
    } else {
      assert r[j - 1] == selector;
    }
  }

  /** Removal by index keeps every valid selector valid. */
  lemma RemoveAtPreservesSelectors(st: State, index: int)
    requires HasSlots(st) && SelectorsValid(st)
    ensures SelectorsValid(RemoveColorTableAt(st, index))
  {
    if 0 <= index < |st.names| {
      RemoveReselectsActive(st, index);
      var nameAt := st.names[index];
      if st.activeContinuous != nameAt && st.activeContinuous != "" {
        SelectorSurvivesRemoval(st.names, index, st.activeContinuous);
      }
      if st.activeDiscrete != nameAt && st.activeDiscrete != "" {
        SelectorSurvivesRemoval(st.names, index, st.activeDiscrete);
      }
    }
  }

  /** Removal by name keeps the vectors aligned and every valid selector valid. */
  lemma RemovePreservesInvariants(st: State, name: string)
    requires HasSlots(st)
    ensures Aligned(st) ==> Aligned(RemoveColorTable(st, name))
    ensures SelectorsValid(st) ==> SelectorsValid(RemoveColorTable(st, name))
  {
    var index := FirstIndex(st.names, name);
    if Aligned(st) && 0 <= index {
      RemoveInRange(st, index);
    }
    if SelectorsValid(st) {
      RemoveAtPreservesSelectors(st, index);
    }
  }

  /** Removing the only entry of a state with valid selectors leaves both selectors empty. */
  lemma RemoveLastEntryClearsSelectors(st: State)
    requires HasSlots(st) && SelectorsValid(st) && |st.names| == 1
    ensures var r := RemoveColorTableAt(st, 0);
      r.names == [] && r.activeContinuous == "" && r.activeDiscrete == ""
  {
    RemoveReselectsActive(st, 0);
  }

  /**
   * With names ["hot", "levels"] and both selectors "hot", removing "hot" moves both
   * selectors to "levels" and selects slots 2 and 3.
   */
  lemma RemoveHotSelectsLevels(hot: ColorControlPointList, levels: ColorControlPointList)
    ensures var st := State(["hot", "levels"], [hot, levels], "hot", "hot", [false, false, false, false]);
      var r := RemoveColorTable(st, "hot");
      && r.names == ["levels"] && r.colorTables == [levels]
      && r.activeContinuous == "levels" && r.activeDiscrete == "levels"
      && r.selected == [true, true, true, true]
  {
    var st := State(["hot", "levels"], [hot, levels], "hot", "hot", [false, false, false, false]);
    assert FirstIndex(st.names, "hot") == 0;
    RemoveReselectsActive(st, 0);
  }
}
