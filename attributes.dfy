/**
 * The ColorTableAttributes class: the two parallel vectors and the two active selectors,
 * updated in place, with the dirty flags of its AttributeSubject base kept in `selected`.
 * Each mutating method is specified by the Registry (or RegistryCodec) function that gives
 * the state after it; the read-only methods state their results outright.
 */
module Attributes {
  import opened Wrappers
  import opened ControlPoints
  import opened Buffers
  import Registry
  import RegistryCodec

  class ColorTableAttributes {
    var names: seq<string>
    var colorTables: seq<ColorControlPointList>
    var activeContinuous: string
    var activeDiscrete: string
    /** The base's per-slot flags; Select(i) sets flag i. */
    var selected: seq<bool>

    ghost predicate Valid()
      reads this
    {
      |selected| >= Registry.NumSlots
    }

    /** The whole state as a value. */
    function Value(): Registry.State
      reads this
    {
      Registry.State(names, colorTables, activeContinuous, activeDiscrete, selected)
    }

    /** The default constructor: no entries, selectors "hot" and "levels". */
    constructor ()
      ensures Valid()
      ensures names == [] && colorTables == []
      ensures activeContinuous == "hot" && activeDiscrete == "levels"
      ensures |selected| == Registry.NumSlots
    {
      names, colorTables := [], [];
      activeContinuous, activeDiscrete := "hot", "levels";
      selected := seq(Registry.NumSlots, _ => false);
    }

    /** The constructor a subclass uses to reserve further slots after these four. */
    constructor WithMoreFields(nMoreFields: nat)
      ensures Valid()
      ensures names == [] && colorTables == []
      ensures activeContinuous == "hot" && activeDiscrete == "levels"
      ensures |selected| == Registry.NumSlots + nMoreFields
    {
      names, colorTables := [], [];
      activeContinuous, activeDiscrete := "hot", "levels";
      selected := seq(Registry.NumSlots + nMoreFields, _ => false);
    }

    /** The copy constructor: element-by-element copies, then every slot selected. */
    constructor Copy(obj: ColorTableAttributes)
      ensures Valid()
      ensures Value() == Registry.Copy(obj.Value())
    {
      var copiedNames: seq<string> := [];
      var i := 0;
      while i < |obj.names|
        invariant 0 <= i <= |obj.names|
        invariant copiedNames == obj.names[..i]
      {
        copiedNames := copiedNames + [obj.names[i]];
        i := i + 1;
      }
      var copiedTables: seq<ColorControlPointList> := [];
      i := 0;
      while i < |obj.colorTables|
        invariant 0 <= i <= |obj.colorTables|
        invariant copiedTables == obj.colorTables[..i]
      {
        copiedTables := copiedTables + [obj.colorTables[i]];
        i := i + 1;
      }
      names, colorTables := copiedNames, copiedTables;
      activeContinuous, activeDiscrete := obj.activeContinuous, obj.activeDiscrete;
      selected := seq(Registry.NumSlots, _ => false);
      new;
      SelectAll();
    }

    // ----- the AttributeSubject base, as far as this class uses it -----

    method Select(i: nat)
      requires Valid() && i < Registry.NumSlots
      modifies this`selected
      ensures Valid() && selected == old(selected)[i := true]
    {
      selected := selected[i := true];
    }

    method SelectAll()
      modifies this`selected
      ensures selected == seq(|old(selected)|, _ => true)
    {
      selected := seq(|selected|, _ => true);
    }

    /** Whether slot i is selected; if it is, its index goes into the buffer first. */
    method WriteSelect(i: nat, buf: CommunicationBuffer) returns (b: bool)
      requires Valid() && buf.Valid() && i < Registry.NumSlots
      modifies buf
      ensures buf.Valid() && buf.pos == old(buf.pos)
      ensures b == selected[i]
      ensures buf.tokens == old(buf.tokens) + if b then [SelectToken(i)] else []
    {
      b := selected[i];
      if b {
        buf.WriteSelectIndex(i);
      }
    }

    // ----- equality -----

    /** equals: both vectors element by element, then both selectors. */
    method Equals(obj: ColorTableAttributes) returns (r: bool)
      ensures r <==> Registry.SameFields(Value(), obj.Value())
    {
      var namesEqual := |obj.names| == |names|;
      var i := 0;
      while i < |names| && namesEqual
        invariant 0 <= i <= |names|
        invariant namesEqual <==> |obj.names| == |names| && names[..i] == obj.names[..i]
      {
        namesEqual := names[i] == obj.names[i];
        if namesEqual {
          assert names[..i + 1] == names[..i] + [names[i]];
          assert obj.names[..i + 1] == obj.names[..i] + [obj.names[i]];
        } else {
          assert names[..i + 1][i] != obj.names[..i + 1][i];
        }
        i := i + 1;
      }
      assert namesEqual ==> names[..i] == names && obj.names[..i] == obj.names;
      var tablesEqual := |obj.colorTables| == |colorTables|;
      i := 0;
      while i < |colorTables| && tablesEqual
        invariant 0 <= i <= |colorTables|
        invariant tablesEqual <==> |obj.colorTables| == |colorTables| && colorTables[..i] == obj.colorTables[..i]
      {
        tablesEqual := colorTables[i] == obj.colorTables[i];
        if tablesEqual {
          assert colorTables[..i + 1] == colorTables[..i] + [colorTables[i]];
          assert obj.colorTables[..i + 1] == obj.colorTables[..i] + [obj.colorTables[i]];
        } else {
          assert colorTables[..i + 1][i] != obj.colorTables[..i + 1][i];
        }
        i := i + 1;
      }
      assert tablesEqual ==> colorTables[..i] == colorTables && obj.colorTables[..i] == obj.colorTables;
      r := namesEqual && tablesEqual
        && activeContinuous == obj.activeContinuous
        && activeDiscrete == obj.activeDiscrete;
    }

    // ----- setters -----

    method SetNames(names': seq<string>)
      requires Valid()
      modifies this
      ensures Valid() && Value() == Registry.SetNames(old(Value()), names')
    {
      names := names';
      Select(Registry.NamesSlot);
    }

    method SetActiveContinuous(selector: string)
      requires Valid()
      modifies this
      ensures Valid() && Value() == Registry.SetActiveContinuous(old(Value()), selector)
    {
      activeContinuous := selector;
      Select(Registry.ActiveContinuousSlot);
    }

    method SetActiveDiscrete(selector: string)
      requires Valid()
      modifies this
      ensures Valid() && Value() == Registry.SetActiveDiscrete(old(Value()), selector)
    {
      activeDiscrete := selector;
      Select(Registry.ActiveDiscreteSlot);
    }

    // ----- writing and reading -----

    /** Appends the selected slots, in ascending order, to the buffer. */
    method WriteAtts(buf: CommunicationBuffer)
      requires Valid() && buf.Valid()
      modifies buf
      ensures buf.Valid() && buf.pos == old(buf.pos)
      ensures buf.tokens == old(buf.tokens) + RegistryCodec.WriteAtts(Value())
    {
      ghost var st := Value();
      ghost var t0 := buf.tokens;
      WriteSlot(Registry.NamesSlot, buf);
      WriteSlot(Registry.ColorTablesSlot, buf);
      WriteSlot(Registry.ActiveContinuousSlot, buf);
      WriteSlot(Registry.ActiveDiscreteSlot, buf);
      ConcatAssoc(t0, RegistryCodec.WriteSlot(st, 0), RegistryCodec.WriteSlot(st, 1),
        RegistryCodec.WriteSlot(st, 2), RegistryCodec.WriteSlot(st, 3));
    }

    /** One `if(WriteSelect(i, buf)) ...` branch of WriteAtts. */
    method WriteSlot(i: nat, buf: CommunicationBuffer)
      requires Valid() && buf.Valid() && i < Registry.NumSlots
      modifies buf
      ensures buf.Valid() && buf.pos == old(buf.pos)
      ensures buf.tokens == old(buf.tokens) + RegistryCodec.WriteSlot(Value(), i)
    {
      ghost var st := Value();
      ghost var start := buf.tokens;
      var w := WriteSelect(i, buf);
      if !w {
        assert RegistryCodec.WriteSlot(st, i) == [];
        return;
      }
      ghost var framed := buf.tokens;
      assert framed == start + [SelectToken(i)];
      if i == Registry.NamesSlot {
        buf.WriteStringVector(names);
        assert RegistryCodec.SlotPayload(st, i) == [StringVectorToken(names)];
      } else if i == Registry.ColorTablesSlot {
        buf.WriteInt(|colorTables|);
        ghost var header := buf.tokens;
        var k := 0;
        while k < |colorTables|
          invariant 0 <= k <= |colorTables|
          invariant buf.Valid() && buf.pos == old(buf.pos)
          invariant buf.tokens == header + RegistryCodec.PointListTokens(colorTables[..k])
        {
          buf.WriteColorControlPointList(colorTables[k]);
          PointListTokensAppend(colorTables[..k], colorTables[k]);
          assert colorTables[..k + 1] == colorTables[..k] + [colorTables[k]];
          k := k + 1;
        }
        assert colorTables[..k] == colorTables;
        assert RegistryCodec.SlotPayload(st, i) == [IntToken(|colorTables|)] + RegistryCodec.PointListTokens(colorTables);
      } else if i == Registry.ActiveContinuousSlot {
        buf.WriteString(activeContinuous);
        assert RegistryCodec.SlotPayload(st, i) == [StringToken(activeContinuous)];
      } else {
        buf.WriteString(activeDiscrete);
        assert RegistryCodec.SlotPayload(st, i) == [StringToken(activeDiscrete)];
      }
      assert buf.tokens == framed + RegistryCodec.SlotPayload(st, i);
      assert RegistryCodec.WriteSlot(st, i) == [SelectToken(i)] + RegistryCodec.SlotPayload(st, i);
    }

    /**
     * Reads the value of slot `index` from the buffer and applies it. `ok` is false where a
     * read failed (the Java buffer would throw); the state is then left as far as it got.
     * An index outside 0..3 is ignored.
     */
    method ReadAtts(index: int, buf: CommunicationBuffer) returns (ok: bool)
      requires Valid() && buf.Valid()
      modifies this, buf
      ensures Valid() && buf.Valid() && buf.tokens == old(buf.tokens)
      ensures var r := RegistryCodec.ReadAtts(old(Value()), index, old(buf.Unread()));
        Value() == r.state && buf.Unread() == r.rest && ok == r.ok
    {
      ok := true;
      if index == Registry.NamesSlot {
        var v := buf.ReadStringVector();
        if v.None? {
          return false;
        }
        SetNames(v.value);
      } else if index == Registry.ColorTablesSlot {
        ok := ReadColorTables(buf);
      } else if index == Registry.ActiveContinuousSlot {
        var s := buf.ReadString();
        if s.None? {
          return false;
        }
        SetActiveContinuous(s.value);
      } else if index == Registry.ActiveDiscreteSlot {
        var s := buf.ReadString();
        if s.None? {
          return false;
        }
        SetActiveDiscrete(s.value);
      }
    }

    /** Case 1 of ReadAtts: a count, then the vector is cleared and refilled payload by payload. */
    method ReadColorTables(buf: CommunicationBuffer) returns (ok: bool)
      requires Valid() && buf.Valid()
      modifies this, buf
      ensures Valid() && buf.Valid() && buf.tokens == old(buf.tokens)
      ensures var r := RegistryCodec.ReadColorTables(old(Value()), old(buf.Unread()));
        Value() == r.state && buf.Unread() == r.rest && ok == r.ok
    {
      var len := buf.ReadInt();
      if len.None? {
        return false;
      }
      colorTables := [];
      ok := FillColorTables(buf, len.value);
      if ok {
        Select(Registry.ColorTablesSlot);
      }
    }

    /** The loop of case 1: up to `count` payloads appended, stopping at a failed read. */
    method FillColorTables(buf: CommunicationBuffer, count: int) returns (ok: bool)
      requires buf.Valid()
      modifies this`colorTables, buf
      ensures buf.Valid() && buf.tokens == old(buf.tokens)
      ensures var lists := RegistryCodec.TakePointLists(old(buf.Unread()), count);
        colorTables == old(colorTables) + lists.values && buf.Unread() == lists.rest && ok == lists.ok
    {
      ghost var start := buf.Unread();
      ghost var whole := RegistryCodec.TakePointLists(start, count);
      ghost var acc: seq<ColorControlPointList> := [];
      var j := 0;
      while j < count
        invariant buf.Valid() && buf.tokens == old(buf.tokens)
        invariant colorTables == old(colorTables) + acc
        invariant whole == RegistryCodec.After(acc, RegistryCodec.TakePointLists(buf.Unread(), count - j))
        decreases count - j
      {
        ghost var here := buf.Unread();
        var tmp := buf.ReadColorControlPointList();
        if tmp.None? {
          RegistryCodec.TakePointListsStop(whole, acc, here, count - j);
          return false;
        }
        RegistryCodec.TakePointListsStep(whole, acc, here, tmp.value, buf.Unread(), count - j);
        colorTables := colorTables + [tmp.value];
        acc := acc + [tmp.value];
        j := j + 1;
      }
      RegistryCodec.TakePointListsStop(whole, acc, buf.Unread(), count - j);
      ok := true;
    }

    // ----- attribute-group operations on colorTables -----

    method AddColorTables(c: ColorControlPointList)
      requires Valid()
      modifies this
      ensures Valid() && Value() == Registry.AddColorTables(old(Value()), c)
    {
      colorTables := colorTables + [c];
      Select(Registry.ColorTablesSlot);
    }

    method ClearColorTables()
      requires Valid()
      modifies this
      ensures Valid() && Value() == Registry.ClearColorTables(old(Value()))
    {
      colorTables := [];
      Select(Registry.ColorTablesSlot);
    }

    method RemoveColorTables(index: int)
      requires Valid()
      modifies this
      ensures Valid() && Value() == Registry.RemoveColorTables(old(Value()), index)
    {
      if 0 <= index < |colorTables| {
        colorTables := Registry.RemoveAt(colorTables, index);
        Select(Registry.ColorTablesSlot);
      }
    }

    /** colorTables.elementAt(i), which throws outside the vector. */
    method GetColorTables(i: int) returns (c: ColorControlPointList)
      requires 0 <= i < |colorTables|
      ensures c == colorTables[i]
    {
      c := colorTables[i];
    }

    // ----- lookup -----

    /** The least index whose name equals `name`, or -1. */
    method GetColorTableIndex(name: string) returns (r: int)
      ensures r == Registry.FirstIndex(names, name)
      ensures r == -1 <==> name !in names
      ensures 0 <= r ==> r < |names| && names[r] == name && forall k :: 0 <= k < r ==> names[k] != name
    {
      r := -1;
      var i := 0;
      while i < |names|
        invariant 0 <= i <= |names|
        invariant forall k :: 0 <= k < i ==> names[k] != name
      {
        if names[i] == name {
          r := i;
          break;
        }
        i := i + 1;
      }
    }

    method GetColorControlPointsAt(index: int) returns (r: Option<ColorControlPointList>)
      ensures r.Some? <==> 0 <= index < |colorTables|
      ensures r.Some? ==> r.value == colorTables[index]
    {
      if 0 <= index < |colorTables| {
        r := Some(colorTables[index]);
      } else {
        r := None;
      }
    }

    /** The payload of the first entry named `name`; None when there is none or it has no payload. */
    method GetColorControlPoints(name: string) returns (r: Option<ColorControlPointList>)
      ensures r.Some? <==> name in names && Registry.FirstIndex(names, name) < |colorTables|
      ensures r.Some? ==> r.value == colorTables[Registry.FirstIndex(names, name)]
    {
      var index := GetColorTableIndex(name);
      if 0 <= index < |colorTables| {
        r := Some(colorTables[index]);
      } else {
        r := None;
      }
    }

    /** The payload of the entry activeContinuous names (activeDiscrete is not consulted). */
    method GetActiveColorControlPoints() returns (r: Option<ColorControlPointList>)
      ensures r.Some? <==> activeContinuous in names && Registry.FirstIndex(names, activeContinuous) < |colorTables|
      ensures r.Some? ==> r.value == colorTables[Registry.FirstIndex(names, activeContinuous)]
    {
      var index := GetColorTableIndex(activeContinuous);
      if 0 <= index < |colorTables| {
        r := Some(colorTables[index]);
      } else {
        r := None;
      }
    }

    // ----- the keyed collection -----

    method AddColorTable(name: string, c: ColorControlPointList)
      requires Valid()
      modifies this
      ensures Valid() && Value() == Registry.AddColorTable(old(Value()), name, c)
    {
      names := names + [name];
      Select(Registry.NamesSlot);
      AddColorTables(c);
    }

    method RemoveColorTable(name: string)
      requires Valid()
      modifies this
      ensures Valid() && Value() == Registry.RemoveColorTable(old(Value()), name)
    {
      var index := GetColorTableIndex(name);
      RemoveColorTableAt(index);
    }

    method RemoveColorTableAt(index: int)
      requires Valid()
      modifies this
      ensures Valid() && Value() == Registry.RemoveColorTableAt(old(Value()), index)
    {
      if 0 <= index < |names| {
        var nameAt := names[index];
        var isActiveContinuous := nameAt == activeContinuous;
        var isActiveDiscrete := nameAt == activeDiscrete;

        names := Registry.RemoveAt(names, index);
        Select(Registry.NamesSlot);

        RemoveColorTables(index);

        if isActiveContinuous {
          if |names| > 0 {
            SetActiveContinuous(names[0]);
          } else {
            SetActiveContinuous("");
          }
        }
        if isActiveDiscrete {
          if |names| > 0 {
            SetActiveDiscrete(names[0]);
          } else {
            SetActiveDiscrete("");
          }
        }
      }
    }
  }

  /** Regrouping the four slot messages behind the tokens already in the buffer. */
  lemma ConcatAssoc<T>(a: seq<T>, b: seq<T>, c: seq<T>, d: seq<T>, e: seq<T>)
    ensures a + (b + c + d + e) == a + b + c + d + e
  {
  }

  lemma {:induction false} PointListTokensAppend(ps: seq<ColorControlPointList>, p: ColorControlPointList)
    ensures RegistryCodec.PointListTokens(ps + [p]) == RegistryCodec.PointListTokens(ps) + [PointListToken(p)]
  {
    assert (ps + [p])[|ps|] == p;
  }
}
