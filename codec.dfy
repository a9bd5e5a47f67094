/**
 * What WriteAtts puts into a CommunicationBuffer and what ReadAtts takes out of it, as
 * functions of the registry state and the token stream. Slot i is framed by the index
 * token WriteSelect writes ahead of it; the slot values are: names as one string vector,
 * colorTables as a count followed by one entry per payload, each selector as a string.
 */
module RegistryCodec {
  import opened Wrappers
  import opened ControlPoints
  import opened Buffers
  import opened Registry

  // ----- writing -----

  function PointListTokens(ps: seq<ColorControlPointList>): (r: seq<Token>)
    ensures |r| == |ps| && forall k :: 0 <= k < |ps| ==> r[k] == PointListToken(ps[k])
  {
    seq(|ps|, k requires 0 <= k < |ps| => PointListToken(ps[k]))
  }

  /** The value of slot i, as the matching branch of WriteAtts writes it (none past slot 3). */
  function SlotPayload(st: State, i: nat): (r: seq<Token>)
    ensures i == ColorTablesSlot ==> |r| == 1 + |st.colorTables| && r[0] == IntToken(|st.colorTables|)
    ensures i < NumSlots && i != ColorTablesSlot ==> |r| == 1
    ensures NumSlots <= i ==> r == []
  {
    if i == NamesSlot then [StringVectorToken(st.names)]
    else if i == ColorTablesSlot then [IntToken(|st.colorTables|)] + PointListTokens(st.colorTables)
    else if i == ActiveContinuousSlot then [StringToken(st.activeContinuous)]
    else if i == ActiveDiscreteSlot then [StringToken(st.activeDiscrete)]
    else []
  }

  /** Slot i framed by its index, or nothing when the slot is not selected. */
  function WriteSlot(st: State, i: nat): (r: seq<Token>)
    requires HasSlots(st) && i < NumSlots
    ensures r != [] <==> st.selected[i]
    ensures r != [] ==> r[0] == SelectToken(i) && r[1..] == SlotPayload(st, i)
  {
    if st.selected[i] then [SelectToken(i)] + SlotPayload(st, i) else []
  }

  /** The tokens WriteAtts appends: slots 0, 1, 2 and 3 in that order, each only when selected. */
  function WriteAtts(st: State): (r: seq<Token>)
    requires HasSlots(st)
    ensures r == [] <==> forall k :: 0 <= k < NumSlots ==> !st.selected[k]
    ensures r != [] ==> r[0].SelectToken? && 0 <= r[0].index < NumSlots && st.selected[r[0].index]
  {
    WriteSlot(st, NamesSlot) + WriteSlot(st, ColorTablesSlot)
      + WriteSlot(st, ActiveContinuousSlot) + WriteSlot(st, ActiveDiscreteSlot)
  }

  /** Every entry is one of the four slots. */
  predicate ValidSlots(slots: seq<nat>) {
    forall k :: 0 <= k < |slots| ==> slots[k] < NumSlots
  }

  /** Slot i if it is selected, else nothing. */
  function IfSelected(st: State, i: nat): seq<nat>
    requires HasSlots(st) && i < NumSlots
  {
    if st.selected[i] then [i] else []
  }

  /** The selected slots among the four, in ascending order. */
  function SelectedSlots(st: State): (r: seq<nat>)
    requires HasSlots(st)
    ensures ValidSlots(r)
    ensures forall i :: i in r <==> 0 <= i < NumSlots && st.selected[i]
    ensures forall j, k :: 0 <= j < k < |r| ==> r[j] < r[k]
  {
    IfSelected(st, 0) + IfSelected(st, 1) + IfSelected(st, 2) + IfSelected(st, 3)
  }

  /** The framed slots of `slots`, one after the other. */
  function Frames(st: State, slots: seq<nat>): seq<Token>
    decreases |slots|
  {
    if slots == [] then [] else [SelectToken(slots[0])] + SlotPayload(st, slots[0]) + Frames(st, slots[1..])
  }

  // ----- reading -----

  /** Up to `count` payloads read one after the other, stopping at the first that fails. */
  datatype PointLists = PointLists(values: seq<ColorControlPointList>, rest: seq<Token>, ok: bool)

  function TakePointLists(input: seq<Token>, count: int): (r: PointLists)
    ensures r.ok ==> |r.values| == if count < 0 then 0 else count
    decreases |input|
  {
    if count <= 0 then PointLists([], input, true)
    else match TakePointList(input)
      case None => PointLists([], input, false)
      case Some(t) =>
        var more := TakePointLists(t.rest, count - 1);
        PointLists([t.value] + more.values, more.rest, more.ok)
  }

  /** The payloads are read from the front: what is left is a suffix of the input. */
  lemma {:induction false} TakePointListsRest(input: seq<Token>, count: int)
    ensures var r := TakePointLists(input, count);
      |r.rest| <= |input| && r.rest == input[|input| - |r.rest|..]
    decreases |input|
  {
    if count > 0 && TakePointList(input).Some? {
      TakePointListsRest(input[1..], count - 1);
    }
  }

  /** `lists` behind the payloads already in `done`. */
  function After(done: seq<ColorControlPointList>, lists: PointLists): PointLists {
    PointLists(done + lists.values, lists.rest, lists.ok)
  }

  /** One successful read of the loop of case 1, as TakePointLists sees it. */
  lemma TakePointListsStep(whole: PointLists, done: seq<ColorControlPointList>, input: seq<Token>,
                           v: ColorControlPointList, rest: seq<Token>, count: int)
    requires count > 0 && |input| > 0 && input[0] == PointListToken(v) && rest == input[1..]
    requires whole == After(done, TakePointLists(input, count))
    ensures whole == After(done + [v], TakePointLists(rest, count - 1))
  {
    var more := TakePointLists(rest, count - 1);
    assert done + ([v] + more.values) == (done + [v]) + more.values;
  }

  /** A failed read, or a loop that has run `count` times, ends the payloads. */
  lemma TakePointListsStop(whole: PointLists, done: seq<ColorControlPointList>, input: seq<Token>, count: int)
    requires count <= 0 || !(|input| > 0 && input[0].PointListToken?)
    requires whole == After(done, TakePointLists(input, count))
    ensures whole == PointLists(done, input, count <= 0)
  {
    assert done + [] == done;
  }

  /**
   * The state after ReadAtts(index, buf), the tokens left unread, and whether every read
   * succeeded. A failed read stops ReadAtts where it is: for slot 1 after the clear, the
   * payloads read so far stay and the slot is not selected. An index outside 0..3 is ignored.
   */
  datatype ReadResult = ReadResult(state: State, rest: seq<Token>, ok: bool)

  function ReadAtts(st: State, index: int, input: seq<Token>): (r: ReadResult)
    requires HasSlots(st)
    ensures |r.rest| <= |input|
    ensures index != NamesSlot ==> r.state.names == st.names
    ensures index != ColorTablesSlot ==> r.state.colorTables == st.colorTables
    ensures index != ActiveContinuousSlot ==> r.state.activeContinuous == st.activeContinuous
    ensures index != ActiveDiscreteSlot ==> r.state.activeDiscrete == st.activeDiscrete
    ensures SelectsExactly(st, r.state, if r.ok && 0 <= index < NumSlots then {index} else {})
    ensures !(0 <= index < NumSlots) ==> r == ReadResult(st, input, true)
  {
    if index == NamesSlot then
      match TakeStringVector(input)
      case None => ReadResult(st, input, false)
      case Some(t) => ReadResult(SetNames(st, t.value), t.rest, true)
    else if index == ColorTablesSlot then
      ReadColorTables(st, input)
    else if index == ActiveContinuousSlot then
      match TakeString(input)
      case None => ReadResult(st, input, false)
      case Some(t) => ReadResult(SetActiveContinuous(st, t.value), t.rest, true)
    else if index == ActiveDiscreteSlot then
      match TakeString(input)
      case None => ReadResult(st, input, false)
      case Some(t) => ReadResult(SetActiveDiscrete(st, t.value), t.rest, true)
    else
      ReadResult(st, input, true)
  }

  /** Case 1 of ReadAtts: the count, then the cleared vector refilled payload by payload. */
  function ReadColorTables(st: State, input: seq<Token>): (r: ReadResult)
    requires HasSlots(st)
    ensures |r.rest| <= |input|
    ensures r.state.names == st.names
    ensures r.state.activeContinuous == st.activeContinuous && r.state.activeDiscrete == st.activeDiscrete
    ensures SelectsExactly(st, r.state, if r.ok then {ColorTablesSlot} else {})
  {
    match TakeInt(input)
    case None => ReadResult(st, input, false)
    case Some(t) =>
      TakePointListsRest(t.rest, t.value);
      var lists := TakePointLists(t.rest, t.value);
      var cleared := st.(colorTables := lists.values);
      if lists.ok then ReadResult(Select(cleared, ColorTablesSlot), lists.rest, true)
      else ReadResult(cleared, lists.rest, false)
  }

  /**
   * The receiving side of one update message: for each framing index, ReadAtts of that
   * slot. The AttributeSubject driver that runs this loop is not part of this model.
   */
  function ReadMessage(st: State, input: seq<Token>): Option<State>
    requires HasSlots(st)
    decreases |input|
  {
    if input == [] then Some(st)
    else if !input[0].SelectToken? then None
    else
      var r := ReadAtts(st, input[0].index, input[1..]);
      if r.ok then ReadMessage(r.state, r.rest) else None
  }

  /**
   * Slot i of `from` installed in `into`, with slot i selected; a slot past the
   * four this class owns changes nothing, as ReadAtts ignores it.
   */
  function CopySlot(into: State, from: State, i: nat): (r: State)
    requires HasSlots(into)
    ensures HasSlots(r)
  {
    if i == NamesSlot then SetNames(into, from.names)
    else if i == ColorTablesSlot then Select(into.(colorTables := from.colorTables), ColorTablesSlot)
    else if i == ActiveContinuousSlot then SetActiveContinuous(into, from.activeContinuous)
    else if i == ActiveDiscreteSlot then SetActiveDiscrete(into, from.activeDiscrete)
    else into
  }

  function Merge(into: State, from: State, slots: seq<nat>): (r: State)
    requires HasSlots(into)
    ensures HasSlots(r)
    decreases |slots|
  {
    if slots == [] then into else Merge(CopySlot(into, from, slots[0]), from, slots[1..])
  }

  // ----- lemmas -----

  /** WriteAtts emits exactly the selected slots, in ascending order, each behind its index. */
  lemma WriteAttsEmitsSelectedSlots(st: State)
    requires HasSlots(st)
    ensures WriteAtts(st) == Frames(st, SelectedSlots(st))
  {
    var s0, s1, s2, s3 := IfSelected(st, 0), IfSelected(st, 1), IfSelected(st, 2), IfSelected(st, 3);
    FrameOfOne(st, 0);
    FrameOfOne(st, 1);
    FrameOfOne(st, 2);
    FrameOfOne(st, 3);
    FramesAppend(st, s0, s1);
    FramesAppend(st, s0 + s1, s2);
    FramesAppend(st, s0 + s1 + s2, s3);
  }

  lemma FrameOfOne(st: State, i: nat)
    requires HasSlots(st) && i < NumSlots
    ensures Frames(st, IfSelected(st, i)) == WriteSlot(st, i)
  {
    if st.selected[i] {
      assert Frames(st, [i]) == [SelectToken(i)] + SlotPayload(st, i) + Frames(st, []);
    }
  }

  lemma {:induction false} FramesAppend(st: State, a: seq<nat>, b: seq<nat>)
    ensures Frames(st, a + b) == Frames(st, a) + Frames(st, b)
    decreases |a|
  {
    if a == [] {
      assert a + b == b;
    } else {
      var ab := a + b;
      assert ab[0] == a[0] && ab[1..] == a[1..] + b;
      FramesAppend(st, a[1..], b);
      var head := [SelectToken(a[0])] + SlotPayload(st, a[0]);
      calc {
        Frames(st, ab);
        head + Frames(st, a[1..] + b);
        head + (Frames(st, a[1..]) + Frames(st, b));
        (head + Frames(st, a[1..])) + Frames(st, b);
        Frames(st, a) + Frames(st, b);
      }
    }
  }

  /** Only slot 3 selected: the message is its index and the discrete selector, nothing else. */
  lemma OnlyDiscreteSelected(st: State)
    requires HasSlots(st)
    requires !st.selected[0] && !st.selected[1] && !st.selected[2] && st.selected[3]
    ensures WriteAtts(st) == [SelectToken(ActiveDiscreteSlot), StringToken(st.activeDiscrete)]
  {
  }

  /** Reading back `count` payloads written one after the other gives those payloads. */
  lemma {:induction false} PointListsRoundTrip(ps: seq<ColorControlPointList>, rest: seq<Token>)
    ensures TakePointLists(PointListTokens(ps) + rest, |ps|) == PointLists(ps, rest, true)
  {
    if ps != [] {
      var input := PointListTokens(ps) + rest;
      assert PointListTokens(ps) == [PointListToken(ps[0])] + PointListTokens(ps[1..]);
      assert input == [PointListToken(ps[0])] + (PointListTokens(ps[1..]) + rest);
      PointListsRoundTrip(ps[1..], rest);
      assert [ps[0]] + ps[1..] == ps;
    }
  }

  /** Reading back the value written for slot i restores that field and selects slot i. */
  lemma SlotRoundTrip(into: State, from: State, i: nat, rest: seq<Token>)
    requires HasSlots(into)
    ensures ReadAtts(into, i, SlotPayload(from, i) + rest) == ReadResult(CopySlot(into, from, i), rest, true)
  {
    if i == ColorTablesSlot {
      var input := SlotPayload(from, i) + rest;
      assert input == [IntToken(|from.colorTables|)] + (PointListTokens(from.colorTables) + rest);
      PointListsRoundTrip(from.colorTables, rest);
    } else if i < NumSlots {
      assert (SlotPayload(from, i) + rest)[1..] == rest;
    } else {
      assert SlotPayload(from, i) + rest == rest;
    }
  }

  /** A non-empty run of frames starts with the first slot's index, then that slot's value. */
  lemma FramesHead(from: State, slots: seq<nat>, rest: seq<Token>)
    requires slots != []
    ensures var input := Frames(from, slots) + rest;
      && input[0] == SelectToken(slots[0])
      && input[1..] == SlotPayload(from, slots[0]) + (Frames(from, slots[1..]) + rest)
  {
    var head, payload, more := [SelectToken(slots[0])], SlotPayload(from, slots[0]), Frames(from, slots[1..]);
    assert Frames(from, slots) == head + payload + more;
    AppendAssoc(head, payload, more, rest);
    assert (head + (payload + (more + rest)))[1..] == payload + (more + rest);
  }

  lemma AppendAssoc<T>(a: seq<T>, b: seq<T>, c: seq<T>, d: seq<T>)
    ensures a + b + c + d == a + (b + (c + d))
  {
  }

  /** Reading framed slots applies them one by one. */
  lemma {:induction false} FramesRoundTrip(into: State, from: State, slots: seq<nat>, rest: seq<Token>)
    requires HasSlots(into)
    decreases |slots|
    ensures ReadMessage(into, Frames(from, slots) + rest) == ReadMessage(Merge(into, from, slots), rest)
  {
    if slots == [] {
      assert Frames(from, slots) + rest == rest;
    } else {
      var i := slots[0];
      var next := CopySlot(into, from, i);
      var tail := Frames(from, slots[1..]) + rest;
      var input := Frames(from, slots) + rest;
      FramesHead(from, slots, rest);
      SlotRoundTrip(into, from, i, tail);
      assert ReadMessage(into, input) == ReadMessage(next, tail);
      FramesRoundTrip(next, from, slots[1..], rest);
      assert Merge(into, from, slots) == Merge(next, from, slots[1..]);
    }
  }

  /** Merge installs the fields of the merged slots, keeps the others, selects exactly those slots. */
  lemma {:induction false} MergeFields(into: State, from: State, slots: seq<nat>)
    requires HasSlots(into) && ValidSlots(slots)
    decreases |slots|
    ensures var r := Merge(into, from, slots);
      && r.names == (if NamesSlot in slots then from.names else into.names)
      && r.colorTables == (if ColorTablesSlot in slots then from.colorTables else into.colorTables)
      && r.activeContinuous == (if ActiveContinuousSlot in slots then from.activeContinuous else into.activeContinuous)
      && r.activeDiscrete == (if ActiveDiscreteSlot in slots then from.activeDiscrete else into.activeDiscrete)
      && SelectsExactly(into, r, set i | i in slots)
  {
    if slots != [] {
      var next := CopySlot(into, from, slots[0]);
      CopySlotFields(into, from, slots[0]);
      MergeFields(next, from, slots[1..]);
      assert forall i :: i in slots <==> i == slots[0] || i in slots[1..];
    }
  }

  /** One slot copied: its field taken from `from`, the others kept, its flag set. */
  lemma CopySlotFields(into: State, from: State, i: nat)
    requires HasSlots(into) && i < NumSlots
    ensures var r := CopySlot(into, from, i);
      && r.names == (if i == NamesSlot then from.names else into.names)
      && r.colorTables == (if i == ColorTablesSlot then from.colorTables else into.colorTables)
      && r.activeContinuous == (if i == ActiveContinuousSlot then from.activeContinuous else into.activeContinuous)
      && r.activeDiscrete == (if i == ActiveDiscreteSlot then from.activeDiscrete else into.activeDiscrete)
      && SelectsExactly(into, r, {i})
  {
  }

  /**
   * Replica convergence: a receiver that reads the message WriteAtts produced takes
   * every selected field of the sender, keeps every other field, and selects exactly
   * the received slots.
   */
  lemma WriteThenRead(sender: State, receiver: State)
    requires HasSlots(sender) && HasSlots(receiver)
    ensures var r := ReadMessage(receiver, WriteAtts(sender));
      && r.Some?
      && r.value.names == (if sender.selected[NamesSlot] then sender.names else receiver.names)
      && r.value.colorTables == (if sender.selected[ColorTablesSlot] then sender.colorTables else receiver.colorTables)
      && r.value.activeContinuous == (if sender.selected[ActiveContinuousSlot] then sender.activeContinuous else receiver.activeContinuous)
      && r.value.activeDiscrete == (if sender.selected[ActiveDiscreteSlot] then sender.activeDiscrete else receiver.activeDiscrete)
      && SelectsExactly(receiver, r.value, set i | 0 <= i < NumSlots && sender.selected[i])
  {
    var slots := SelectedSlots(sender);
    WriteAttsEmitsSelectedSlots(sender);
    FramesRoundTrip(receiver, sender, slots, []);
    assert Frames(sender, slots) + [] == Frames(sender, slots);
    MergeFields(receiver, sender, slots);
    SelectedSlotsAsSet(sender);
  }

  lemma SelectedSlotsAsSet(st: State)
    requires HasSlots(st)
    ensures (set i | i in SelectedSlots(st)) == (set i | 0 <= i < NumSlots && st.selected[i])
  {
  }

  /** After SelectAll, the message carries the whole registry: any receiver ends up equal to it. */
  lemma SelectAllRoundTrip(sender: State, receiver: State)
    requires HasSlots(sender) && HasSlots(receiver)
    ensures var r := ReadMessage(receiver, WriteAtts(SelectAll(sender)));
      r.Some? && SameFields(r.value, sender)
  {
    WriteThenRead(SelectAll(sender), receiver);
  }
}
