# ColorTableAttributes, modelled in Dafny

`ColorTableAttributes` is the registry of named color tables. It holds two parallel vectors:
`names` (strings) and `colorTables` (`ColorControlPointList` payloads). It also holds two
active selectors, `activeContinuous` and `activeDiscrete`. Its `AttributeSubject` base keeps
one dirty flag per slot: slot 0 is names, slot 1 is colorTables, slot 2 is activeContinuous
and slot 3 is activeDiscrete. Every setter selects its slot. `WriteAtts` sends only the
selected slots, and `ReadAtts(i, buf)` applies the value of slot `i` on the receiving side.

The project has these files:

- `attributes.dfy` (module `Attributes`) holds the class `ColorTableAttributes`. Its fields
  are the Java fields as `seq`s and strings, plus the base's flags as `selected: seq<bool>`.
  Its methods update those fields in place, with the Java loops kept as `while` loops. Most
  mutating methods state their new state as `Value() == Registry.Op(old(Value()), …)`. The
  exceptions are these: `ReadAtts` and `ReadColorTables` are stated against the
  `RegistryCodec` functions of the same names, together with the unread tokens.
  `FillColorTables` states only `colorTables` and the buffer. `Select` and `SelectAll` state
  only `selected`, and `WriteAtts` and `WriteSlot` state the tokens they append.
- `registry.dfy` (module `Registry`) holds the state as a value, `State`. It has one function
  per mutating operation. Its lemmas state what the operations promise: the two vectors stay
  aligned, selectors stay valid, each setter has a frame, lookup finds the first match, and
  removal re-selects the active entry.
- `codec.dfy` (module `RegistryCodec`) describes what `WriteAtts` emits and what `ReadAtts`
  consumes, as functions over a token stream. It proves the round trips.
- `buffer.dfy` (module `Buffers`) holds `CommunicationBuffer` as a token sequence with a read
  cursor. Each primitive write appends one token and each primitive read consumes one. A read
  that finds no token of the expected kind returns `None` and consumes nothing. That `None`
  stands for the exception the Java buffer throws on a short or malformed message.
- `control_points.dfy` declares `ColorControlPointList` as an opaque type with equality.
- `wrappers.dfy` declares `Option`.

Java null returns become `None`. A Java exception during `ReadAtts` becomes `ok == false`, and
the state is left as far as the Java method got. In slot 1 that means the vector has been
cleared and the payloads read so far are kept. The two Java overloads get separate names:

| Java | Dafny |
|---|---|
| `RemoveColorTable(int)` | `RemoveColorTableAt` |
| `RemoveColorTable(String)` | `RemoveColorTable` |
| `GetColorControlPoints(int)` | `GetColorControlPointsAt` |
| `GetColorControlPoints(String)` | `GetColorControlPoints` |

A keyed collection of this kind would be expected to reject a duplicate name, to fail on
an unknown slot index, and to have valid selectors from construction on. The code does none
of these, and the model keeps the code's behaviour:

- `AddColorTable` does not reject a name that is already present. `AddDuplicateIsShadowed`
  shows that such an entry cannot be reached by name.
- `ReadAtts` ignores an index outside 0..3. It raises no error and consumes nothing.
- The default constructors set the selectors to "hot" and "levels" while `names` is empty.
  The selector invariant therefore does not hold at construction. It is stated as preserved
  whenever it holds before an operation.

## Model

| member | source | states |
|---|---|---|
| Attributes.ColorTableAttributes.constructor | src/java/ColorTableAttributes.java:62-70 | both vectors empty, selectors "hot" and "levels", four slot flags |
| Attributes.ColorTableAttributes.WithMoreFields | src/java/ColorTableAttributes.java:72-80 | the same fields as the default constructor, with 4 + nMoreFields slot flags |
| Attributes.ColorTableAttributes.Copy | src/java/ColorTableAttributes.java:82-104 | the copy has every field of the source and four flags, all selected; the two element-by-element copy loops are proved to rebuild the vectors |
| Registry.Copy | src/java/ColorTableAttributes.java:82-104 | the copy's fields equal the source's (SameFields, which is what equals compares), with exactly four flags, all true |
| Attributes.ColorTableAttributes.Equals | src/java/ColorTableAttributes.java:116-143 | true exactly when names are equal element by element and sizes match, colorTables likewise, and both selectors match; the flags are not compared |
| Attributes.ColorTableAttributes.SetNames | src/java/ColorTableAttributes.java:146-150 | the new state is Registry.SetNames of the old one |
| Registry.SetNames | src/java/ColorTableAttributes.java:146-150 | names replaced, colorTables and both selectors unchanged, exactly slot 0 newly selected |
| Attributes.ColorTableAttributes.SetActiveContinuous | src/java/ColorTableAttributes.java:152-156 | the new state is Registry.SetActiveContinuous of the old one |
| Registry.SetActiveContinuous | src/java/ColorTableAttributes.java:152-156 | activeContinuous replaced, every other field unchanged, exactly slot 2 newly selected |
| Attributes.ColorTableAttributes.SetActiveDiscrete | src/java/ColorTableAttributes.java:158-162 | the new state is Registry.SetActiveDiscrete of the old one |
| Registry.SetActiveDiscrete | src/java/ColorTableAttributes.java:158-162 | activeDiscrete replaced, every other field unchanged, exactly slot 3 newly selected |
| Registry.Select | src/java/ColorTableAttributes.java:149 | the base's Select(i), as the setters and list operations call it: every field kept, flag i set, every other flag kept |
| Attributes.ColorTableAttributes.Select | src/java/ColorTableAttributes.java:149 | the flags become the old flags with flag i set |
| Attributes.ColorTableAttributes.SelectAll | src/java/ColorTableAttributes.java:103 | every flag set, their number kept |
| Attributes.ColorTableAttributes.WriteSelect | src/java/ColorTableAttributes.java:173 | returns whether slot i is selected; when it is, the slot's index token is appended and nothing else |
| Attributes.ColorTableAttributes.WriteAtts | src/java/ColorTableAttributes.java:171-188 | appends exactly RegistryCodec.WriteAtts of the state and does not move the read cursor |
| Attributes.ColorTableAttributes.WriteSlot | src/java/ColorTableAttributes.java:175-183 | one branch of WriteAtts; for slot 1 the loop writes the count and then every payload in order |
| RegistryCodec.SlotPayload | src/java/ColorTableAttributes.java:174-187 | the value written for a slot: one token for slots 0, 2 and 3; for slot 1 the count token followed by one token per payload; nothing past slot 3 |
| RegistryCodec.WriteSlot | src/java/ColorTableAttributes.java:173-187 | non-empty exactly when slot i is selected; then the slot's index followed by its value |
| RegistryCodec.WriteAtts | src/java/ColorTableAttributes.java:171-188 | the message is empty exactly when no slot is selected; otherwise it starts with the index of a selected slot; its full shape is stated by WriteAttsEmitsSelectedSlots |
| RegistryCodec.WriteAttsEmitsSelectedSlots | src/java/ColorTableAttributes.java:171-188 | the message is the selected slots in ascending order, each framed by its index |
| RegistryCodec.SelectedSlots | src/java/ColorTableAttributes.java:173-186 | slot i is listed exactly when 0 <= i < 4 and i is selected; the list is strictly increasing |
| RegistryCodec.OnlyDiscreteSelected | src/java/ColorTableAttributes.java:171-188 | with only slot 3 selected, the message is its index and the discrete selector |
| Attributes.ColorTableAttributes.ReadAtts | src/java/ColorTableAttributes.java:190-217 | state, unread tokens and success are those of RegistryCodec.ReadAtts on the old state and old unread tokens |
| RegistryCodec.ReadAtts | src/java/ColorTableAttributes.java:190-217 | only the field of slot `index` may change; exactly slot `index` is newly selected when every read succeeded, none otherwise; an index outside 0..3 changes nothing and consumes nothing |
| Attributes.ColorTableAttributes.ReadColorTables | src/java/ColorTableAttributes.java:197-209 | case 1: the result is RegistryCodec.ReadColorTables on the old state and old unread tokens |
| RegistryCodec.ReadColorTables | src/java/ColorTableAttributes.java:197-209 | its own ensures bound the unread rest and keep names and both selectors, with exactly slot 1 newly selected on success and none on failure; its effect on colorTables is stated through SlotRoundTrip |
| RegistryCodec.TakePointLists | src/java/ColorTableAttributes.java:201-206 | the payloads the loop reads: when every read succeeds, exactly max(count, 0) of them |
| Attributes.ColorTableAttributes.FillColorTables | src/java/ColorTableAttributes.java:201-206 | the loop appends the payloads TakePointLists reads, leaves its rest unread, and fails where it fails |
| RegistryCodec.TakePointListsRest | src/java/ColorTableAttributes.java:201-206 | the loop reads from the front: what stays unread is a suffix of the input |
| RegistryCodec.PointListsRoundTrip | src/java/ColorTableAttributes.java:177-182 | reading |ps| payloads back from their tokens gives ps and leaves the rest |
| RegistryCodec.SlotRoundTrip | src/java/ColorTableAttributes.java:171-217 | reading back the value written for slot i restores that field from the writer, selects slot i and leaves the rest |
| RegistryCodec.FramesRoundTrip | src/java/ColorTableAttributes.java:171-217 | reading framed slots applies them one by one |
| RegistryCodec.MergeFields | src/java/ColorTableAttributes.java:190-217 | applying slots takes the writer's fields for those slots, keeps the others, and newly selects exactly those slots |
| RegistryCodec.WriteThenRead | src/java/ColorTableAttributes.java:171-217 | a receiver reading the message gets every selected field of the sender, keeps every other field, and newly selects exactly the sent slots |
| RegistryCodec.SelectAllRoundTrip | src/java/ColorTableAttributes.java:103 | after SelectAll (as at the end of the copy constructor) the message carries the whole state, and any receiver ends with the sender's fields |
| Attributes.ColorTableAttributes.AddColorTables | src/java/ColorTableAttributes.java:239-243 | the new state is Registry.AddColorTables of the old one |
| Registry.AddColorTables | src/java/ColorTableAttributes.java:239-243 | the payload is appended, the other fields are unchanged, exactly slot 1 is newly selected |
| Attributes.ColorTableAttributes.ClearColorTables | src/java/ColorTableAttributes.java:245-249 | the new state is Registry.ClearColorTables of the old one |
| Registry.ClearColorTables | src/java/ColorTableAttributes.java:245-249 | colorTables emptied, the other fields unchanged, exactly slot 1 newly selected |
| Attributes.ColorTableAttributes.RemoveColorTables | src/java/ColorTableAttributes.java:251-258 | the new state is Registry.RemoveColorTables of the old one |
| Registry.RemoveColorTables | src/java/ColorTableAttributes.java:251-258 | in range, the element goes, order is kept, the other fields are unchanged and exactly slot 1 is newly selected; out of range, the state is unchanged, flags included |
| Registry.RemoveAt | src/java/ColorTableAttributes.java:255 | Vector.remove: one element shorter, elements before i kept, elements after i shifted down by one |
| Attributes.ColorTableAttributes.GetColorTables | src/java/ColorTableAttributes.java:265-269 | the element at i |
| Attributes.ColorTableAttributes.GetColorTableIndex | src/java/ColorTableAttributes.java:272-286 | -1 exactly when the name is absent; otherwise the least index holding the name; equal to Registry.FirstIndex |
| Registry.FirstIndex | src/java/ColorTableAttributes.java:272-286 | -1 exactly when the name is absent; otherwise an index holding the name with no earlier match |
| Attributes.ColorTableAttributes.GetColorControlPointsAt | src/java/ColorTableAttributes.java:288-294 | Some exactly when the index is within colorTables, and then the element there |
| Attributes.ColorTableAttributes.GetColorControlPoints | src/java/ColorTableAttributes.java:296-303 | Some exactly when the name is present and its first index is within colorTables, and then the payload there |
| Attributes.ColorTableAttributes.GetActiveColorControlPoints | src/java/ColorTableAttributes.java:305-312 | the same lookup for activeContinuous; activeDiscrete is not consulted |
| Attributes.ColorTableAttributes.AddColorTable | src/java/ColorTableAttributes.java:314-319 | the new state is Registry.AddColorTable of the old one |
| Registry.AddColorTable | src/java/ColorTableAttributes.java:314-319 | name and payload appended, both selectors unchanged, exactly slots 0 and 1 newly selected |
| Registry.AddPreservesInvariants | src/java/ColorTableAttributes.java:314-319 | aligned vectors stay aligned and valid selectors stay valid |
| Registry.AddDuplicateIsShadowed | src/java/ColorTableAttributes.java:314-319 | adding a name already present grows the vectors, but lookup still finds the older entry |
| Attributes.ColorTableAttributes.RemoveColorTable | src/java/ColorTableAttributes.java:321-325 | the new state is Registry.RemoveColorTable of the old one, that is, removal at the first index of the name |
| Attributes.ColorTableAttributes.RemoveColorTableAt | src/java/ColorTableAttributes.java:327-365 | the new state is Registry.RemoveColorTableAt of the old one, step for step |
| Registry.RemoveColorTableAt | src/java/ColorTableAttributes.java:327-365 | the state after removal keeps the number of flags; its full effect is stated by RemoveOutOfRangeIsNoOp (out of range) and RemoveReselectsActive (in range) |
| Registry.RemoveColorTable | src/java/ColorTableAttributes.java:321-325 | removal at FirstIndex of the name; it keeps the number of flags |
| Registry.RemoveOutOfRangeIsNoOp | src/java/ColorTableAttributes.java:329 | an index outside names changes no field and no flag |
| Registry.RemoveAbsentNameIsNoOp | src/java/ColorTableAttributes.java:321-329 | removing an absent name changes no field and no flag |
| Registry.RemoveInRange | src/java/ColorTableAttributes.java:336-340 | on aligned vectors in range, the element at index goes from both vectors, order and alignment are kept, and slots 0 and 1 are selected |
| Registry.FirstOrEmpty | src/java/ColorTableAttributes.java:346-352 | the first name, or "" when names is empty, as the re-selection of either selector picks it |
| Registry.RemoveReselectsActive | src/java/ColorTableAttributes.java:331-363 | the name at index goes; the payload at index goes when colorTables is long enough and colorTables is unchanged otherwise; a selector that named the removed entry becomes the new first name or "", any other is untouched; exactly slots 0, 1 (when a payload was removed) and 2 or 3 (when that selector moved) are newly selected |
| Registry.SelectorSurvivesRemoval | src/java/ColorTableAttributes.java:336 | a name other than the removed one is still present afterwards |
| Registry.RemoveAtPreservesSelectors | src/java/ColorTableAttributes.java:327-365 | removal by index keeps valid selectors valid |
| Registry.RemovePreservesInvariants | src/java/ColorTableAttributes.java:321-365 | removal by name keeps aligned vectors aligned and valid selectors valid |
| Registry.RemoveLastEntryClearsSelectors | src/java/ColorTableAttributes.java:344-363 | removing the only entry, with valid selectors, leaves both selectors "" |
| Registry.RemoveHotSelectsLevels | src/java/ColorTableAttributes.java:321-365 | names ["hot", "levels"] with both selectors "hot": removing "hot" leaves ["levels"], both selectors "levels" and all four slots selected |
| Registry.SelectAll | src/java/ColorTableAttributes.java:103 | fields unchanged, every flag set |

## Left out

- Attributes.ColorTableAttributes.constructor: the initial values of the flags are not stated, only their number. `AttributeSubject`'s constructor is not part of this model.
- Attributes.ColorTableAttributes.WithMoreFields: `nMoreFields` is taken as a natural number. A negative value is not modelled. `Offset()` and `GetNumAdditionalAttributes()` belong to the subclassing arithmetic and are not modelled.
- Attributes.ColorTableAttributes.GetColorTables: throws outside the vector in Java. The model requires an index within the vector.
- `toString` is debug rendering through helpers that are not part of this model.
- `GetNumColorTables` and the four getters return a field. The fields are public in the model and are read directly.
- Java reference aliasing is not modelled. `SetNames` stores the caller's vector, and the getters return the live vectors. The model uses values, so a later change by the caller does not reach the object.
- `ColorControlPointList` internals (its `Write`, `Read`, `equals` and copy constructor) are not modelled. A payload is an opaque value with equality. Its deep copy is the same value, and its encoding is one token.
- The `CommunicationBuffer` byte format and `WriteSelect`'s framing belong to `AttributeSubject`, which is not part of this model. They are modelled as one index token ahead of each selected slot.
- `RegistryCodec.ReadMessage` is not in this class. It models the receiving loop of the base, which calls `ReadAtts` once per framing index, so that the whole-message round trip can be stated.
- `src/common/state/QueryList.h` holds declarations only and has no behaviour to model.
- Null arguments, transport, persistence and concurrency are not modelled.
