# Swimlane drag-and-drop core, in Dafny

This project models the logic inside a React Native swimlane (kanban) view component. The board is a grid of
sections (horizontal bands that can be collapsed) by columns. Each section is rendered as rows of cells, and the
user can long-press an item and drop it onto another cell. The model covers:

- **the grid projection**: `matrix` buckets the item list by section and column, and `computedData` turns the
  buckets into rows of optional cells (`max(1, tallest bucket) + emptyRows` rows in an expanded section, none in a
  collapsed one). `list` keeps the non-empty entries (`compactMap`), and `colMaxItems` finds the tallest bucket.
  These live in `grid.dfy` and `helper.dfy`;
- **the drag session** of `Swimlane`: a class (`swimlane.dfy`) holding the `_sections`/`_data` state, the offset and
  cursor values, the drag-origin and drop-target refs, and two frame registries. Its methods are the drag
  context's `startDrag`, `endDrag`, `move`, `onItemHover` and `onItemFrame`, plus `onSectionFrame`,
  `calcSectionHover`, `onSectionHeaderPress`, `savePosition` and the id stamping of new props;
- **each rendered row** of `SectionRow`: a class (`sectionrow.dfy`) holding the column-frame registry, the hovered
  cell and the first-measurement latch;
- **the props that connect them** (`wiring.dfy`): a row's measurement reaching `onSectionFrame`, the
  `cursorEntered` flag (the substring test the code uses) gating the hover search, and each cursor move
  re-running the section search.

The frame registries are JavaScript objects rebuilt with `{...obj, [k]: v}` and searched with lodash `find`.
`registry.dfy` models each one as an ordered list of key/entry pairs:

- string keys keep insertion order, and an overwrite stays in place (`Put`);
- integer-like keys iterate in ascending order (`PutAscending`);
- a search returns the first match in that order (`FindIndex`, `Find`).

The string keys `` `${section}-${row}` `` become the pair `RowKey(section, row)`. `keys.dfy` proves the rendering
is injective on natural numbers, so the pair is a faithful stand-in.

Item ids come from lodash `uniqueId`: a global counter that is incremented before use and rendered as a string.
Here an id is a `nat`, and the swimlane carries the counter as a field. Coordinates are only added and compared,
so they are `int`.

## Model

| member | source | states |
|---|---|---|
| Helper.CornersEntered | src/components/helper.ts:4-13 | all four corners of a rectangle with non-negative size are entered: both bounds are inclusive |
| Helper.JustOutsideNotEntered | src/components/helper.ts:4-13 | a point one unit outside any edge is not entered |
| Helper.NegativeSizeNeverEntered | src/components/helper.ts:5-12 | a rectangle with negative width or height contains no point |
| Helper.ColMaxPrefixSpec | src/components/helper.ts:18-35 | after the first n buckets the fold holds the largest length, the index is -1 iff the maximum is 0, and otherwise the index is the first bucket of maximal length (strict `>`) |
| Helper.ColMaxPrefixOnlyReadsPrefix | src/components/helper.ts:24-25 | the fold depends only on the lengths of the first n buckets |
| Helper.ColMaxOnlyReadsFirstRow | src/components/helper.ts:24-25 | colMaxItems depends only on the lengths of the first `columns.length` buckets of `matrix[0]` |
| Helper.ColMaxItems | src/components/helper.ts:15-42 | the loop returns the maximum bucket length over the columns (0 without columns), -1 iff that maximum is 0, else the smallest index with maximal length |
| Helper.SomesSpec | src/components/helper.ts:55-61 | keeping the present results loses nothing present, invents nothing, and never lengthens the list |
| Helper.CompactReducePrefix | src/components/helper.ts:55-61 | after k steps the reduce holds the non-falsy callback results for the first k elements, in order |
| Helper.CompactMapIsFilter | src/components/helper.ts:50-62 | compactMap is the list of present callback results in input order, no longer than the input |
| Helper.CompactMapOfNothing | src/components/helper.ts:55 | a null or undefined collection gives the empty list |
| Helper.Insert | src/components/Swimlane.tsx:167 | inserting at i <= length puts x at i and shifts the suffix by one; the length grows by one |
| Registry.FindIndex | src/components/Swimlane.tsx:306-309 | lodash find: the index found satisfies the predicate and no earlier entry does; a miss means no entry does |
| Registry.PutGet | src/components/Swimlane.tsx:297-300 | after a spread-write, the key holds the new entry and every other key reads as before |
| Registry.PutEntries | src/components/Swimlane.tsx:261-270 | a spread-write adds the new pair and keeps every pair stored under another key |
| Registry.PutKeys | src/components/Swimlane.tsx:297-300 | overwriting keeps the key order; a new key is appended at the end |
| Registry.PutUnique | src/components/Swimlane.tsx:297-300 | a spread-write never duplicates a key |
| Registry.PutAscendingOrdered | src/components/SectionRow.tsx:61-64 | writing an integer key keeps the registry in ascending key order |
| Registry.PutAscendingGet | src/components/SectionRow.tsx:61-64 | after writing integer key k, k holds the new entry and every other key reads as before |
| Registry.PutAscendingEntries | src/components/SectionRow.tsx:61-64 | an integer-key write adds the new pair and keeps every pair under another key |
| Keys.NatToStringInjective | src/components/Swimlane.tsx:299 | decimal rendering of naturals is injective |
| Keys.RowKeyStringInjective | src/components/Swimlane.tsx:299 | distinct (section, row) pairs render to distinct `${section}-${row}` keys |
| Keys.AsWrittenActivatesTwoRows | src/components/Swimlane.tsx:419-421 | with current row "1-12", the substring test activates both row (1,12) and row (1,1) |
| Keys.AsWrittenActivatesCurrentRow | src/components/Swimlane.tsx:419-421 | the substring test does activate the current row itself |
| Keys.CursorEnteredUnique | src/components/Swimlane.tsx:419-421 | the corrected equality test activates at most one row, and every row it activates the substring test activates too |
| Grid.Matrix | src/components/Swimlane.tsx:118-125 | one bucket list per section, each with one bucket per column |
| Grid.BucketMembers | src/components/Swimlane.tsx:120-123 | an item is in bucket (s,c) iff it is in the data with section s and column c |
| Grid.BucketAppend | src/components/Swimlane.tsx:120-123 | the filter distributes over concatenation, so buckets keep the list order |
| Grid.MatrixPlacesItemOnce | src/components/Swimlane.tsx:118-125 | an item with an in-range section and column is in exactly the bucket of its own section and column |
| Grid.ComputedRowCount | src/components/Swimlane.tsx:129-133 | a collapsed or unset section has no rows; an expanded one has max(1, tallest bucket) + emptyRows rows |
| Grid.ComputedSlots | src/components/Swimlane.tsx:134-148 | each entry keeps the section's title and index; each row has one slot per column, and slot (r,c) is the r-th item of bucket (s,c) or absent |
| Grid.ExpandedSectionShowsEveryItem | src/components/Swimlane.tsx:129-148 | every in-range item of an expanded section appears in some row, in its own column |
| Grid.SectionListIsComputedData | src/components/Swimlane.tsx:153-155 | `list` is computedData in section order, since every section has an entry |
| Grid.ToggleSectionSpec | src/components/Swimlane.tsx:353-360 | the toggle flips only section i's effective `expanded`, and keeps the count and the other sections |
| Grid.ToggleTwiceRestores | src/components/Swimlane.tsx:353-360 | toggling twice restores every section's effective `expanded`, title and index |
| Grid.StampedIdsFresh | src/components/Swimlane.tsx:374 | stamping gives distinct ids above the old counter and keeps every other field |
| Grid.IndexOfId | src/components/Swimlane.tsx:163 | findIndex: the index of the first item with the id, or -1 when there is none |
| Grid.FindById | src/components/Swimlane.tsx:162 | find: the item at findIndex's position, or nothing when findIndex is -1 |
| Grid.ReorderIsInsert | src/components/Swimlane.tsx:162-179 | with distinct ids, the reorder removes the dragged item, inserts its retargeted copy at the target's old index, and never inserts out of range |
| Grid.ReorderIsMove | src/components/Swimlane.tsx:162-179 | the reorder is a move of the dragged item from its index to the insertion index, and the moved copy takes the target's column and section |
| Grid.ReorderPermutation | src/components/Swimlane.tsx:162-179 | the new list has the same length and is the old multiset with the dragged item replaced by its moved copy |
| Grid.ReorderIdsDistinct | src/components/Swimlane.tsx:162-179 | a reorder keeps the ids distinct |
| Grid.ReorderKeepsOthers | src/components/Swimlane.tsx:166-177 | ignoring the dragged item, the list is unchanged: the other items keep their fields and relative order |
| Grid.ReorderMovedAt | src/components/Swimlane.tsx:163-179 | the moved copy ends up at the insertion index |
| Grid.ReorderUnknownTarget | src/components/Swimlane.tsx:163-164 | an unknown target id moves the item to the front |
| Grid.ReorderSelfDrop | src/components/Swimlane.tsx:163-179 | dropping onto its own id keeps the item's position and changes only its column and section |
| Grid.ReorderNextToTarget | src/components/Swimlane.tsx:163-167 | moving down lands just after the target; moving up lands just before it |
| Grid.ReorderDraggedAbsent | src/components/Swimlane.tsx:165 | the list is unchanged when the dragged id is not in it |
| Grid.StaleDragIsNoop | src/components/Swimlane.tsx:374 | an id from before the last re-stamp is absent, so a drag that carries it changes nothing |
| Grid.ReorderBuckets | src/components/Swimlane.tsx:162-179 | the moved item is in the target bucket and in no other bucket; buckets other than its source and target are unchanged |
| Grid.ExampleDrop | example/src/App.tsx:46-51 | on the example items, dragging `item 1` onto `item 3` gives item 2, item 3, moved item 1, item 4 |
| SwimlaneView.SectionRowHitBounds | src/components/Swimlane.tsx:308 | the section hit test excludes the top edge and includes the bottom edge |
| SwimlaneView.HoveredRowIsFirstHit | src/components/Swimlane.tsx:306-314 | the current row becomes the first registered row, in registration order, whose frame contains y; a miss keeps the old value |
| SwimlaneView.SaveEffectSpec | src/components/Swimlane.tsx:158-196 | savePosition changes nothing without both a target and drag info. Otherwise it clears the drag info, leaves the data alone when the dragged id is absent, and keeps ids distinct |
| SwimlaneView.Swimlane.constructor | src/components/Swimlane.tsx:91-115 | initial state: sections from props, no data, zero offsets and cursor, no target, no drag, empty registries |
| SwimlaneView.Swimlane.ReplaceProps | src/components/Swimlane.tsx:370-376 | the new data is the props' items stamped with ids counter+1, ..., counter+n in order, and the counter advances by n |
| SwimlaneView.Swimlane.StartDrag | src/components/Swimlane.tsx:233-236 | the drag-origin ref holds the given drag info |
| SwimlaneView.Swimlane.Move | src/components/Swimlane.tsx:247-253 | the offsets are the translation, and the cursor is translation plus start point |
| SwimlaneView.Swimlane.OnItemHover | src/components/Swimlane.tsx:254-258 | the target ref holds the hovered cell; the last hover wins |
| SwimlaneView.Swimlane.OnItemFrame | src/components/Swimlane.tsx:259-271 | writes the cell's entry under `${section}-${row}-${column}`, keeping the registry well keyed |
| SwimlaneView.Swimlane.OnSectionFrame | src/components/Swimlane.tsx:286-301 | records the frame under `${s}-${r}` only when row (s,r) exists in computedData, and otherwise leaves the registry unchanged |
| SwimlaneView.Swimlane.CalcSectionHover | src/components/Swimlane.tsx:304-314 | nothing changes without a drag; else the current row becomes the first row hit vertically, or stays as it was on a miss |
| SwimlaneView.Swimlane.SavePosition | src/components/Swimlane.tsx:158-196 | the data and drag info become the save effect of the old state; ids stay distinct |
| SwimlaneView.Swimlane.EndDrag | src/components/Swimlane.tsx:237-246 | saves, then zeroes the offsets, clears the current row and empties the section registry |
| SwimlaneView.Swimlane.OnSectionHeaderPress | src/components/Swimlane.tsx:353-360 | the sections become the toggle of section i |
| SectionRowView.ColumnHitIsHorizontalEntry | src/components/SectionRow.tsx:71 | the column hit test is the horizontal half of isPointEntered, inclusive at both edges |
| SectionRowView.HoverIsLowestHitColumn | src/components/SectionRow.tsx:67-79 | a miss clears the hover; a hit names the lowest column whose frame contains x |
| SectionRowView.LatchedStable | src/components/SectionRow.tsx:48-51 | once a non-zero height is latched, later measurements change neither ref |
| SectionRowView.LatchKeepsFirstNonZero | src/components/SectionRow.tsx:48-51 | from unlatched refs, the first measurement with non-zero height decides both refs |
| SectionRowView.SectionRow.constructor | src/components/SectionRow.tsx:35-40 | a mounted row starts with nothing hovered, no column frames and nothing latched |
| SectionRowView.SectionRow.OnMeasure | src/components/SectionRow.tsx:46-51 | the refs take the frame's height and y exactly when the latched height is null or 0 |
| SectionRowView.SectionRow.OnFrameChange | src/components/SectionRow.tsx:60-65 | column i's entry becomes `{columnId: i, frame}`, every other column reads as before, and the ascending order is kept |
| SectionRowView.SectionRow.SearchItemHover | src/components/SectionRow.tsx:67-79 | nothing changes unless the cursor is in the row; then the hover becomes the first column hit, or null on a miss |
| SectionRowView.SectionRow.OnCursorX | src/components/SectionRow.tsx:81-88 | a cursor x of 0 triggers no search; any other value runs searchItemHover |
| SectionRowView.SectionRow.FinishDragging | src/components/SectionRow.tsx:94-97 | the hover is null afterwards |
| SectionRowView.AtMostOneDropIn | src/components/SectionRow.tsx:117 | at most one column of a row has `canDropIn`, and it is the hovered one |
| SectionRowView.NoDropInWithoutHover | src/components/SectionRow.tsx:117 | with no hover, no column accepts a drop |
| Wiring.OneActiveRow | src/components/Swimlane.tsx:419-421 | corrected half of the finding: with the equality test at most one rendered row has `cursorEntered`, and that row also has it as written |
| Wiring.CurrentRowActive | src/components/Swimlane.tsx:419-421 | the row whose key is the current section row is entered under both the as-written and the corrected test |
| Wiring.MeasureRow | src/components/SectionRow.tsx:46-53 | a measurement latches the row's refs and records the frame in the swimlane's registry only if the row exists |
| Wiring.ReactToCursor | src/components/SectionRow.tsx:81-88 | a row searches for a hovered column exactly when its key is a substring of the current row's key (Swimlane.tsx:419) and the cursor x is non-zero; otherwise its hover is unchanged |
| Wiring.DragMove | src/components/Swimlane.tsx:345-347 | a move updates offsets and cursor, then the section search runs on the new cursor y |
| Wiring.NoActiveRowAfterEndDrag | src/components/Swimlane.tsx:243 | once the current row is cleared, no row counts as entered |

## Left out

- Rendering: the JSX of `Swimlane` and `SectionRow`, `SectionHeader`, the styles and the portal around the dragged copy are UI only.
- `DropInViewComponent.tsx` is not part of this model: it is a layout and animation wrapper that reads only its children and `onLayout`. No shown file calls the drag context's methods (`startDrag`, `move`, `onItemHover`, `onItemFrame`, `endDrag`); the model exposes them as methods a caller invokes, with the values that caller would pass as parameters.
- `LongPressButton.tsx` is not part of this model: it is a standalone gesture demo that the swimlane does not use.
- Reanimated worklets, `runOnJS` and the scroll handlers are plain fields and explicit method calls (`Wiring.DragMove`, `Wiring.ReactToCursor`). Cross-thread timing is not modelled.
- `horizontalOffset`/`verticalOffset` and `dragCursorInfo` are not modelled. They only pass values on to the rendered children, and `verticalOffset` is set there to `horizontalOffset`.
- React scheduling is not modelled: `setData`, `setSections` and `setCurrentSectionRow` assign at once, and no closure from an older render is kept. The `setVal`/`JSON.stringify` effect only copies `list` into render state.
- `measureLayout` and `onLayout` are asynchronous native calls. Only their callbacks are modelled, as methods that take a frame.
- `getRandom` (randomness) and `console.log` are left out.
- `Helper.Insert`: the `insert` helper that savePosition calls is not defined in helper.ts. The model assumes the usual splice, which puts the element at index i. Past the end the element is appended; `Grid.ReorderIsInsert` proves that case never arises when ids are distinct.
- `Grid.RowCount`, `SwimlaneView.Swimlane.constructor`: `emptyRows` is a `nat`. In the code it is any number, with default 1 when the prop is missing. `[...Array(rows)]` throws a RangeError when an expanded section's `max(1, tallest bucket) + emptyRows` is negative or not an integer. The restriction to non-negative integers rules that exception out, and the default of 1 is not modelled: the caller always passes a value.
- `SectionRowView.LatchAll`, `SectionRowView.LatchedStable`, `SectionRowView.LatchKeepsFirstNonZero`: the measure effect has an empty dependency list, so the callback runs at most once per mount. These lemmas also cover repeated measurements, which the code never produces; for one measurement they reduce to `Latch`.
- `Helper.ColMaxItems`, `Helper.ColMax`: require `matrix[0]` to have `columns.length` buckets. The source would throw otherwise; computedData always satisfies this.
- `SwimlaneView.Swimlane.OnItemFrame`: the `dropInViews` keys are triples of `int`. That their string form is injective is proved only for the `${section}-${row}` pairs.
- `SwimlaneView.Swimlane.EndDrag`: `targetPositionRef` is never cleared, in endDrag or anywhere else. A later drag that hovers no cell is therefore saved to the old target. The model keeps this: EndDrag does not modify the target.
- `SwimlaneView.Swimlane.OnSectionFrame`: `unmountSectionRow` has an empty body, so a missing row just returns.
- `SwimlaneView.Swimlane.StartDrag`: a second startDrag overwrites the first, with no guard against two drags.
- `DraggableContextInfo`, `types.ts` and the item payload are reduced to the fields the logic reads. `data` is a string.
- The `columns` prop is fixed for the life of the model; `sections` and `data` changes go through `ReplaceProps`.
- The code has no item-before/item-after anchors, no `onItemMoved` callback, no autoscroll and no no-op for a drop onto the origin cell; neither does the model.

## Findings

| source | as written | input that shows it | evidently intended | confidence | as-written member | corrected member |
|---|---|---|---|---|---|---|
| src/components/Swimlane.tsx:419-421 | `cursorEntered` is `currentSectionRow?.includes(key)`, a substring test | current row "1-12": row (1,1) with key "1-1" is also entered, so two rows search for a hovered column at once | the row is entered when its key equals the current row | not executed | Keys.AsWrittenActivatesTwoRows | Keys.CursorEnteredUnique |

The wiring (`Wiring.RowActive`, `Wiring.ReactToCursor`) keeps the test as written, so the model shows what the code does. The corrected test is `Wiring.RowActiveCorrected`, and `Wiring.OneActiveRow` proves it activates one row at most.
