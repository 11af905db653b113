# Sector table state core

A Dafny model of the state logic of the antenna-sector table component
(`src/components/TableComponent.jsx`). The component keeps an ordered list of
sector records (`dataSource`) and a key counter (`count`). It offers four
handlers: add a templated row, delete by key, save an edited row, and set the
`availabilityOfRet` flag from a drop-down menu. Every text cell of a row is an
`EditableCell`: a two-state session that switches between displaying and
editing, checks a `required` rule, and writes the value back through the save
handler.

Modules:

- `Records` (records.dfy): row keys, the record shape, partial rows spread over
  a record (`{...item, ...row}`), the decimal rendering of the counter, the
  seed rows, the menu keys.
- `Store` (store.dfy): the list operations as pure functions, the handlers as
  transitions of a `Table` value with the key invariant proved over any event
  sequence, the replace as the source writes it (see Findings), and the class
  `RecordStore` holding the two state cells, whose methods are tied to those
  functions.
- `Cell` (cell.dfy): the required rule, the row a cell commits, and the class
  `EditableCell` with `editing` and the form's working value.
- `Columns` (columns.dfy): the column list and the mapping that attaches edit
  behaviour to editable columns only.

Modelling choices:

- Keys are tagged, `StrKey(s) | NumKey(n)`. The seed rows carry the strings
  "0" and "1" and added rows carry the number `count`. JavaScript's `===` and
  `!==` never equate the two kinds, and tagged equality keeps that.
- `availabilityOfRet` is the enumeration `Yes | No`. The menu click takes the
  menu item's key and maps "yes" and "no" to it. Any other key is rejected
  (`NotInMenu`) and nothing is written. The source stores `e.key` unchecked;
  its menu offers only these two keys.
- The replace done by `handleSave` and `handleMenuClick` is guarded. A key
  that no row carries returns `NotFound` and leaves the list unchanged. The
  unguarded behaviour is modelled separately under Findings.
- The `required` rule rejects a missing value and the empty string only. A
  whitespace-only value passes, because the rule has no `whitespace` option.
  This follows the code.
- On a successful save the cell calls `toggleEdit` before `handleSave`, as the
  source does. So `editing` flips and the form value is reseeded from the
  record the cell was rendered with. If the row has meanwhile gone, the session
  still leaves edit mode and the store writes nothing (`RowGone`).
- The row a cell commits is the cell's whole rendered record with the edited
  field replaced, and the store writes it over the stored row whole
  (`Cell.CommitMerge`).
- Handlers run atomically, in order, on the current state. `Store.Step` and
  `Store.Run` state this, and each `RecordStore` method ensures its new state
  equals `Step` of its old state.

## Model

| member | source | states |
|---|---|---|
| `Records.SectorRecord.With` | src/components/TableComponent.jsx:47-50 | setting one text field gives that field the new value; the key, `availabilityOfRet` and every other text field keep their values |
| `Records.PatchOf` | src/components/TableComponent.jsx:47-50 | a record spread as an object keeps its key and its `availabilityOfRet` |
| `Records.SectorRecord.Get` | src/components/TableComponent.jsx:39 | `record[dataIndex]`: the value the record, seen as an object with every field present, holds under the field's name |
| `Records.PatchOfComplete` | src/components/TableComponent.jsx:98-119 | that object holds every text field, with the record's value; the record shape is fixed |
| `Records.Merge` | src/components/TableComponent.jsx:232-235 | `{...item, ...row}`: the key comes from `row`; every field present in `row` overrides; every absent field keeps `item`'s value |
| `Records.MergeComplete` | src/components/TableComponent.jsx:232-235 | spreading a complete record over any record yields exactly that record |
| `Records.DecimalString` | src/components/TableComponent.jsx:216-222 | `${count}` is a non-empty string of decimal digits with no leading zero |
| `Records.DecimalRoundTrip` | src/components/TableComponent.jsx:216-222 | reading the rendered counter back as a decimal number gives the counter |
| `Records.SeedRow` | src/components/TableComponent.jsx:99-118 | a seed row has the string key of its suffix, "32" antennas, Ret `No`, and "Test " plus the suffix in every other text field |
| `Records.Seed` | src/components/TableComponent.jsx:98-120 | the initial list is two rows keyed by the strings "0" and "1", in that order, both with Ret `No`, their sectors "Test 0" and "Test 1" |
| `Records.InitialCount` | src/components/TableComponent.jsx:122 | the counter starts at 2, the number of seed rows |
| `Records.NewRecord` | src/components/TableComponent.jsx:214-223 | the added row has the number key `count`, "32" antennas, Ret `No`, sector "Test  " (two spaces) plus the decimal counter, and "Test " plus the decimal counter in every other text field |
| `Records.ParseMenuKey` | src/components/TableComponent.jsx:93-96 | a menu key selects a value exactly when it is "yes" or "no" |
| `Records.MenuKeyRoundTrip` | src/components/TableComponent.jsx:93-96 | menu keys and enumerated values correspond one to one, in both directions |
| `Records.RetLabel` | src/components/TableComponent.jsx:188 | the cell shows "да" exactly for `Yes`, and "нет" for `No` |
| `Store.Without` | src/components/TableComponent.jsx:124-127 | a row is kept exactly when it is in the old list and its key differs from the deleted key; the list does not grow |
| `Store.WithoutConcat` | src/components/TableComponent.jsx:125 | the filter distributes over concatenation, so kept rows stay in their relative order |
| `Store.WithoutAbsent` | src/components/TableComponent.jsx:124-127 | deleting a key no row carries leaves the list unchanged, with no error |
| `Store.WithoutRemovesOne` | src/components/TableComponent.jsx:124-127 | with distinct keys, deleting row i's key gives exactly the list without row i, one shorter |
| `Store.WithoutIdempotent` | src/components/TableComponent.jsx:124-127 | deleting the same key twice equals deleting it once |
| `Store.WithoutUnique` | src/components/TableComponent.jsx:124-127 | deleting keeps the keys pairwise distinct |
| `Store.IndexOf` | src/components/TableComponent.jsx:230 | `findIndex` gives -1 exactly when no row has the key; otherwise the first index whose row has the key |
| `Store.IndexOfUnique` | src/components/TableComponent.jsx:230 | with distinct keys, the index found for row i's key is i |
| `Store.FindIndex` | src/components/TableComponent.jsx:131 | the search loop returns the index `findIndex` specifies |
| `Store.Appended` | src/components/TableComponent.jsx:213-224 | the old list is kept as a prefix and one row is appended at the end, with key `NumKey(count)`, `availabilityOfRet` `No` and `typeOfBSAntennas` "32" |
| `Store.Replaced` | src/components/TableComponent.jsx:228-237 | the replace fails with `NotFound` exactly when no row has `row.key`; otherwise the list keeps its length and every position keeps its key |
| `Store.ReplacedAt` | src/components/TableComponent.jsx:228-237 | with distinct keys, saving row i writes `{...item, ...row}` at i and leaves every other position unchanged; the key stays the same |
| `Store.ReplacedWithSelf` | src/components/TableComponent.jsx:228-237 | saving a row with its own values leaves the list unchanged |
| `Store.RetSet` | src/components/TableComponent.jsx:129-138 | a key outside the menu is rejected; otherwise the click fails exactly when no row has the record's key; on success the length and every key are kept |
| `Store.RetSetIsReplace` | src/components/TableComponent.jsx:129-138 | a menu click equals the save-replace with an object that holds only the key and `availabilityOfRet` |
| `Store.RetSetAt` | src/components/TableComponent.jsx:129-138 | with distinct keys, a click on row i changes only that row's `availabilityOfRet`, to the chosen value |
| `Store.Step` | src/components/TableComponent.jsx:124-237 | each handler as one atomic transition of `dataSource` and `count`: add raises the counter by one and the length by one; delete does not grow the list; save and menu click keep the length; no handler but add moves the counter |
| `Store.Run` | src/components/TableComponent.jsx:124-237 | handlers applied in the order issued; the counter never decreases |
| `Store.InitialInv` | src/components/TableComponent.jsx:98-122 | the initial table has distinct keys, with every numeric key below the counter |
| `Store.NextKeyFresh` | src/components/TableComponent.jsx:213-215 | in a valid table no row carries the key the next add hands out |
| `Store.StepInv` | src/components/TableComponent.jsx:122-237 | each of the four handlers keeps the keys distinct and below the counter |
| `Store.RunInv` | src/components/TableComponent.jsx:98-237 | any sequence of handler calls keeps that invariant |
| `Store.KeysAlwaysUnique` | src/components/TableComponent.jsx:98-226 | after any sequence of handler calls from the initial table, the keys are pairwise distinct |
| `Store.RunCount` | src/components/TableComponent.jsx:122-226 | the counter grows by exactly the number of adds; no other handler moves it |
| `Store.TwoAdds` | src/components/TableComponent.jsx:213-226 | two adds on the seed table give four rows keyed "0", "1", 2 and 3, in that order |
| `Store.DeleteSeed` | src/components/TableComponent.jsx:98-127 | deleting the string key "0" leaves only seed row "1"; deleting the number 0 deletes nothing |
| `Store.Splice` | src/components/TableComponent.jsx:232-235 | `splice(start, 1, x)` replaces position `start` when it is in range, and replaces the last element when `start` is -1 |
| `Store.SaveAsWritten` | src/components/TableComponent.jsx:228-237 | the unguarded save keeps the length of a non-empty list and turns an empty list into `[row]` |
| `Store.SaveAsWrittenAgrees` | src/components/TableComponent.jsx:228-237 | when the key is present, the unguarded and the guarded save agree |
| `Store.SaveAsWrittenClobbersLast` | src/components/TableComponent.jsx:230-235 | when the key is missing, the unguarded save drops the last row and puts `row` there, while the guarded save changes nothing |
| `Store.SaveAsWrittenExample` | src/components/TableComponent.jsx:230-235 | saving a row keyed 7 on the seed table with the unguarded save loses seed row "1" |
| `Store.RecordStore.constructor` | src/components/TableComponent.jsx:98-122 | the store starts with the two seed rows and counter 2, and is valid |
| `Store.RecordStore.HandleAdd` | src/components/TableComponent.jsx:213-226 | the new list is the old list plus the templated row for the old counter; the counter grows by one; validity is kept |
| `Store.RecordStore.HandleDelete` | src/components/TableComponent.jsx:124-127 | the new list is the old list filtered by key; the counter is unchanged; validity is kept |
| `Store.RecordStore.HandleSave` | src/components/TableComponent.jsx:228-237 | copies the list, finds the key and writes the merge there; reports whether the key was found; a missing key changes nothing; the counter is unchanged |
| `Store.RecordStore.HandleMenuClick` | src/components/TableComponent.jsx:129-138 | the new list is the result of `RetSet`, or the old list on rejection; the counter is unchanged |
| `Cell.ValidateFields` | src/components/TableComponent.jsx:66-71 | validation passes exactly when the value is present and non-empty; the values object then holds exactly the cell's field with that value |
| `Cell.CommitRow` | src/components/TableComponent.jsx:47-50 | the committed row carries the record's key and `availabilityOfRet` and every text field |
| `Cell.CommitMerge` | src/components/TableComponent.jsx:47-50 | merging the committed row over any stored row gives the rendered record with only the edited field changed |
| `Cell.CommitAt` | src/components/TableComponent.jsx:43-54 | a commit for row i's key writes the rendered record with the edited field at i; when the rendered record is current, only that field of row i changes |
| `Cell.EditableCell.constructor` | src/components/TableComponent.jsx:26 | a cell starts displaying, with no form value |
| `Cell.EditableCell.ToggleEdit` | src/components/TableComponent.jsx:36-41 | `editing` flips and the working value becomes the record's committed `record[dataIndex]` |
| `Cell.EditableCell.EnterValue` | src/components/TableComponent.jsx:73 | typing changes the working value only |
| `Cell.EditableCell.Receive` | src/components/TableComponent.jsx:252-257 | a new render gives the cell the current record and leaves its session state alone |
| `Cell.EditableCell.Save` | src/components/TableComponent.jsx:43-54 | an empty or missing value changes neither the cell nor the store; otherwise `editing` flips, the form is reseeded, and the store takes the handleSave step with `{...record, ...values}` |
| `Cell.Required` | src/components/TableComponent.jsx:66-71 | the `required: true` rule: a value passes exactly when it is present and at least one character long, so a whitespace-only value passes |
| `Cell.EditSeedRow` | src/components/TableComponent.jsx:36-54 | an edit of seed row "1": the empty value is refused (`Invalid`) and the table is unchanged; "North-32" is then `Committed` and the table becomes the seed with only row "1"'s sector replaced |
| `Columns.Bind` | src/components/TableComponent.jsx:246-260 | every column keeps its fields, and gains `onCell` exactly when it is editable |
| `Columns.DefaultColumns` | src/components/TableComponent.jsx:140-211 | the eight columns in display order; a column is editable exactly when it shows a text field |
| `Columns.OnCell` | src/components/TableComponent.jsx:252-258 | a cell gets props exactly in a bound column: its record, the column's `editable`, `dataIndex` and title |
| `Columns.EditBehaviourOnTextColumns` | src/components/TableComponent.jsx:140-211 | of the table's columns, exactly the six text columns carry edit behaviour, each text field has one, and their cells are marked editable |

## Left out

- Rendering: the JSX markup, the antd `Table`, `Form`, `Dropdown`, `Menu` and
  `Button` components, styling and layout. These are presentation and foreign
  library calls.
- Focus management through `useEffect` and `inputRef`. It is a DOM side effect.
- The asynchronous `validateFields` promise and the `console.log` of a failed
  save. Validation is a synchronous function, and a failure is the `Invalid`
  outcome.
- The form context shared by the cells of one row. Each `EditableCell` object
  is one independent session for one (row, field) pair. With a shared form,
  the values of two cells of one row edited at once depend on the library.
- React's re-render scheduling and closures that capture an old `dataSource`.
  Each handler is an atomic transition on the current state. A cell's
  `record` changes only through `Receive`.
- The validation message and the Russian display labels, apart from the
  yes/no label of the Ret cell and the column titles. They are presentation.
- The `dataSource.length >= 1` condition for showing the delete button. It is
  presentation and always holds while a row is shown.
- `count` as a JavaScript number: it is a `nat`, so precision loss above 2^53
  is not modelled. Far more adds than a user can make would be needed.
- `handleMenuClick` with a missing key as written: `splice(-1, 1, …)` would
  write an object that has only `availabilityOfRet` and no key. A `SectorRecord`
  cannot represent it. The model guards this case like the save.

## Findings

| source | as written | input that shows it | evidently intended | confidence | as-written member | corrected member |
|---|---|---|---|---|---|---|
| src/components/TableComponent.jsx:230-235 | `findIndex` returns -1 for a key no row carries; `splice(-1, 1, …)` then overwrites the last row with the saved row | the two seed rows and a saved row keyed 7: the result is seed row "0" followed by the saved row, and seed row "1" is gone (`Store.SaveAsWrittenExample`, `Store.SaveAsWrittenClobbersLast`) | a save for a missing key writes nothing | low, not executed; a cell only saves the row it was rendered with, so this needs a row to vanish during an edit | `Store.SaveAsWritten` | `Store.Replaced` |
