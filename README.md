# React spreadsheet app: the table and sheet bookkeeping in Dafny

This project models the in-memory state behind a browser grid of editable sheets. It
covers three pieces:

- **Table model** (`Table`, from `src/components/Spreadsheet.tsx`). It holds one
  sheet's row objects (`tableData`), the ordered column keys (`columnKeys`) and the
  display names (`columnNames`). It covers the handlers that derive columns from
  incoming rows, rename a header, edit a cell, add or delete a row, and add or delete
  a column. It also covers the header text shown for a column.
- **Sheet store** (`App`, from `src/App.tsx`). It holds the ordered sheets and the
  active index. Its handlers create a sheet from the template, delete the active
  sheet, write the table's rows back, select a sheet, and name the export file.
- **Tab list** (`Tabs`, from `src/components/TabBar.tsx`). It holds tabs keyed by a
  numeric id, the active id and the id being edited. Its handlers add, rename, close
  and click tabs.

Two helper modules support them. `Collections` gives JavaScript's `filter` by element
and by position. `Text` gives the decimal printing used in "Column n", "Sheet n" and
"sheet-n.json", with its inverse.

## How the state is represented

In the source, a row is an object, and arrays of rows copy references. The model
keeps that. `Table.RowData` is a class with a `cells` map. A table is a sequence of
such objects.

- The cell edit changes one row object in place. Every array holding that object
  sees the change.
- The add-column and delete-column handlers build fresh row objects through
  `Table.FreshRows`.

This sharing has a visible effect, shown by `App.TemplateEditReachesNewSheet`. The
store's template row object is reused by every new sheet. A cell edit changes that
object in place, so the edit appears in every sheet created afterwards. This holds
only while the edited sheet still holds the template's row object. After an
add-column or delete-column, that sheet's rows are fresh copies, and later edits to
them no longer reach the template.

The component state that the handlers overwrite becomes class fields:

- `Table.Spreadsheet` holds the table's state.
- `App.SheetStore` holds the sheets and the active index.
- `Tabs.TabBar` holds the tab list.

Each handler is a method whose `ensures` gives the whole new state in terms of the
old one. The values each handler computes with `map` or `filter` are functions:
`WithColumn`, `WithoutColumn`, `WithoutKey`, `WithoutIndex`, `Renamed` and
`WithoutId`. Lemmas state their properties.

The collision in add-column is exposed, not assumed away. The new key is
`"Column " + (count + 1)`. `Table.AddColumnDistinctIff` shows that distinct keys stay
distinct exactly when that key is new. `Table.AddColumnCollidesAfterDelete` replays a
collision from the template columns A, B, C:

1. Add a column. The new key is "Column 4".
2. Delete column "B".
3. Add a column again. The new key is "Column 4" a second time. It is appended twice,
   and the existing cells of that column are reset to "".

Every row's key set still equals the set of column keys, because that consistency is
stated over sets.

Some behaviours of the code are easy to misread, and the model keeps them as written:

- On new data, all display names are reset to "Column i+1" by position. Names given
  earlier are not kept.
- Deleting a column removes every occurrence of its key.
- Selecting a sheet has no range check. Only the indices of rendered buttons reach
  it.
- The handlers signal no errors. Deleting the last sheet is a silent no-op, and an
  unknown key in a cell edit adds that key to the row.

## Model

| member | source | states |
|---|---|---|
| `Collections.Filter` | src/components/Spreadsheet.tsx:135 | `filter` never yields more elements than its input has. |
| `Collections.FilterMembers` | src/components/Spreadsheet.tsx:135 | Survivors of `filter` are elements of the input that pass the predicate, and every passing element survives. |
| `Collections.FilterConcat` | src/components/TabBar.tsx:41 | Filtering a concatenation filters each part separately, so the relative order of the survivors is kept. |
| `Collections.FilterDropsOne` | src/components/TabBar.tsx:41 | When exactly one position fails the predicate, filtering removes exactly that position. |
| `Collections.FilterDistinct` | src/components/Spreadsheet.tsx:135 | Filtering a sequence without repetitions gives one without repetitions. |
| `Collections.WithoutIndex` | src/App.tsx:21 | Filtering by index drops exactly position `i` (`s[..i] + s[i+1..]`), or nothing when `i` is not a position. |
| `Text.NatToString` | src/components/Spreadsheet.tsx:116 | The decimal text of a number has at least one digit, only digits, and no leading zero unless it is 0. |
| `Text.ParseNatToString` | src/components/Spreadsheet.tsx:116 | Reading back the printed decimal text gives the number. |
| `Text.NatToStringInjective` | src/components/Spreadsheet.tsx:27 | Different numbers print differently. |
| `Table.ColumnLabel` | src/components/Spreadsheet.tsx:27 | The label is "Column " followed by the decimal text of n: digits with no leading zero that read back as n. |
| `Table.NextColumnKey` | src/components/Spreadsheet.tsx:116 | The new key is "Column " followed by the decimal text of the current column count plus one: digits with no leading zero that read back as that number. |
| `Table.ColumnLabelInjective` | src/components/Spreadsheet.tsx:27 | "Column m" and "Column n" are equal only when m = n, so default names by position are pairwise different. |
| `Table.WithColumn` | src/components/Spreadsheet.tsx:117 | Each row gains the new key with value ""; all its other cells and the row count are unchanged. |
| `Table.WithoutColumn` | src/components/Spreadsheet.tsx:136-140 | Each row loses exactly the key; every remaining cell keeps its value; the row count is unchanged. |
| `Table.WithoutKey` | src/components/Spreadsheet.tsx:135 | The remaining column keys are the old ones minus the deleted key, and they stay distinct if they were. |
| `Table.WithoutKeyKeepsOrder` | src/components/Spreadsheet.tsx:135 | Deleting a key from a concatenation deletes it from each part, so the remaining keys keep their order, even when keys repeat. |
| `Table.WithoutKeyRemovesPosition` | src/components/Spreadsheet.tsx:135 | With distinct keys, deleting a present key removes exactly its position and keeps the others in order. |
| `Table.AddColumnKeepsConsistent` | src/components/Spreadsheet.tsx:115-125 | If every row's key set equals the column keys, it still does after a column is added. |
| `Table.DeleteColumnKeepsConsistent` | src/components/Spreadsheet.tsx:134-147 | If every row's key set equals the column keys, it still does after a column is deleted. |
| `Table.AddColumnDistinctIff` | src/components/Spreadsheet.tsx:116-118 | Distinct column keys stay distinct after add-column if and only if the generated "Column n+1" is not already a key. |
| `Table.AddColumnCollidesAfterDelete` | src/components/Spreadsheet.tsx:115-125 | From columns A, B, C: add, delete "B", add again. The second add generates "Column 4" again, duplicates it, and resets that column's existing cells to "". |
| `Table.NamesUpToKeys` | src/components/Spreadsheet.tsx:25-28 | After the forEach has visited the first i positions, the name map has exactly the keys seen so far. |
| `Table.NamesUpToLabels` | src/components/Spreadsheet.tsx:25-28 | After the first i positions, a key whose last occurrence so far is at position p is named "Column p+1": a later occurrence overwrites an earlier one. |
| `Table.DefaultNames` | src/components/Spreadsheet.tsx:25-28 | The name map has exactly the given keys. The key at position i (its last occurrence) is named "Column i+1". |
| `Table.HeaderLabel` | src/components/Spreadsheet.tsx:68 | The header shows the display name when it is present and non-empty, otherwise the key, so it is never empty for a non-empty key. |
| `Table.RenamedHeaderLabel` | src/components/Spreadsheet.tsx:33-35 | After a rename, the header shows the new name, or the key if the new name is empty. |
| `Table.FreshRows` | src/components/Spreadsheet.tsx:136-140 | `map` over rows yields fresh, pairwise different row objects holding exactly the computed cells. |
| `Table.Spreadsheet.constructor` | src/components/Spreadsheet.tsx:17-19 | The table starts with the given row objects, no column keys and no names. |
| `Table.Spreadsheet.Derive` | src/components/Spreadsheet.tsx:21-31 | With rows present: keys become the first row's keys in enumeration order, and key i is named "Column i+1". Uniform rows are then consistent with the keys. With no rows, keys and names stay. The rows never change here. |
| `Table.Spreadsheet.RenameHeader` | src/components/Spreadsheet.tsx:33-35 | Only `columnNames[key]` changes; column keys, rows and cells are untouched. |
| `Table.Spreadsheet.EditCell` | src/components/Spreadsheet.tsx:84-89 | The row object at the index is changed in place: exactly that cell gets the value. No other cell, row, row count or column changes, and consistency is kept for an existing key. |
| `Table.Spreadsheet.AddRow` | src/components/Spreadsheet.tsx:105-113 | Exactly one fresh row is appended, mapping every column key to "". Existing rows are the same objects with the same cells, and consistency is kept. |
| `Table.Spreadsheet.AddColumn` | src/components/Spreadsheet.tsx:115-125 | Appends "Column n+1" to the keys and registers it as its own name. The rows become fresh copies with that key set to "", and consistency is kept. |
| `Table.Spreadsheet.DeleteRow` | src/components/Spreadsheet.tsx:127-132 | Splices out the row at the index, so the rows after it move down one position. An index past the end removes nothing. Columns and consistency are kept. |
| `Table.Spreadsheet.DeleteColumn` | src/components/Spreadsheet.tsx:134-147 | Removes every occurrence of the key from the keys, its name, and its cell in fresh copies of every row. Other cells are unchanged and consistency is kept. |
| `App.SheetStore.constructor` | src/App.tsx:6-10 | One sheet, the template with one row `{A:"", B:"", C:""}`, and it is active. |
| `App.SheetStore.NewSheet` | src/App.tsx:14-17 | Appends the template itself (the same row objects), and the active index becomes the old count, which is the new last index. |
| `App.SheetStore.DeleteSheet` | src/App.tsx:19-25 | No-op with one sheet. Otherwise removes exactly the active sheet, keeps the rest in order, and sets active to max(0, active-1). The store stays non-empty with a valid active index. |
| `App.SheetStore.Update` | src/App.tsx:27-31 | Replaces only the active sheet; the count and every other sheet are unchanged. |
| `App.SheetStore.Select` | src/App.tsx:59-62 | The active index becomes the chosen existing index; the sheets are unchanged. |
| `App.SheetStore.ExportFileName` | src/App.tsx:41 | The name is "sheet-" + digits + ".json". The digits have no leading zero and read back as the 1-based active position. |
| `App.TemplateEditReachesNewSheet` | src/App.tsx:6-31 | An edit to the first sheet's template row, written back and followed by a new sheet, leaves the new sheet holding the edited row, not a blank one. |
| `Tabs.Renamed` | src/components/TabBar.tsx:36 | Same length, ids and rows. Exactly the tabs carrying the id get the new name. |
| `Tabs.WithoutId` | src/components/TabBar.tsx:41 | No surviving tab carries the id; survivors come from the list; every other tab survives. |
| `Tabs.CloseKeepsOrder` | src/components/TabBar.tsx:40-42 | Closing commutes with concatenation, so the remaining tabs keep their relative order. |
| `Tabs.CloseUniqueRemovesOne` | src/components/TabBar.tsx:40-42 | With unique ids, closing a tab removes exactly its position, and the count drops by one. |
| `Tabs.CloseDuplicateIdEmptiesBar` | src/components/TabBar.tsx:40-47 | Two tabs sharing a clock-derived id are both removed by one close, leaving no tab. |
| `Tabs.TabBar.constructor` | src/components/TabBar.tsx:17-21 | Starts with the one tab `{1, "Sheet 1", []}`, active id 1 and no tab being edited. |
| `Tabs.TabBar.AddTab` | src/components/TabBar.tsx:23-33 | Appends `{id, "Sheet " + (count+1), []}`, makes the id active, and hands on empty rows. |
| `Tabs.TabBar.RenameTab` | src/components/TabBar.tsx:35-38 | The tabs become the renamed list, the active id is kept, and editing is cleared. |
| `Tabs.TabBar.CloseTab` | src/components/TabBar.tsx:40-48 | The tabs become those without the id. If the active tab was closed and tabs remain, the first remaining tab is activated and its rows are handed on. Otherwise the active id is unchanged. |
| `Tabs.TabBar.ClickTab` | src/components/TabBar.tsx:50-53 | The clicked tab's id becomes active and its rows are handed on; the tabs are unchanged. |

## Left out

- Rendering through `@tanstack/react-table`: `useReactTable`, `getCoreRowModel`,
  `flexRender`, column resizing and pixel widths (Spreadsheet.tsx:98-103, 176-226).
  This is foreign library code that draws the state; it does not change it.
- React's hook scheduling. The methods are the handlers, and a caller runs them in
  some order. `Table.Spreadsheet.Derive` is the effect body, which the caller invokes
  with the incoming rows. Two consequences are not composed in the model:
  - `tableData` is taken from the incoming rows only once, at the constructor
    (Spreadsheet.tsx:17). After a sheet switch, the shown rows stay those of the
    earlier sheet while the columns are re-derived.
  - The effect re-fires after every write-back, so renamed headers fall back to
    "Column i+1" at the next data edit.
- The order of `Object.keys`. It is JavaScript runtime behaviour, so
  `Table.Spreadsheet.Derive` takes it as the parameter `keyOrder`. Its requires
  clause only asks that `keyOrder` list the first row's keys once each.
- The header's in-place edit toggle and temporary text (Spreadsheet.tsx:42-59), and
  setting `editingId` on double-click or clearing it on blur in the tab bar. These
  are presentation state. Only `RenameTab` clearing `editingId` is modelled.
- The cell text read from the DOM (`textContent || ''`). It is the parameter
  `newValue`.
- Table.Spreadsheet.EditCell: requires the row index to be a row of the table. Only
  rendered rows can be edited; an index past the end would throw in the source.
- The export payload (App.tsx:33-43 apart from the file name): `JSON.stringify`,
  `Blob`, `URL.createObjectURL` and the download link are browser I/O.
- The profile dropdown and its document click listener (App.tsx:45-53, 98-141), and
  buttons that only log.
- `Date.now()` for a new tab id. It is the parameter `newId` of
  `Tabs.TabBar.AddTab`, and ids are not assumed unique.
- The `onUpdate` and `onTabSwitch` callbacks. Their arguments are the methods'
  out-parameters.
- The template array lives at module level in the source, so all App instances share
  it. The model gives each store its own template, created by its constructor.
- Object identity of the sheet arrays themselves. The store's sheets are a sequence
  value; only row objects are objects.
- The rows held by tabs are plain values, since the tab list never changes a row.
- Inherited JavaScript property names (such as `toString`) as column keys. Rows and
  name maps are plain maps.
- `framer-motion` animation, `src/components/Toolbar.tsx`, `src/data/mockData.ts`,
  `tailwind.config.cjs` and `src/main.tsx`. None of them has state logic.
