# DataTable row selection — a Dafny model

This project models the `DataTable` React component of a small UI component
library (`src/components/DataTable/DataTable.tsx`). The component shows a list
of data rows under a row of column titles. While `loading` is set it shows only
a loading placeholder. When `selectable` is set, each row gets a checkbox, and
clicking it runs `toggleRow`. The component keeps one piece of state,
`selectedRows`, which starts empty. `toggleRow(row)` handles two cases:

- a selected row is filtered out of the list (every occurrence);
- any other row is appended at the end.

It then stores the new list and hands the same list to the optional
`onRowSelect` callback.

Files:

- `Selection.dfy` (module `Selection`) holds the pure list operations. `Without`
  is the filter `r => r !== row`. `Toggled` is the list `toggleRow` computes.
  `Replay` is a run of toggles. The file also holds the lemmas about them:
  membership, order, absence of duplicates, round trips, and the parity of
  clicks.
- `DataTable.dfy` (module `DataTable`) holds the render description and the
  class `Component`. The render description is the loading placeholder or a
  table made of header labels and body rows, each body row with its checkbox
  state. `Component` holds the `selectedRows` field and the `ToggleRow` and
  `Render` methods.

Row identity in the source is JavaScript reference identity (`includes`,
`!==`). Here it is Dafny equality on the row type `T`. The callback is modelled
by a flag saying whether the prop was given. Each call of the callback is
recorded in the field `notifications`, in order.

What the component does not do, and the model therefore does not invent:

- There is no sorting, no select-all, no row identity taken from a key, and no
  message for an empty table. The Storybook file passes `rowKey`,
  `emptyMessage` and column `header`/`render` props
  (`src/components/DataTable/DataTable.stories.tsx` lines 20-28, 51 and 93),
  but the component accepts none of them.
- The selection is kept in click order, not in data order.
  `ReplayDistinctAppends` proves that clicking distinct rows lists them in the
  order they were clicked.
- The selection is never cleared when `data` changes.

## Model

| member | source | states |
|---|---|---|
| Selection.Without | src/components/DataTable/DataTable.tsx:30 | the filtered list contains no occurrence of the removed row, keeps every other row with its multiplicity, and is strictly shorter when the row occurred |
| Selection.Toggled | src/components/DataTable/DataTable.tsx:29-33 | the toggled row is a member afterwards exactly when it was not before; an unselected row is appended at the end of the unchanged list; a selected row makes the list shorter |
| Selection.WithoutAbsent | src/components/DataTable/DataTable.tsx:30 | filtering out a row that is not in the list returns the list unchanged |
| Selection.WithoutIdempotent | src/components/DataTable/DataTable.tsx:30 | filtering the same row out twice equals filtering it out once |
| Selection.WithoutAppend | src/components/DataTable/DataTable.tsx:30 | the filter distributes over concatenation |
| Selection.WithoutIsSubsequence | src/components/DataTable/DataTable.tsx:30 | the rows kept by the filter appear in the original list in the same relative order |
| Selection.WithoutNoDup | src/components/DataTable/DataTable.tsx:30 | filtering a duplicate-free list gives a duplicate-free list |
| Selection.WithoutAt | src/components/DataTable/DataTable.tsx:30 | in a duplicate-free list, filtering out the element at position i removes exactly position i |
| Selection.ToggledMembership | src/components/DataTable/DataTable.tsx:29-32 | after a toggle, any row y is selected iff it was selected before XOR y is the toggled row (both directions) |
| Selection.ToggleOthersUnchanged | src/components/DataTable/DataTable.tsx:29-32 | with the toggled row removed, the selection before and after the toggle is the same list, so other rows keep membership, multiplicity and relative order |
| Selection.ToggleNoDup | src/components/DataTable/DataTable.tsx:29-32 | a toggle keeps a duplicate-free selection duplicate-free |
| Selection.ToggleTwiceRestores | src/components/DataTable/DataTable.tsx:29-32 | toggling an unselected row twice in a row restores the selection exactly, order included |
| Selection.ToggleTwiceMovesToEnd | src/components/DataTable/DataTable.tsx:29-32 | toggling a selected row twice need not restore the order: the row moves to the end of the list |
| Selection.ToggleRemovesAt | src/components/DataTable/DataTable.tsx:29-30 | in a duplicate-free selection, toggling the row at position i deletes exactly position i |
| Selection.Replay | src/components/DataTable/DataTable.tsx:27-36 | successive `toggleRow` calls, each toggling the next clicked row; each click adds at most one row, so the selection grows by at most the number of clicks |
| Selection.ToggleTwiceReorders | src/components/DataTable/DataTable.tsx:29-32 | a witness: toggling the first row of `[row, a]` twice gives `[a, row]`, which differs from the original list |
| Selection.ReplayMembership | src/components/DataTable/DataTable.tsx:27-36 | after a run of clicks, a row is selected iff it was selected before XOR it was clicked an odd number of times |
| Selection.ReplayNoDup | src/components/DataTable/DataTable.tsx:29-32 | any run of toggles keeps a duplicate-free selection duplicate-free |
| Selection.ReplayFromEmptyNoDup | src/components/DataTable/DataTable.tsx:25-32 | from the initial empty selection, every reachable selection is duplicate-free |
| Selection.ReplayDistinctAppends | src/components/DataTable/DataTable.tsx:31-32 | clicking rows that are all distinct and not yet selected appends them in click order, not data order |
| DataTable.Titles | src/components/DataTable/DataTable.tsx:47-51 | one header label per column, the i-th label being the i-th column's title |
| DataTable.HeaderCells | src/components/DataTable/DataTable.tsx:45-52 | a selectable table has the "Select" cell first, then the column titles in column order; otherwise only the titles |
| DataTable.BodyRows | src/components/DataTable/DataTable.tsx:55-73 | one body row per data row, in data order; its checkbox is present only when selectable and then checked iff the row is selected |
| DataTable.RenderView | src/components/DataTable/DataTable.tsx:38-76 | one render: the loading placeholder iff `loading` is set; otherwise a table with one header cell per column (plus "Select" when selectable) and one body row per data row |
| DataTable.RenderRows | src/components/DataTable/DataTable.tsx:38-40 | a render is the loading placeholder iff loading is set; it then shows no rows, and otherwise shows exactly the data rows in the caller's order |
| DataTable.RenderChecked | src/components/DataTable/DataTable.tsx:57-63 | in table mode, row i's checkbox is Some(row i is a member of the selection) when selectable, and absent otherwise |
| DataTable.RenderAfterToggle | src/components/DataTable/DataTable.tsx:61-62 | after toggling a row, the next render flips the checkbox of each occurrence of that row and leaves all others unchanged |
| DataTable.Component.constructor | src/components/DataTable/DataTable.tsx:25 | the selection starts empty (hence duplicate-free) and nothing has been notified |
| DataTable.Component.ToggleRow | src/components/DataTable/DataTable.tsx:27-36 | the stored selection becomes Toggled(old selection, row) and stays duplicate-free; the callback receives that same list exactly once when given, and is not called otherwise |
| DataTable.Component.Render | src/components/DataTable/DataTable.tsx:38-76 | the render of the current state is the loading placeholder iff loading is set, and otherwise shows exactly the data rows in order, with checkboxes read from the current selection |

## Left out

- Markup and CSS class strings: the model keeps only header labels, row order and checkbox state.
- Cell contents (`row[col.dataIndex]`): this is an untyped property lookup with nothing to state about it, so body rows carry no cells.
- The React `key` attributes (`col.key`, `row.id`): they only matter to React's reconciliation.
- React state scheduling: batched updates and a stale `selectedRows` captured by a handler are not modelled; `setSelectedRows` is an immediate field assignment.
- The callback itself: the host code it runs is unknown; only the lists it receives are recorded.
- DataTable.Component.ToggleRow: it does not require `selectable`. In the source the handler can be reached only through a checkbox, which exists only in a selectable table.
- `src/components/InputField/InputField.tsx`: it is purely presentational (CSS class lookup and helper/error text choice) and is not part of this model.
- The Storybook files: they are demo configuration. They pass props (`rowKey`, `emptyMessage`, column `header` and `render`) that the component does not accept.
