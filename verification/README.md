# Spreadsheet component state, modelled in Dafny

This project models the logic of the spreadsheet component of a small data-grid application
(`frontend/src/components/Spreadsheet.tsx`). It covers two parts:

- **Column labels.** `getColumnLabel` turns a zero-based column index into the letters shown in the
  header row (0 is "A", 25 is "Z", 26 is "AA", 701 is "ZZ"). In other words, it writes the index
  plus one in bijective base 26. The model mirrors the source loop as a method and gives a
  recursive definition of the same letters. It also gives a decoder and proves that the encoder and
  the decoder are inverse in both directions.
- **Sheet-list state.** The component holds a list of sheets and the id of the active sheet. A
  sheet has an id, a name and a 50 x 80 grid of text cells. Every handler that changes this state
  is written as a pure function from one state to the next:
  - editing a cell;
  - adding, deleting, renaming and selecting a sheet;
  - replacing the sheets with the fetched table list.

  The component finds the active sheet by id and asserts that it exists. The invariant `Valid`
  makes that lookup succeed: the active id names a sheet, ids are distinct, and every grid keeps
  its creation shape. Every handler is proved to keep `Valid`. So after any admissible sequence of
  events from the initial state, the lookup succeeds.

Modules:

- `Wrappers` defines `Option` and `Result`.
- `Decimal` models how a template literal prints a non-negative integer, plus its inverse.
- `ColumnLabel` covers column letters.
- `Grid` defines cells, sheets, sheet creation and the one-cell update.
- `Spreadsheet` holds the state, the handlers, the invariant and the event-driven run.

## Model

| member | source | states |
|---|---|---|
| ColumnLabel.GetColumnLabel | frontend/src/components/Spreadsheet.tsx:24-32 | The loop ends. For a negative index it returns the empty string. For index i >= 0 it returns a non-empty string of letters A..Z that reads back as i + 1 in bijective base 26. It agrees with the recursive definition `Label`. |
| ColumnLabel.LabelValue | frontend/src/components/Spreadsheet.tsx:24-32 | For every i >= 0, the label of i is a well-formed label whose bijective base-26 value is i + 1. |
| ColumnLabel.ValueLabel | frontend/src/components/Spreadsheet.tsx:24-32 | Every non-empty string of capital letters is the label of the column its value names, so decoding and then encoding gives the string back. |
| ColumnLabel.LabelInjective | frontend/src/components/Spreadsheet.tsx:24-32 | Two non-negative column indices get the same label exactly when they are equal. |
| ColumnLabel.LabelLength | frontend/src/components/Spreadsheet.tsx:156-158 | The first 26 columns get one letter and the next 676 get two, so every header of the 80-column grid has at most two letters. |
| ColumnLabel.LabelExamples | frontend/src/components/Spreadsheet.tsx:24-32 | 0 is "A", 25 is "Z", 26 is "AA", 79 (the last header) is "CB", 701 is "ZZ" and 702 is "AAA". |
| Decimal.NatToString | frontend/src/components/Spreadsheet.tsx:60 | `${n}` for a non-negative integer is non-empty, all digits, and has no leading zero. |
| Decimal.ParseNatToString | frontend/src/components/Spreadsheet.tsx:60 | Reading the decimal rendering of n gives n back. |
| Decimal.NatToStringInjective | frontend/src/components/Spreadsheet.tsx:60 | Two numbers render the same exactly when they are equal. |
| Decimal.PrefixedInjective | frontend/src/components/Spreadsheet.tsx:60 | `p${m}` equals `p${n}` exactly when m equals n, so ids `sheet-${index}` are distinct. |
| Grid.CreateEmptySheet | frontend/src/components/Spreadsheet.tsx:13-22 | A new sheet has the given id and name, exactly 50 rows of exactly 80 cells each, and every cell holds the empty string. |
| Grid.SetCell | frontend/src/components/Spreadsheet.tsx:84-90 | The grid keeps its row count and every row keeps its length. The cell at (row, col) holds the new value when it exists, and every other cell is unchanged. |
| Grid.SetCellWellShaped | frontend/src/components/Spreadsheet.tsx:84-90 | A cell edit keeps a 50 x 80 grid 50 x 80. |
| Grid.SetCellOutOfRange | frontend/src/components/Spreadsheet.tsx:84-90 | An edit at a position outside the grid returns the grid unchanged. |
| Grid.SetCellSameValue | frontend/src/components/Spreadsheet.tsx:84-90 | Writing the value a cell already holds changes nothing. |
| Grid.SetCellOverwrite | frontend/src/components/Spreadsheet.tsx:84-90 | Two edits of the same cell are the same as the second edit alone. |
| Spreadsheet.FindIndex | frontend/src/components/Spreadsheet.tsx:43 | The id lookup returns the first position holding the id, and returns none exactly when no sheet has that id. |
| Spreadsheet.FindIndexUnique | frontend/src/components/Spreadsheet.tsx:43 | When ids are distinct, looking up the id of the sheet at position k finds position k. |
| Spreadsheet.ActiveSheet | frontend/src/components/Spreadsheet.tsx:43 | The sheet found belongs to the list, carries the active id, and is the first such sheet: no earlier sheet has that id. It is absent exactly when no sheet has the active id. |
| Spreadsheet.ActiveSheetExists | frontend/src/components/Spreadsheet.tsx:43 | In a valid state the non-null assertion on the lookup holds, and the sheet found is 50 x 80. |
| Spreadsheet.CellAt | frontend/src/components/Spreadsheet.tsx:164-181 | A cell is shown exactly when there is an active sheet and the position lies inside its grid. |
| Spreadsheet.InitialState | frontend/src/components/Spreadsheet.tsx:35-40 | The component starts with three blank sheets in a valid state, and the first sheet is the one shown. |
| Spreadsheet.HandleCellChange | frontend/src/components/Spreadsheet.tsx:78-95 | The active id, the list length, every id and every name stay the same. Sheets without the active id are unchanged. A sheet with the active id gets exactly the one cell written. |
| Spreadsheet.CellChangeReadBack | frontend/src/components/Spreadsheet.tsx:78-95 | After an edit, the edited cell of the active sheet shows the new text. Every other cell, and every position outside the grid, shows what it showed before. |
| Spreadsheet.CellChangeOutOfRange | frontend/src/components/Spreadsheet.tsx:78-95 | When all grids are 50 x 80, an edit outside 0..49 x 0..79 leaves the whole state unchanged. |
| Spreadsheet.CellChangeValid | frontend/src/components/Spreadsheet.tsx:78-95 | A cell edit keeps the invariant. |
| Spreadsheet.AddNewSheet | frontend/src/components/Spreadsheet.tsx:97-105 | Exactly one sheet is appended and the earlier sheets are unchanged. The new sheet is blank and 50 x 80, its id is `sheet-${now}`, its name is `Sheet${old length + 1}`, and it becomes active. |
| Spreadsheet.AddNewSheetValid | frontend/src/components/Spreadsheet.tsx:97-105 | When the clock-derived id is not yet in the list, adding keeps the invariant and the new sheet is the one shown. |
| Spreadsheet.Without | frontend/src/components/Spreadsheet.tsx:110 | The filter never grows the list. A sheet appears in the result exactly when it appears in the input with an id other than the deleted one. Order and multiplicity are stated by WithoutConcat. |
| Spreadsheet.WithoutConcat | frontend/src/components/Spreadsheet.tsx:110 | Filtering a concatenation is concatenating the filtered parts. Together with the one-sheet cases this fixes the result completely: the kept sheets come in their input order, each as often as in the input, even when ids repeat. |
| Spreadsheet.WithoutMiddle | frontend/src/components/Spreadsheet.tsx:110 | When only the middle sheet carries the deleted id, the filter removes that sheet and keeps the sheets before and after it in order. |
| Spreadsheet.WithoutAbsent | frontend/src/components/Spreadsheet.tsx:110 | Filtering out an id that no sheet has returns the list unchanged. |
| Spreadsheet.WithoutAt | frontend/src/components/Spreadsheet.tsx:110 | When ids are distinct, filtering out the id at position k removes that one sheet and keeps the others in order. |
| Spreadsheet.DeleteSheet | frontend/src/components/Spreadsheet.tsx:107-116 | With one sheet the state is unchanged. Otherwise the new list is the filtered list. The active id stays unless it was deleted, in which case the first remaining sheet becomes active. The handler throws exactly when the active sheet is deleted and no sheet remains. |
| Spreadsheet.RemoveAtKeeps | frontend/src/components/Spreadsheet.tsx:110 | Taking out the sheet at position k shifts later sheets down by one and keeps ids distinct and grids 50 x 80. |
| Spreadsheet.DeletePresentValid | frontend/src/components/Spreadsheet.tsx:107-116 | In a valid state with two or more sheets, deleting the sheet at position k does not throw, removes exactly that sheet, keeps the others in order, and gives a valid state. |
| Spreadsheet.DeleteSheetValid | frontend/src/components/Spreadsheet.tsx:107-116 | Deleting from a valid state never throws and keeps the invariant. |
| Spreadsheet.RenameSheet | frontend/src/components/Spreadsheet.tsx:118-124 | Only names change, and a sheet takes the new name exactly when its id matches. Ids, grids, list length, order and the active id are unchanged. |
| Spreadsheet.RenameSheetValid | frontend/src/components/Spreadsheet.tsx:118-124 | Renaming keeps the invariant. |
| Spreadsheet.RenameKeepsCells | frontend/src/components/Spreadsheet.tsx:118-124 | Renaming never changes what any cell of the active sheet shows. |
| Spreadsheet.RenameIdempotent | frontend/src/components/Spreadsheet.tsx:118-124 | Renaming twice to the same name is the same as renaming once. |
| Spreadsheet.SelectSheet | frontend/src/components/Spreadsheet.tsx:205 | A tab click keeps the list. Afterwards a sheet is shown exactly when the clicked id is in the list, and that sheet carries the clicked id. |
| Spreadsheet.ApplyTables | frontend/src/components/Spreadsheet.tsx:56-69 | An unusable response or an empty list leaves the state unchanged. A list of k tables gives k blank 50 x 80 sheets with ids `sheet-0`..`sheet-(k-1)` and the table names in input order, and the first sheet becomes active. |
| Spreadsheet.ApplyTablesValid | frontend/src/components/Spreadsheet.tsx:56-69 | A non-empty table list always yields a valid state, because the positional ids are distinct. |
| Spreadsheet.StepValid | frontend/src/components/Spreadsheet.tsx:78-124 | Every admissible event takes a valid state to a valid state without throwing. |
| Spreadsheet.RunValid | frontend/src/components/Spreadsheet.tsx:43 | Any admissible sequence of events from a valid state runs without throwing and ends in a valid state. |
| Spreadsheet.ActiveSheetAlwaysFound | frontend/src/components/Spreadsheet.tsx:43 | After any admissible sequence of events from the initial state, the lookup of the active sheet finds a sheet. This holds provided the list and the active id that `fetchTables` sets at lines 63-65 take effect in the same render (see Left out). |

## Left out

- JSX rendering and `selectedCell` highlighting are left out. They are presentation with no effect on the sheet list.
- The fetch itself is left out: the request, JSON parsing and console logging are I/O. A failed request, invalid JSON, or a response without a `tables` array all take the same path, so `Payload.Unusable` stands for all of them.
- React's `useState`/`useEffect` scheduling, batching and stale closures are left out, along with out-of-order fetch responses. These are event-loop interleavings. The model applies one handler at a time to the current state, so `handleCellChange` sees the same active id as the sheet list it updates.
- Spreadsheet.ActiveSheetAlwaysFound: `fetchTables` calls `setSheets(newSheets)` and then `setActiveSheetId(...)` after an `await` (lines 63-65). The model applies both as one step, which React 18's automatic batching provides. Without that batching, a render in between would see the fetched list with the old active id `sheet-1`. For a one-table response the only id is `sheet-0`, so the lookup at line 43 would find nothing and line 164 would throw.
- `Date.now()` is a parameter `now`. The freshness of `sheet-${now}` is an assumption on the environment (`Admissible`), not something the source checks.
- Spreadsheet.ApplyTables: an entry that is `null` makes `table.table_name` at line 58 throw inside the `try`. The whole list is then discarded and the state does not change, which is the `Unusable` case.
- Spreadsheet.ApplyTables: a table-list entry that is a record without a truthy `table_name` becomes the sheet's name as the object itself. The model stores the text that object shows as, "[object Object]". It does not model other JSON value kinds (numbers, nested arrays) as entries.
- Decimal.NatToString: it does not model how JavaScript prints numbers of 10^21 and above (exponent notation). Table positions and clock readings stay far below that.
- ColumnLabel.GetColumnLabel: it takes an unbounded integer index. The source's index is a JavaScript double, and above 2^53 `Math.floor(num / 26)` works on rounded values, so "reads back as i + 1" is promised of the source only for safe integers (up to 2^53 - 1). Fractional numbers, which the header loop never passes, are not modelled.
- The add and delete buttons are commented out in the rendered tab bar. Their handlers are still modelled, as events any caller may raise.
- The backend (Express routes, CORS, database pool, schema bootstrap), the Supabase client configuration, the base-URL helper and the skeleton loader are left out. They are I/O, configuration or presentation with no logic of their own.
