# Lipinski hydrogen-bond screen: the row-processing step

The program is a small Streamlit page. A user uploads a spreadsheet of
molecules. The page checks that the columns `Donantes_H` (hydrogen-bond
donors) and `Aceptores_H` (hydrogen-bond acceptors) exist. It keeps the rows
with `0 <= Donantes_H <= 5` and `0 <= Aceptores_H <= 10`, adds a column
`Cumple_Regla` that is 1 when `Donantes_H < 5` and `Aceptores_H < 10` and 0
otherwise, and reports the sum of that column as the "area" (the number of
compliant molecules).

This project models that step (`hotencoding.py` lines 19-31):

- `frame.dfy` (module `Frame`): the data frame. A cell is an integer, a
  float, text, or blank (pandas reads an empty cell as NaN). A row maps
  column names to cells. A table is its column list plus its rows in order.
  `WithColumn` gives the column list after `df[name] = ...`.
- `lipinski.dfy` (module `Lipinski`): the step as functions. `Process` runs
  the schema check, the range mask (`KeepInRange`), the flag (`FlagRow`,
  `FlagRows`) and the sum (`SumFlags`). It returns either an `Error` or an
  `Output` holding the columns, the rows and the area. The lemmas after it
  state what the step guarantees.
- `pipeline.dfy` (module `Pipeline`): the same step run the way the script
  runs it. The filtered frame is an object (`DataFrame`) whose rows sit in an
  array. `AssignComplianceFlag` adds the flag column in place, and `Run` is
  proved to give exactly what `Process` specifies.

Comparison semantics follow pandas. A blank (NaN) cell fails every
comparison, so its row is dropped by the mask. A text cell in either required
column makes the comparisons on lines 24-25 raise a type error. The handler
on line 61 catches it, and the model returns `NotNumeric(column)` for it. The
`Donantes_H` comparisons run first, so a text cell there is reported before
one in `Aceptores_H`. The script shows the exception text in a generic error
banner (line 62); the model names the column instead.

## Model

| member | source | states |
|---|---|---|
| `Frame.Numeric` | hotencoding.py:24-25 | Only integer and float cells compare as numbers, each as its own value; NaN and text give no number |
| `Frame.WithColumn` | hotencoding.py:28 | Assigning a column keeps every existing column in place; the new name is appended exactly when it was not already a column |
| `Frame.ColumnHasText` | hotencoding.py:24-25 | When it is false, every cell of the column compares as a number or is NaN, so the comparisons cannot raise; when it is true, some cell of the column is text |
| `Lipinski.HasExpectedColumns` | hotencoding.py:19-20 | The schema check passes exactly when both `Donantes_H` and `Aceptores_H` are columns |
| `Lipinski.InRange` | hotencoding.py:24-25 | A row with a NaN donor or acceptor cell is dropped; a kept row has numeric cells with `0 <= Donantes_H <= 5` and `0 <= Aceptores_H <= 10` |
| `Lipinski.MeetsRule` | hotencoding.py:28 | A row meeting the rule with non-negative counts is in range; a row with exactly 5 donors or exactly 10 acceptors never meets the rule |
| `Lipinski.MissingColumnHalts` | hotencoding.py:19-22 | The step ends with the schema error, and no filtering, flagging or counting, exactly when either required column is missing |
| `Lipinski.TextCellFails` | hotencoding.py:24-25 | With both columns present, the step fails exactly when one of them holds text, and it names `Donantes_H` first |
| `Lipinski.KeepInRange` | hotencoding.py:24-25 | The mask keeps no more rows than it is given, and every kept row has `0 <= Donantes_H <= 5` and `0 <= Aceptores_H <= 10` |
| `Lipinski.MaskIndices` | hotencoding.py:24-25 | The mask's positions are in bounds and strictly increasing, and a position is among them exactly when its row is in range |
| `Lipinski.KeepInRangeFollowsMask` | hotencoding.py:24-25 | The kept rows are the input rows at the mask's positions, one for one and in the same order |
| `Lipinski.FlagRow` | hotencoding.py:28 | The flagged row has the old keys plus `Cumple_Regla` and the same cell in every other column; the flag is 0 or 1, and it is 1 exactly when `Donantes_H < 5` and `Aceptores_H < 10` |
| `Lipinski.FlagRows` | hotencoding.py:28 | One output row per row; each flag is 1 exactly when its row meets the rule and 0 exactly when it does not; every other cell is unchanged (per-row detail in `FlagRow`, in-place form in `Pipeline.DataFrame.AssignComplianceFlag`) |
| `Lipinski.SumFlags` | hotencoding.py:31 | When every flag is 0 or 1, the sum lies between 0 and the number of rows; what it counts is stated by `SumCountsCompliant` and `SumFlagsBounded` |
| `Lipinski.Process` | hotencoding.py:19-31 | Failures are only the schema error or a non-numeric required column; success implies both columns exist, `Cumple_Regla` is a column, and no rows are added. The full behaviour is stated by `MissingColumnHalts`, `TextCellFails`, `ProcessKeepsInRangeRowsInOrder`, `ProcessFlagsEachRow`, `BoundaryRowFlaggedZero`, `ProcessAreaCountsCompliantRows` and `EmptyFrame` |
| `Lipinski.ProcessKeepsInRangeRowsInOrder` | hotencoding.py:24-28 | On success, the output rows are exactly the in-range input rows in their original order, each changed only by its flag; the output columns are the input columns plus `Cumple_Regla` |
| `Lipinski.ProcessFlagsEachRow` | hotencoding.py:28 | On success, every output row is in range, and its `Cumple_Regla` is 1 when it meets the strict rule and 0 otherwise |
| `Lipinski.BoundaryRowFlaggedZero` | hotencoding.py:24-28 | A row with 5 donors or 10 acceptors that is in range is kept, and it is flagged 0 |
| `Lipinski.SumCountsCompliant` | hotencoding.py:31 | The sum of the flag column over the kept rows equals the number of input rows with `0 <= Donantes_H < 5` and `0 <= Aceptores_H < 10` |
| `Lipinski.SumFlagsBounded` | hotencoding.py:31 | The sum of the flags of any flagged rows lies between 0 and their number |
| `Lipinski.ProcessAreaCountsCompliantRows` | hotencoding.py:31 | On success, the area counts the compliant input rows, and 0 <= area <= retained rows <= input rows |
| `Lipinski.EmptyFrame` | hotencoding.py:19-31 | A frame with the right columns and no rows gives no rows and an area of 0 |
| `Lipinski.WorkedExample` | hotencoding.py:19-31 | Rows (3, 4), (5, 10), (6, 2) and (-1, 3) give the first two rows, flagged 1 and 0, and an area of 1 |
| `Pipeline.DataFrame.constructor` | hotencoding.py:24-25 | The filtered frame holds the given columns and rows in a new array |
| `Pipeline.DataFrame.AssignComplianceFlag` | hotencoding.py:28 | In place, every row becomes its flagged row and the column list gains `Cumple_Regla`; nothing else changes |
| `Pipeline.DataFrame.Area` | hotencoding.py:31 | The sum of the frame's flag column; once every flag is 0 or 1, it lies between 0 and the number of rows |
| `Pipeline.Run` | hotencoding.py:19-31 | Running the step on a frame object gives exactly the result `Process` specifies |

## Left out

- The page itself: title, instructions, error banners, the table display and
  the download button (`hotencoding.py` lines 7-11, 21, 34, 45-46, 54-59)
  are presentation only. The error banner's text is not modelled; the
  `Error` value stands for it.
- Reading the Excel file with `pd.read_excel` (line 16) is file I/O through
  a foreign library. The model starts from the table it produces. Parse
  failures reported by the handler on line 61 are not modelled.
- The scatter plot and its axis limits (lines 37-42) are rendering.
- The CSV export and its cache (lines 49-53) wrap pandas internals. The
  export-then-reparse round trip is therefore not stated.
- Cell values are exact numbers. IEEE floats, rounding and infinities are
  not modelled. NaN appears only as a blank cell, which every comparison
  rejects, so such rows are dropped.
- Boolean cells and other cell types pandas can hold are not modelled. Only
  text is treated as a value whose comparison with a number raises.
- Any other exception the catch-all handler on lines 61-62 may see (a
  rendering or encoding failure after line 31) is outside the modelled step.
- Duplicate column labels are not modelled: a row maps each name to one cell.
