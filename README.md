# PDC status report pipeline, modelled in Dafny

This project models the data pipeline behind a spreadsheet status report.
It takes the grid of cells that the spreadsheet decoder produces and works in
four steps:

- It keeps the header rows and the rows that name a system.
- It puts an empty placeholder in front of the first two kept rows.
- It marks every cell that differs from its right-hand neighbour in a
  highlight map (address to `'blue'`).
- It projects the third kept row with its colours and buckets it into weekly
  chart records labelled `Week 83`, `Week 82`, and so on.

Both variants of the pipeline are modelled:

- `Chai-and-React/src/services.js`, the main variant: module `Services`.
- `Chai-and-React/src/App.jsx`, the legacy table view: module `App`.

Shared parts:

- `Cells` holds the cell values and the JavaScript semantics the code relies
  on: `!==`, truthiness, `includes`, and the `TypeError` thrown by `includes`
  on a number.
- `Selection` is the row filter. The two variants differ only in their fixed
  indices, name column and target substrings.
- `Highlight` is the change scan that both highlight passes run over a row.
- `Decimal` renders week numbers as decimal strings.

Modelling choices:

- A cell is `Absent | Str | Num`, with integer numbers. `Absent` is
  `undefined`: either a hole the decoder leaves in its sparse row array for an
  empty cell, or a read past the end of a row.
- `Array.prototype.map` and `filter` skip holes. So a hole in the projected
  row stays a `Hole`. It is never counted as blue, but it does count towards
  a window's `totalCells`.
- A highlight-map key is the pair (row, column). The A1 address string that
  the decoder library would build from it is injective, so the pair stands in
  for it.
- When a name cell holds a non-zero number, the name test calls `.includes`
  on it and throws. The model returns `Failure(TypeError)` instead of
  requiring string names. A zero is falsy, so it short-circuits and throws
  nothing.
- `processExcelData` is a method. It reassigns the selected rows where the
  source calls `unshift` in place. In the source, the rows are also aliased
  by the decoded grid, but that grid is dropped right away.
- The two highlight passes and `getGroupedChartData` are methods with loops.
  The filters, the projection and `getCellStyle` are functions.

Where the behaviour may look surprising, the model follows the code:

- The reference pass keys selected row 2 at row 2. The per-row pass keys
  selected row k at row k + 1. So key (2, c) can also come from selected
  row 1 when that row matches (`Services.ProjectionColours`).
- The placeholder goes in front of whatever rows are at selected positions 0
  and 1. If grid row 0 matches, or the grid is short, these are not the
  header rows.
- A row contributes keys only when its length is more than 3, because the
  scan covers columns 2 up to the second-to-last column.
- The weekly value is always twice the blue count. The source has no
  configurable multiplier.
- In the legacy table, body row j shows filtered row j + 1 but takes its
  colours from filtered row j (`App.BodyRowColouredByPredecessor`). The model
  keeps this behaviour as it is.

## Model

| member | source | states |
|---|---|---|
| `Cells.NameTest` | Chai-and-React/src/services.js:24 | the name test throws exactly on a non-zero number; it is true exactly for a non-empty string that contains one of the targets |
| `Cells.StyleOf` | Chai-and-React/src/services.js:69 | a missing key reads white; when every stored value is `'blue'`, the colour is blue exactly when the key is present |
| `Decimal.DecimalStringInjective` | Chai-and-React/src/services.js:83 | different week numbers render as different decimal strings |
| `Decimal.ParseDecimalString` | Chai-and-React/src/services.js:83 | reading the decimal rendering of a number back gives the number |
| `Selection.SelectFails` | Chai-and-React/src/services.js:20-26 | the filter throws exactly when its callback throws on some row |
| `Selection.SelectKeepsOrder` | Chai-and-React/src/services.js:20-26 | the filter returns exactly the rows at the kept indices (the fixed indices and the rows whose name test is true), in their original order |
| `Highlight.MarkRowChanges` | Chai-and-React/src/services.js:51-56 | the scan adds key (r, i) exactly for 2 <= i <= len-2 where `row[i] !== row[i+1]`, stores `'blue'` there, and leaves every other key as it was |
| `Highlight.NoChangeIffConstant` | Chai-and-React/src/services.js:41-42 | a row has no changed column exactly when it is constant over columns 2 to its end |
| `Services.IsMatchingMeaning` | Chai-and-React/src/services.js:24 | a row matches exactly when column 1 is a non-empty string containing "BasiX" or "FieldService"; the test throws exactly on a non-zero number there |
| `Services.SelectRowsFails` | Chai-and-React/src/services.js:20-26 | selection fails exactly when a row other than grid rows 1 and 2 has a non-zero number in column 1 |
| `Services.SelectRowsExact` | Chai-and-React/src/services.js:20-26 | the selection is exactly grid rows 1 and 2 (when present) plus the rows naming a system, in their original order |
| `Services.ShortGridKeepsOnlyMatches` | Chai-and-React/src/services.js:20-26 | a grid of fewer than two rows yields only a matching row 0, or nothing |
| `Services.WithPlaceholders` | Chai-and-React/src/services.js:28-29 | exactly the rows at positions 0 and 1 gain a leading `''` with their old cells shifted right; the other rows are unchanged |
| `Services.ReferenceRowKeys` | Chai-and-React/src/services.js:39-46 | the reference pass adds a key exactly when selected row 2 exists and is not constant over columns 2 to its end |
| `Services.MatchRowKeys` | Chai-and-React/src/services.js:49-57 | selected row k adds keys at row k+1 exactly when it names a system and is not constant over columns 2 to its end |
| `Services.CalculateCellStyles` | Chai-and-React/src/services.js:36-61 | fails exactly when some row's name test throws; otherwise the keys are exactly the reference pass's (2, i) and the matching rows' (k+1, i) changes, and every value is `'blue'` |
| `Services.ProcessExcelData` | Chai-and-React/src/services.js:20-33 | succeeds exactly when the filter and the highlight pass do not throw; returns the padded selection and its highlight map |
| `Services.TextNamesNeverThrow` | Chai-and-React/src/services.js:20-58 | a grid without non-zero numbers in columns 0 and 1 is processed without an error |
| `Services.Row3DataWithStyles` | Chai-and-React/src/services.js:63-72 | returns nothing for two rows or fewer; otherwise one cell per cell of row 2, a hole for a hole, and otherwise the original value with its looked-up colour or white |
| `Services.ProjectionColours` | Chai-and-React/src/services.js:63-71 | with the computed map, a projected cell is blue exactly when row 2 changes there or matching row 1 changes there; otherwise it is white |
| `Services.WeekLabelInjective` | Chai-and-React/src/services.js:83 | different week numbers give different labels |
| `Services.BlueCount` | Chai-and-React/src/services.js:80 | the blue count of a window never exceeds its length |
| `Services.WindowCount` | Chai-and-React/src/services.js:78-88 | there are never more than seven records |
| `Services.ChartWindowsCover` | Chai-and-React/src/services.js:78-88 | window j yields a record exactly when j < 7 and the window starts inside the row (3 + 7j < length); this gives min(7, ceil((L-3)/7)) records when L > 3, and none otherwise |
| `Services.GroupedChartData` | Chai-and-React/src/services.js:74-92 | the loop with its early break emits exactly the records of the window-by-window definition |
| `Services.ChartLabels` | Chai-and-React/src/services.js:78-83 | record j is labelled `Week (83 - j)`, and no two labels are equal |
| `Services.ChartRecordBounds` | Chai-and-React/src/services.js:79-85 | each record covers 1 to 7 cells, and its value is even and at most twice its cell count |
| `Services.ChartTotalsSum` | Chai-and-React/src/services.js:78-88 | the cell counts sum to min(L-3, 49) when L > 3, and to 0 otherwise |
| `App.IsSwfMeaning` | Chai-and-React/src/App.jsx:20 | a row is an SWF row exactly when column 0 is a non-empty string containing "SWF"; the test throws exactly on a non-zero number there |
| `App.FilterRowsFails` | Chai-and-React/src/App.jsx:19-21 | the filter fails exactly when a row other than grid rows 1 to 3 has a non-zero number in column 0 |
| `App.FilterRowsExact` | Chai-and-React/src/App.jsx:19-21 | the result is exactly grid rows 1 to 3 (when present) plus the SWF rows, in their original order |
| `App.HighlightSwfRows` | Chai-and-React/src/App.jsx:23-36 | fails exactly when some filtered row's SWF test throws; otherwise the keys are exactly (k+1, i) for SWF rows k changing at i, and every value is `'blue'` |
| `App.SwfRowKeys` | Chai-and-React/src/App.jsx:26-35 | filtered row k adds keys exactly when it is an SWF row that is not constant over columns 2 to its end; header rows without "SWF" add none |
| `App.HandleSheet` | Chai-and-React/src/App.jsx:19-39 | succeeds exactly when neither the filter nor the highlight pass throws; returns the filtered rows and their highlight map |
| `App.GetCellStyle` | Chai-and-React/src/App.jsx:44-51 | columns 0 and 1 are always white; when every stored value is blue, the result is blue or white, and for c >= 2 it is blue exactly when key (rowIndex+1, c) is present |
| `App.CellStyleOfLoadedSheet` | Chai-and-React/src/App.jsx:26-50 | with the computed map, cell (j, c) with c >= 2 is blue exactly when filtered row j is an SWF row that changes at c |
| `App.BodyRowColouredByPredecessor` | Chai-and-React/src/App.jsx:71-79 | a displayed row can be painted blue where it does not change, because body row j shows filtered row j+1 but takes its colours from filtered row j |

## Left out

- Fetching the workbook (`fetchExcelFile`) and reading the uploaded file (`FileReader`) are left out. They are I/O. The model starts from the decoded grid.
- Decoding the workbook (`XLSX.read`, `sheet_to_json`) is left out. It is a foreign library. Its output grid is the model's input.
- `XLSX.utils.encode_cell` is left out. It is a foreign call. The model uses (row, column) pairs instead and relies on the encoding being injective.
- Booleans, dates and floating-point numbers from the decoder are left out. Numbers are integers, and NaN is not modelled.
- React state (`setData`, `setCellStyles`) and the JSX rendering of the table and charts are left out. They are presentation only. The way body rows map to filtered rows is stated in `App.BodyRowColouredByPredecessor`.
- `Chai-and-React/src/index.jsx` is not part of this model. It is the chart page that calls the pipeline, and the module it imports is not available.
