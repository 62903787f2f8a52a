/** The report pipeline of `services.js`: select the report rows of a decoded
    sheet, pad the first two of them, mark changed cells, project the third
    selected row together with its colours, and bucket that row into weekly
    chart records. */
module Services {
  import opened Cells
  import opened Selection
  import opened Highlight
  import opened Decimal

  /** Grid rows 1 and 2 are always kept; any other row is kept by column 1. */
  const Rule: NameRule := NameRule({1, 2}, 1, ["BasiX", "FieldService"])

  /** `row[1] && (row[1].includes("BasiX") || row[1].includes("FieldService"))` */
  function IsMatching(row: Row): Result<bool> {
    RowTest(Rule, row)
  }

  /** Column 1 of a row holds a non-empty string containing one of the two system names. */
  predicate NamesSystem(row: Row) {
    && At(row, 1).Str?
    && At(row, 1).s != ""
    && (Includes(At(row, 1).s, "BasiX") || Includes(At(row, 1).s, "FieldService"))
  }

  /** A truthy number in column 1: the name test throws on it. */
  predicate NumericName(row: Row) {
    At(row, 1).Num? && At(row, 1).n != 0
  }

  lemma IsMatchingMeaning(row: Row)
    ensures IsMatching(row) == Ok(true) <==> NamesSystem(row)
    ensures IsMatching(row).Failure? <==> NumericName(row)
  {
  }

  // ---------------------------------------------------------------------
  // Row selection (`jsonData.filter(...)` in processExcelData)
  // ---------------------------------------------------------------------

  function SelectRows(grid: seq<Row>): Result<seq<Row>> {
    Select(Rule, grid)
  }

  /** The filter throws exactly when some row other than grid rows 1 and 2
      has a truthy number in column 1. */
  lemma SelectRowsFails(grid: seq<Row>)
    ensures SelectRows(grid).Failure? <==>
            exists i :: 0 <= i < |grid| && i != 1 && i != 2 && NumericName(grid[i])
  {
    SelectFails(Rule, grid);
    forall i | 0 <= i < |grid| {
      IsMatchingMeaning(grid[i]);
    }
  }

  /** Otherwise the selection is exactly grid rows 1 and 2 (when present)
      and the rows naming a system, in their original order. */
  lemma SelectRowsExact(grid: seq<Row>)
    requires SelectRows(grid).Ok?
    ensures var sel, idx := SelectRows(grid).value, KeptIndices(Rule, grid);
            && |sel| == |idx|
            && StrictlyIncreasing(idx)
            && (forall k :: 0 <= k < |sel| ==> idx[k] < |grid| && sel[k] == grid[idx[k]])
            && (forall i :: i in idx <==> 0 <= i < |grid| && (i == 1 || i == 2 || NamesSystem(grid[i])))
  {
    SelectKeepsOrder(Rule, grid);
    forall i | 0 <= i < |grid| {
      IsMatchingMeaning(grid[i]);
    }
  }

  /** A grid of fewer than two rows has no header rows to keep: only a
      matching row 0 is selected, and no error is raised for the shape. */
  lemma ShortGridKeepsOnlyMatches(grid: seq<Row>)
    requires |grid| < 2 && SelectRows(grid).Ok?
    ensures SelectRows(grid).value == if |grid| == 1 && NamesSystem(grid[0]) then grid else []
  {
    SelectRowsExact(grid);
    var sel, idx := SelectRows(grid).value, KeptIndices(Rule, grid);
    IncreasingBelowBound(idx, |grid|);
    if |idx| == 1 {
      assert idx[0] in idx;
      assert sel == [grid[0]];
    }
  }

  // ---------------------------------------------------------------------
  // Padding (`filteredData[0].unshift('')`, `filteredData[1].unshift('')`)
  // ---------------------------------------------------------------------

  /** The selection after the empty placeholder is put in front of selected
      rows 0 and 1. */
  function WithPlaceholders(rows: seq<Row>): (r: seq<Row>)
    ensures |r| == |rows|
    ensures forall k :: 0 <= k < |r| && k < 2 ==>
              |r[k]| == |rows[k]| + 1 && r[k][0] == Str("") && r[k][1..] == rows[k]
    ensures forall k :: 2 <= k < |r| ==> r[k] == rows[k]
  {
    if |rows| == 0 then []
    else if |rows| == 1 then [[Str("")] + rows[0]]
    else [[Str("")] + rows[0], [Str("")] + rows[1]] + rows[2..]
  }

  // ---------------------------------------------------------------------
  // Change detection (calculateCellStyles)
  // ---------------------------------------------------------------------

  /** Key `a` comes from the reference pass over selected row 2, always keyed at row 2. */
  predicate ReferenceChanged(rows: seq<Row>, a: Address) {
    |rows| > 2 && a.0 == 2 && Changed(rows[2], a.1)
  }

  /** Key `a` comes from the per-row pass: the matching row at selected
      position `a.0 - 1`, keyed one row further down. */
  predicate MatchChanged(rows: seq<Row>, a: Address) {
    1 <= a.0 <= |rows| && IsMatching(rows[a.0 - 1]) == Ok(true) && Changed(rows[a.0 - 1], a.1)
  }

  predicate Highlighted(rows: seq<Row>, a: Address) {
    ReferenceChanged(rows, a) || MatchChanged(rows, a)
  }

  /** Some row makes the name test in the per-row pass throw. */
  predicate NameThrows(rows: seq<Row>) {
    exists k :: 0 <= k < |rows| && IsMatching(rows[k]).Failure?
  }

  method CalculateCellStyles(rows: seq<Row>) returns (r: Result<StyleMap>)
    ensures r.Failure? <==> NameThrows(rows)
    ensures r.Ok? ==> forall a :: a in r.value <==> Highlighted(rows, a)
    ensures r.Ok? ==> forall a :: a in r.value ==> r.value[a] == Blue
  {
    var styles: StyleMap := map[];
    if |rows| > 2 {
      styles := MarkRowChanges(styles, rows[2], 2);
    }
    var k := 0;
    while k < |rows|
      invariant 0 <= k <= |rows|
      invariant forall j :: 0 <= j < k ==> IsMatching(rows[j]).Ok?
      invariant forall a: Address :: a in styles <==> ReferenceChanged(rows, a) || (a.0 <= k && MatchChanged(rows, a))
      invariant forall a :: a in styles ==> styles[a] == Blue
    {
      var m := IsMatching(rows[k]);
      if m.Failure? {
        return Failure(m.error);
      }
      if m.value {
        styles := MarkRowChanges(styles, rows[k], k + 1);
      }
      k := k + 1;
    }
    return Ok(styles);
  }

  /** The reference pass adds a key exactly when there is a third selected
      row and it is not constant over columns 2 to its end (so a row of
      length 3 or less adds none). */
  lemma ReferenceRowKeys(rows: seq<Row>)
    ensures (exists a: Address :: ReferenceChanged(rows, a)) <==>
            |rows| > 2 && !(forall j :: 2 <= j < |rows[2]| ==> rows[2][j] == rows[2][2])
  {
    if |rows| > 2 {
      NoChangeIffConstant(rows[2]);
      if !(forall j :: 2 <= j < |rows[2]| ==> rows[2][j] == rows[2][2]) {
        var c: nat :| Changed(rows[2], c);
        assert ReferenceChanged(rows, (2, c));
      }
    }
  }

  /** The per-row pass adds keys in row k + 1 exactly when selected row k
      names a system and is not constant over columns 2 to its end;
      non-matching rows add nothing. */
  lemma MatchRowKeys(rows: seq<Row>, k: nat)
    requires k < |rows|
    ensures (exists a: Address :: a.0 == k + 1 && MatchChanged(rows, a)) <==>
            NamesSystem(rows[k]) && !(forall j :: 2 <= j < |rows[k]| ==> rows[k][j] == rows[k][2])
  {
    IsMatchingMeaning(rows[k]);
    NoChangeIffConstant(rows[k]);
    if NamesSystem(rows[k]) && !(forall j :: 2 <= j < |rows[k]| ==> rows[k][j] == rows[k][2]) {
      var c: nat :| Changed(rows[k], c);
      assert MatchChanged(rows, (k + 1, c));
    }
  }

  // ---------------------------------------------------------------------
  // processExcelData, after the sheet has been decoded into `grid`
  // ---------------------------------------------------------------------

  datatype Processed = Processed(data: seq<Row>, cellStyles: StyleMap)

  method ProcessExcelData(grid: seq<Row>) returns (r: Result<Processed>)
    ensures r.Ok? <==> SelectRows(grid).Ok? && !NameThrows(WithPlaceholders(SelectRows(grid).value))
    ensures r.Ok? ==> r.value.data == WithPlaceholders(SelectRows(grid).value)
    ensures r.Ok? ==> forall a :: a in r.value.cellStyles <==> Highlighted(r.value.data, a)
    ensures r.Ok? ==> forall a :: a in r.value.cellStyles ==> r.value.cellStyles[a] == Blue
  {
    var filtered :- SelectRows(grid);
    if |filtered| > 0 {
      filtered := filtered[0 := [Str("")] + filtered[0]];
    }
    if |filtered| > 1 {
      filtered := filtered[1 := [Str("")] + filtered[1]];
    }
    assert filtered == WithPlaceholders(SelectRows(grid).value);
    var styles :- CalculateCellStyles(filtered);
    r := Ok(Processed(filtered, styles));
  }

  /** A sheet whose first two columns never hold a non-zero number is
      processed without an error: the filter tests column 1 of the grid
      rows, and the per-row pass tests column 1 of the padded rows, which
      is column 0 of selected rows 0 and 1. */
  lemma TextNamesNeverThrow(grid: seq<Row>)
    requires forall i :: 0 <= i < |grid| ==> !At(grid[i], 0).Num? || At(grid[i], 0).n == 0
    requires forall i :: 0 <= i < |grid| ==> !NumericName(grid[i])
    ensures SelectRows(grid).Ok?
    ensures !NameThrows(WithPlaceholders(SelectRows(grid).value))
  {
    SelectRowsFails(grid);
    var sel := SelectRows(grid).value;
    var padded := WithPlaceholders(sel);
    forall k | 0 <= k < |padded| ensures IsMatching(padded[k]).Ok? {
      SelectedRowsComeFromGrid(Rule, grid, k);
      var i :| 0 <= i < |grid| && sel[k] == grid[i];
      IsMatchingMeaning(padded[k]);
      if k < 2 {
        assert At(padded[k], 1) == At(grid[i], 0);
      }
    }
  }

  // ---------------------------------------------------------------------
  // getRow3DataWithStyles
  // ---------------------------------------------------------------------

  /** One projected cell. `Array.prototype.map` skips the holes of the
      decoder's sparse rows, so an empty cell stays a hole. */
  datatype ProjectedCell = Hole | Painted(value: Cell, bgColor: string)

  function Row3DataWithStyles(data: seq<Row>, styles: StyleMap): (r: seq<ProjectedCell>)
    ensures |data| <= 2 ==> r == []
    ensures |data| > 2 ==> |r| == |data[2]|
    ensures |data| > 2 ==> forall i :: 0 <= i < |r| ==>
              if data[2][i] == Absent then r[i] == Hole
              else r[i] == Painted(data[2][i], StyleOf(styles, (2, i)))
  {
    if |data| <= 2 then []
    else
      seq(|data[2]|, i requires 0 <= i < |data[2]| =>
        if data[2][i] == Absent then Hole else Painted(data[2][i], StyleOf(styles, (2, i))))
  }

  /** With the styles of processExcelData, a projected cell is blue exactly
      when the third selected row changes there, or the second selected row
      matches and changes there (its changes are keyed at row 2 as well);
      every other cell is white. */
  lemma ProjectionColours(data: seq<Row>, styles: StyleMap, i: nat)
    requires forall a :: a in styles <==> Highlighted(data, a)
    requires forall a :: a in styles ==> styles[a] == Blue
    requires |data| > 2 && i < |data[2]| && data[2][i] != Absent
    ensures Row3DataWithStyles(data, styles)[i] ==
            Painted(data[2][i],
                    if Changed(data[2], i) || (IsMatching(data[1]) == Ok(true) && Changed(data[1], i))
                    then Blue else White)
  {
  }

  // ---------------------------------------------------------------------
  // getGroupedChartData
  // ---------------------------------------------------------------------

  datatype ChartRecord = ChartRecord(name: string, value: int, totalCells: nat)

  const StartingWeek: nat := 83
  const FirstWindowColumn: nat := 3
  const WindowSize: nat := 7
  const MaxWindows: nat := 7

  function Min(a: int, b: int): int {
    if a <= b then a else b
  }

  /** `Week ${week}` */
  function WeekLabel(week: nat): string {
    "Week " + DecimalString(week)
  }

  lemma WeekLabelInjective(a: nat, b: nat)
    ensures WeekLabel(a) == WeekLabel(b) ==> a == b
  {
    if WeekLabel(a) == WeekLabel(b) {
      assert DecimalString(a) == WeekLabel(a)[5..];
      assert DecimalString(b) == WeekLabel(b)[5..];
      DecimalStringInjective(a, b);
    }
  }

  /** `group.filter(cell => cell.bgColor === 'blue').length`; `filter` skips holes. */
  function BlueCount(cells: seq<ProjectedCell>): (n: nat)
    ensures n <= |cells|
  {
    if cells == [] then 0
    else
      var last := cells[|cells| - 1];
      BlueCount(cells[..|cells| - 1]) + if last.Painted? && last.bgColor == Blue then 1 else 0
  }

  /** Window `j`: `row3Data.slice(3 + 7 * j, 3 + 7 * j + 7)`, clamped to the row as `slice` clamps. */
  function Window(row3: seq<ProjectedCell>, j: nat): seq<ProjectedCell> {
    var lo := Min(FirstWindowColumn + WindowSize * j, |row3|);
    row3[lo .. Min(lo + WindowSize, |row3|)]
  }

  /** The number of records: one per started window after column 3, at most seven. */
  function WindowCount(len: nat): (n: nat)
    ensures n <= MaxWindows
  {
    if len <= FirstWindowColumn then 0
    else Min(MaxWindows, (len - FirstWindowColumn + WindowSize - 1) / WindowSize)
  }

  function RecordAt(row3: seq<ProjectedCell>, j: nat): ChartRecord
    requires j <= StartingWeek
  {
    var group := Window(row3, j);
    ChartRecord(WeekLabel(StartingWeek - j), 2 * BlueCount(group), |group|)
  }

  /** The chart records of a projected row, window by window. */
  function ChartData(row3: seq<ProjectedCell>): seq<ChartRecord> {
    seq(WindowCount(|row3|), j requires 0 <= j < WindowCount(|row3|) => RecordAt(row3, j))
  }

  /** Window `j` yields a record exactly when it is among the first seven
      and starts inside the row. */
  lemma ChartWindowsCover(len: nat, j: nat)
    ensures j < WindowCount(len) <==> j < MaxWindows && FirstWindowColumn + WindowSize * j < len
  {
  }

  method GroupedChartData(row3Data: seq<ProjectedCell>) returns (groupedData: seq<ChartRecord>)
    ensures groupedData == ChartData(row3Data)
  {
    groupedData := [];
    var i: nat := FirstWindowColumn;
    var week: nat := StartingWeek;
    while i < |row3Data|
      invariant i == FirstWindowColumn + WindowSize * |groupedData|
      invariant week == StartingWeek - |groupedData|
      invariant |groupedData| < MaxWindows
      invariant |groupedData| <= WindowCount(|row3Data|)
      invariant forall j :: 0 <= j < |groupedData| ==> groupedData[j] == RecordAt(row3Data, j)
    {
      ChartWindowsCover(|row3Data|, |groupedData|);
      var group := row3Data[i .. Min(i + WindowSize, |row3Data|)];
      var blueCount := BlueCount(group);
      groupedData := groupedData + [ChartRecord("Week " + DecimalString(week), blueCount * 2, |group|)];
      if |groupedData| >= MaxWindows {
        break;
      }
      i := i + WindowSize;
      week := week - 1;
    }
    ChartWindowsCover(|row3Data|, |groupedData|);
  }

  /** Labels run `Week 83`, `Week 82`, ... in emission order, without gaps or repeats. */
  lemma ChartLabels(row3: seq<ProjectedCell>)
    ensures forall j :: 0 <= j < |ChartData(row3)| ==> ChartData(row3)[j].name == WeekLabel(StartingWeek - j)
    ensures forall p, q :: 0 <= p < q < |ChartData(row3)| ==> ChartData(row3)[p].name != ChartData(row3)[q].name
  {
    var cd := ChartData(row3);
    forall p, q | 0 <= p < q < |cd| ensures cd[p].name != cd[q].name {
      WeekLabelInjective(StartingWeek - p, StartingWeek - q);
    }
  }

  /** Every record covers one to seven cells, and its value is twice its
      blue-cell count: even and at most twice its cell count. */
  lemma ChartRecordBounds(row3: seq<ProjectedCell>, j: nat)
    requires j < |ChartData(row3)|
    ensures var rec := ChartData(row3)[j];
            && 1 <= rec.totalCells <= WindowSize
            && rec.value % 2 == 0
            && 0 <= rec.value <= 2 * rec.totalCells
  {
  }

  ghost function SumTotals(recs: seq<ChartRecord>): nat {
    if recs == [] then 0 else SumTotals(recs[..|recs| - 1]) + recs[|recs| - 1].totalCells
  }

  lemma {:induction false} ChartTotalsPrefix(row3: seq<ProjectedCell>, m: nat)
    requires m <= |ChartData(row3)|
    ensures SumTotals(ChartData(row3)[..m]) == if m == 0 then 0 else Min(|row3| - FirstWindowColumn, WindowSize * m)
  {
    var cd := ChartData(row3);
    if m > 0 {
      ChartTotalsPrefix(row3, m - 1);
      ChartWindowsCover(|row3|, m - 1);
      assert cd[..m][..m - 1] == cd[..m - 1];
      var lo := FirstWindowColumn + WindowSize * (m - 1);
      assert lo < |row3|;
      assert cd[..m][m - 1].totalCells == |Window(row3, m - 1)| == Min(lo + WindowSize, |row3|) - lo;
      assert SumTotals(cd[..m]) == SumTotals(cd[..m - 1]) + cd[..m][m - 1].totalCells;
      assert SumTotals(cd[..m - 1]) == WindowSize * (m - 1);
      assert Min(lo + WindowSize, |row3|) - lo == Min(WindowSize, |row3| - lo);
    }
  }

  /** The windows tile the row from column 3 on, up to seven windows of seven. */
  lemma ChartTotalsSum(row3: seq<ProjectedCell>)
    ensures SumTotals(ChartData(row3)) ==
            if |row3| <= FirstWindowColumn then 0
            else Min(|row3| - FirstWindowColumn, MaxWindows * WindowSize)
  {
    var cd := ChartData(row3);
    ChartTotalsPrefix(row3, |cd|);
    assert cd[..|cd|] == cd;
    ChartWindowsCover(|row3|, |cd|);
    if |cd| > 0 {
      ChartWindowsCover(|row3|, |cd| - 1);
    }
  }
}
