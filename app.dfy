/** The legacy report view of `App.jsx`: once a sheet has been decoded, keep
    grid rows 1 to 3 and the SWF rows, mark the changes of the SWF rows, and
    colour the table body by looking its cells up in that map. */
module App {
  import opened Cells
  import opened Selection
  import opened Highlight

  /** Grid rows 1, 2 and 3 are always kept; any other row is kept by column 0. */
  const Rule: NameRule := NameRule({1, 2, 3}, 0, ["SWF"])

  /** `row[0] && row[0].includes("SWF")` */
  function IsSwf(row: Row): Result<bool> {
    RowTest(Rule, row)
  }

  /** Column 0 of a row holds a non-empty string containing "SWF". */
  predicate NamesSwf(row: Row) {
    At(row, 0).Str? && At(row, 0).s != "" && Includes(At(row, 0).s, "SWF")
  }

  /** A truthy number in column 0: the SWF test throws on it. */
  predicate NumericLabel(row: Row) {
    At(row, 0).Num? && At(row, 0).n != 0
  }

  lemma IsSwfMeaning(row: Row)
    ensures IsSwf(row) == Ok(true) <==> NamesSwf(row)
    ensures IsSwf(row).Failure? <==> NumericLabel(row)
  {
  }

  // ---------------------------------------------------------------------
  // Row filter (App.jsx, inside handleFileChange)
  // ---------------------------------------------------------------------

  function FilterRows(grid: seq<Row>): Result<seq<Row>> {
    Select(Rule, grid)
  }

  /** The filter throws exactly when a row other than grid rows 1 to 3 has a
      truthy number in column 0. */
  lemma FilterRowsFails(grid: seq<Row>)
    ensures FilterRows(grid).Failure? <==>
            exists i :: 0 <= i < |grid| && i != 1 && i != 2 && i != 3 && NumericLabel(grid[i])
  {
    SelectFails(Rule, grid);
    forall i | 0 <= i < |grid| {
      IsSwfMeaning(grid[i]);
    }
  }

  /** Otherwise the result is exactly grid rows 1 to 3 (when present) and the
      SWF rows, in their original order. */
  lemma FilterRowsExact(grid: seq<Row>)
    requires FilterRows(grid).Ok?
    ensures var sel, idx := FilterRows(grid).value, KeptIndices(Rule, grid);
            && |sel| == |idx|
            && StrictlyIncreasing(idx)
            && (forall k :: 0 <= k < |sel| ==> idx[k] < |grid| && sel[k] == grid[idx[k]])
            && (forall i :: i in idx <==> 0 <= i < |grid| && (i == 1 || i == 2 || i == 3 || NamesSwf(grid[i])))
  {
    SelectKeepsOrder(Rule, grid);
    forall i | 0 <= i < |grid| {
      IsSwfMeaning(grid[i]);
    }
  }

  // ---------------------------------------------------------------------
  // Highlight pass (the forEach over the filtered rows)
  // ---------------------------------------------------------------------

  /** Key `a` comes from the SWF row at filtered position `a.0 - 1`, keyed one row further down. */
  predicate SwfChanged(rows: seq<Row>, a: Address) {
    1 <= a.0 <= |rows| && IsSwf(rows[a.0 - 1]) == Ok(true) && Changed(rows[a.0 - 1], a.1)
  }

  /** Some filtered row makes the SWF test throw (rows 1 to 3 pass the
      filter untested, but the highlight pass tests every row). */
  predicate LabelThrows(rows: seq<Row>) {
    exists k :: 0 <= k < |rows| && IsSwf(rows[k]).Failure?
  }

  method HighlightSwfRows(rows: seq<Row>) returns (r: Result<StyleMap>)
    ensures r.Failure? <==> LabelThrows(rows)
    ensures r.Ok? ==> forall a :: a in r.value <==> SwfChanged(rows, a)
    ensures r.Ok? ==> forall a :: a in r.value ==> r.value[a] == Blue
  {
    var newCellStyles: StyleMap := map[];
    var k := 0;
    while k < |rows|
      invariant 0 <= k <= |rows|
      invariant forall j :: 0 <= j < k ==> IsSwf(rows[j]).Ok?
      invariant forall a: Address :: a in newCellStyles <==> a.0 <= k && SwfChanged(rows, a)
      invariant forall a :: a in newCellStyles ==> newCellStyles[a] == Blue
    {
      var swf := IsSwf(rows[k]);
      if swf.Failure? {
        return Failure(swf.error);
      }
      if swf.value {
        newCellStyles := MarkRowChanges(newCellStyles, rows[k], k + 1);
      }
      k := k + 1;
    }
    return Ok(newCellStyles);
  }

  /** Only SWF rows contribute keys; an SWF row of length 3 or less, or one
      constant over columns 2 to its end, contributes none. */
  lemma SwfRowKeys(rows: seq<Row>, k: nat)
    requires k < |rows|
    ensures (exists a: Address :: a.0 == k + 1 && SwfChanged(rows, a)) <==>
            NamesSwf(rows[k]) && !(forall j :: 2 <= j < |rows[k]| ==> rows[k][j] == rows[k][2])
  {
    IsSwfMeaning(rows[k]);
    NoChangeIffConstant(rows[k]);
    if NamesSwf(rows[k]) && !(forall j :: 2 <= j < |rows[k]| ==> rows[k][j] == rows[k][2]) {
      var c: nat :| Changed(rows[k], c);
      assert SwfChanged(rows, (k + 1, c));
    }
  }

  // ---------------------------------------------------------------------
  // The load handler, after the file has been read and decoded into `grid`
  // ---------------------------------------------------------------------

  datatype Loaded = Loaded(data: seq<Row>, cellStyles: StyleMap)

  method HandleSheet(grid: seq<Row>) returns (r: Result<Loaded>)
    ensures r.Ok? <==> FilterRows(grid).Ok? && !LabelThrows(FilterRows(grid).value)
    ensures r.Ok? ==> r.value.data == FilterRows(grid).value
    ensures r.Ok? ==> forall a :: a in r.value.cellStyles <==> SwfChanged(r.value.data, a)
    ensures r.Ok? ==> forall a :: a in r.value.cellStyles ==> r.value.cellStyles[a] == Blue
  {
    var filteredData :- FilterRows(grid);
    var newCellStyles :- HighlightSwfRows(filteredData);
    r := Ok(Loaded(filteredData, newCellStyles));
  }

  // ---------------------------------------------------------------------
  // getCellStyle
  // ---------------------------------------------------------------------

  /** The background of body cell (rowIndex, cellIndex): the two label
      columns are always white; any other cell is looked up one row down. */
  function GetCellStyle(cellStyles: StyleMap, rowIndex: nat, cellIndex: nat): (colour: string)
    ensures cellIndex <= 1 ==> colour == White
    ensures (forall a :: a in cellStyles ==> cellStyles[a] == Blue) ==>
              && (colour == Blue || colour == White)
              && (cellIndex >= 2 ==> (colour == Blue <==> (rowIndex + 1, cellIndex) in cellStyles))
  {
    if cellIndex == 0 || cellIndex == 1 then White
    else StyleOf(cellStyles, (rowIndex + 1, cellIndex))
  }

  /** With the styles of the load handler, body cell (j, c) for c >= 2 is
      blue exactly when filtered row j is an SWF row that changes at c. */
  lemma CellStyleOfLoadedSheet(data: seq<Row>, cellStyles: StyleMap, j: nat, c: nat)
    requires forall a :: a in cellStyles <==> SwfChanged(data, a)
    requires forall a :: a in cellStyles ==> cellStyles[a] == Blue
    requires c >= 2
    ensures GetCellStyle(cellStyles, j, c) == Blue <==> j < |data| && NamesSwf(data[j]) && Changed(data[j], c)
  {
  }

  /** The body displays `data.slice(1)`, so body row j shows filtered row
      j + 1 while its colours come from filtered row j. On this sheet the
      second row is constant, yet its third cell is shown blue because the
      row above it changes there. */
  lemma BodyRowColouredByPredecessor(cellStyles: StyleMap)
    requires forall a :: a in cellStyles <==> SwfChanged(PredecessorSheet, a)
    requires forall a :: a in cellStyles ==> cellStyles[a] == Blue
    ensures var shown := PredecessorSheet[1..][0];
            && shown == PredecessorSheet[1]
            && !Changed(shown, 2)
            && GetCellStyle(cellStyles, 0, 2) == Blue
  {
    var data := PredecessorSheet;
    assert OccursAt("SWF A", "SWF", 0);
    CellStyleOfLoadedSheet(data, cellStyles, 0, 2);
  }

  /** Two SWF rows: the first changes between columns 2 and 3, the second is constant. */
  const PredecessorSheet: seq<Row> :=
    [[Str("SWF A"), Str("x"), Num(1), Num(2), Num(2)],
     [Str("SWF B"), Str("y"), Num(5), Num(5), Num(5)]]
}
