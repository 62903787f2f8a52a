/** The row filter shared by both report variants:
    `grid.filter((row, index) => index === f0 || ... || (row[col] && (row[col].includes(t0) || ...)))`.
    Rows at the fixed indices are kept without looking at them; every other
    row is kept when its name cell is a non-empty string containing one of
    the targets, and a truthy numeric name cell makes the callback throw. */
module Selection {
  import opened Cells

  /** The fixed (header) indices, the name column and the target substrings. */
  datatype NameRule = NameRule(fixed: set<nat>, column: nat, targets: seq<string>)

  /** The name test of `rule` applied to one row. */
  function RowTest(rule: NameRule, row: Row): Result<bool> {
    NameTest(At(row, rule.column), rule.targets)
  }

  /** The filter callback for the row at `index`; the index comparisons come
      first and short-circuit the name test. */
  function Keep(rule: NameRule, row: Row, index: nat): Result<bool> {
    if index in rule.fixed then Ok(true) else RowTest(rule, row)
  }

  /** `Array.prototype.filter` over `grid[from..]`, in index order; a callback
      that throws ends the whole filter with that error. */
  function SelectFrom(rule: NameRule, grid: seq<Row>, from: nat): Result<seq<Row>>
    decreases |grid| - from
  {
    if from >= |grid| then Ok([])
    else
      var keep :- Keep(rule, grid[from], from);
      var rest :- SelectFrom(rule, grid, from + 1);
      Ok(if keep then [grid[from]] + rest else rest)
  }

  function Select(rule: NameRule, grid: seq<Row>): Result<seq<Row>> {
    SelectFrom(rule, grid, 0)
  }

  /** The grid indices the filter keeps from `from` on, in increasing order. */
  ghost function KeptFrom(rule: NameRule, grid: seq<Row>, from: nat): seq<nat>
    decreases |grid| - from
  {
    if from >= |grid| then []
    else (if Keep(rule, grid[from], from) == Ok(true) then [from] else []) + KeptFrom(rule, grid, from + 1)
  }

  ghost function KeptIndices(rule: NameRule, grid: seq<Row>): seq<nat> {
    KeptFrom(rule, grid, 0)
  }

  ghost predicate StrictlyIncreasing(idx: seq<nat>) {
    forall p, q :: 0 <= p < q < |idx| ==> idx[p] < idx[q]
  }

  /** A strictly increasing sequence of indices below `n` has at most `n` elements. */
  lemma {:induction false} IncreasingBelowBound(idx: seq<nat>, n: nat)
    requires StrictlyIncreasing(idx)
    requires forall p :: 0 <= p < |idx| ==> idx[p] < n
    ensures |idx| <= n
  {
    if |idx| > 0 {
      IncreasingBelowBound(idx[..|idx| - 1], idx[|idx| - 1]);
    }
  }

  /** The filter throws exactly when the callback throws on some row. */
  lemma {:induction false} SelectFromFails(rule: NameRule, grid: seq<Row>, from: nat)
    ensures SelectFrom(rule, grid, from).Failure? <==>
            exists i :: from <= i < |grid| && Keep(rule, grid[i], i).Failure?
    decreases |grid| - from
  {
    if from < |grid| {
      SelectFromFails(rule, grid, from + 1);
      if Keep(rule, grid[from], from).Failure? {
        assert SelectFrom(rule, grid, from).Failure?;
      }
    }
  }

  lemma SelectFails(rule: NameRule, grid: seq<Row>)
    ensures Select(rule, grid).Failure? <==>
            exists i :: 0 <= i < |grid| && Keep(rule, grid[i], i).Failure?
  {
    SelectFromFails(rule, grid, 0);
  }

  lemma {:induction false} KeptFromSorted(rule: NameRule, grid: seq<Row>, from: nat)
    ensures forall i :: i in KeptFrom(rule, grid, from) <==> from <= i < |grid| && Keep(rule, grid[i], i) == Ok(true)
    ensures StrictlyIncreasing(KeptFrom(rule, grid, from))
    decreases |grid| - from
  {
    if from < |grid| {
      KeptFromSorted(rule, grid, from + 1);
      var rest := KeptFrom(rule, grid, from + 1);
      assert forall q :: 0 <= q < |rest| ==> from < rest[q] by {
        forall q | 0 <= q < |rest| ensures from < rest[q] {
          assert rest[q] in rest;
        }
      }
    }
  }

  lemma {:induction false} SelectFromKept(rule: NameRule, grid: seq<Row>, from: nat)
    requires SelectFrom(rule, grid, from).Ok?
    ensures var sel, idx := SelectFrom(rule, grid, from).value, KeptFrom(rule, grid, from);
            |sel| == |idx| && forall k :: 0 <= k < |sel| ==> idx[k] < |grid| && sel[k] == grid[idx[k]]
    decreases |grid| - from
  {
    if from < |grid| {
      SelectFromKept(rule, grid, from + 1);
      KeptFromSorted(rule, grid, from + 1);
    }
  }

  /** What the filter returns: the rows at exactly the kept indices (the
      fixed ones that exist, and those whose name test is true), in their
      original order. */
  lemma SelectKeepsOrder(rule: NameRule, grid: seq<Row>)
    requires Select(rule, grid).Ok?
    ensures var sel, idx := Select(rule, grid).value, KeptIndices(rule, grid);
            && |sel| == |idx|
            && StrictlyIncreasing(idx)
            && (forall k :: 0 <= k < |sel| ==> idx[k] < |grid| && sel[k] == grid[idx[k]])
            && (forall i :: i in idx <==> 0 <= i < |grid| && (i in rule.fixed || RowTest(rule, grid[i]) == Ok(true)))
  {
    SelectFromKept(rule, grid, 0);
    KeptFromSorted(rule, grid, 0);
  }

  /** Every selected row is a row of the grid. */
  lemma SelectedRowsComeFromGrid(rule: NameRule, grid: seq<Row>, k: nat)
    requires Select(rule, grid).Ok? && k < |Select(rule, grid).value|
    ensures exists i :: 0 <= i < |grid| && Select(rule, grid).value[k] == grid[i]
  {
    SelectKeepsOrder(rule, grid);
    var i := KeptIndices(rule, grid)[k];
    assert Select(rule, grid).value[k] == grid[i];
  }
}
