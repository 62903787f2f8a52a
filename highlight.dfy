/** The change scan both report variants run over a row:
    `for (let i = 2; i < row.length - 1; i++) if (row[i] !== row[i + 1]) styles[addr(r, i)] = 'blue'`.
    Only the left cell of a differing pair is marked, and the scan never
    touches the two label columns nor the row's last column. */
module Highlight {
  import opened Cells

  /** Column `i` of `row` is inside the scanned range and differs from its right neighbour. */
  predicate Changed(row: Row, i: nat) {
    2 <= i < |row| - 1 && row[i] != row[i + 1]
  }

  /** Runs the scan of `row` into `styles`, writing under row key `r`. */
  method MarkRowChanges(styles: StyleMap, row: Row, r: nat) returns (out: StyleMap)
    ensures forall a: Address :: a in out <==> a in styles || (a.0 == r && Changed(row, a.1))
    ensures forall a: Address :: a in out ==> out[a] == if a.0 == r && Changed(row, a.1) then Blue else styles[a]
  {
    out := styles;
    var i := 2;
    while i < |row| - 1
      invariant 2 <= i
      invariant forall a: Address :: a in out <==> a in styles || (a.0 == r && a.1 < i && Changed(row, a.1))
      invariant forall a: Address :: a in out ==> out[a] == if a.0 == r && a.1 < i && Changed(row, a.1) then Blue else styles[a]
    {
      if row[i] != row[i + 1] {
        out := out[(r, i) := Blue];
      }
      i := i + 1;
    }
  }

  /** A row adds no key exactly when it is constant over columns 2 to its
      last column (which covers every row of length 3 or less). */
  lemma {:induction false} NoChangeIffConstant(row: Row)
    ensures (forall i :: !Changed(row, i)) <==> (forall j :: 2 <= j < |row| ==> row[j] == row[2])
  {
    if forall i :: !Changed(row, i) {
      var j := 2;
      while j < |row|
        invariant 2 <= j
        invariant forall m :: 2 <= m < j && m < |row| ==> row[m] == row[2]
      {
        if j > 2 {
          assert !Changed(row, j - 1);
        }
        j := j + 1;
      }
    } else {
      var i: nat :| Changed(row, i);
      assert !(row[i] == row[2] && row[i + 1] == row[2]);
    }
  }
}
