/** The column arithmetic of the grid's keyboard handler (`handleTableKeyDown` in
    src/hooks/useProductTable.ts): ArrowDown/ArrowUp step to the neighbouring column,
    wrapping around the row, then skip read-only columns forwards; Enter goes to the
    next editable column of the row, else to the first editable column of the next
    row, else asks for a new row. Focus itself is a side effect; these functions
    return the target. */
module Navigation {
  import opened Constants

  predicate Editable(cols: seq<Column>, c: int) {
    0 <= c < |cols| && !cols[c].readOnly
  }

  predicate HasEditable(cols: seq<Column>) {
    exists j | 0 <= j < |cols| :: Editable(cols, j)
  }

  /** How many forward, wrapping steps lead from column `a` to column `b`. */
  function Dist(a: int, b: int, n: int): (d: nat)
    requires 0 <= a < n && 0 <= b < n
    ensures d < n
  {
    if b >= a then b - a else b - a + n
  }

  /** `(c + 1) % totalCols`. */
  function NextWrapping(c: int, n: int): (r: int)
    requires 0 <= c < n
    ensures 0 <= r < n
    ensures r == if c + 1 == n then 0 else c + 1
  {
    (c + 1) % n
  }

  /** `while (nextCol < totalCols && cols[nextCol].readOnly) nextCol = (nextCol + 1) % totalCols`,
      run for at most `fuel` steps (the loop itself has no bound; see
      `SkipReadOnlyWrappingFinds` for why `|cols|` steps always suffice). */
  function SkipReadOnlyWrapping(cols: seq<Column>, c: int, fuel: nat): (r: int)
    requires 0 <= c < |cols|
    ensures 0 <= r < |cols|
    decreases fuel
  {
    if fuel == 0 || !cols[c].readOnly then c
    else SkipReadOnlyWrapping(cols, NextWrapping(c, |cols|), fuel - 1)
  }

  /** When an editable column lies fewer than `fuel` steps ahead, the skip stops at
      the first editable column ahead of `c`: it is editable and every column it
      passed over is read-only. */
  lemma {:induction false} SkipReadOnlyWrappingFinds(cols: seq<Column>, c: int, fuel: nat, j: int)
    requires 0 <= c < |cols| && Editable(cols, j)
    requires Dist(c, j, |cols|) < fuel
    ensures Editable(cols, SkipReadOnlyWrapping(cols, c, fuel))
    ensures Dist(c, SkipReadOnlyWrapping(cols, c, fuel), |cols|) <= Dist(c, j, |cols|)
    ensures forall x | 0 <= x < |cols| && Dist(c, x, |cols|) < Dist(c, SkipReadOnlyWrapping(cols, c, fuel), |cols|)
              :: cols[x].readOnly
    decreases fuel
  {
    var n := |cols|;
    if cols[c].readOnly {
      var c' := NextWrapping(c, n);
      assert c != j;
      SkipReadOnlyWrappingFinds(cols, c', fuel - 1, j);
      var r := SkipReadOnlyWrapping(cols, c, fuel);
      assert r == SkipReadOnlyWrapping(cols, c', fuel - 1);
      assert r != c;
      forall x | 0 <= x < n && Dist(c, x, n) < Dist(c, r, n) ensures cols[x].readOnly {
        if x != c {
          assert Dist(c, x, n) == Dist(c', x, n) + 1;
        }
      }
    }
  }

  /** ArrowDown / ArrowUp in column `c`: the neighbouring column (wrapping at either
      end), then the first editable column from there on, wrapping forwards. */
  function ColumnArrow(cols: seq<Column>, c: int, down: bool): (r: int)
    requires 0 <= c < |cols|
    requires HasEditable(cols)
    ensures Editable(cols, r)
    ensures var start := if down then NextWrapping(c, |cols|) else if c == 0 then |cols| - 1 else c - 1;
            forall x | 0 <= x < |cols| && Dist(start, x, |cols|) < Dist(start, r, |cols|) :: cols[x].readOnly
  {
    var n := |cols|;
    var start := if down then NextWrapping(c, n) else if c == 0 then n - 1 else c - 1;
    var j :| 0 <= j < n && Editable(cols, j);
    SkipReadOnlyWrappingFinds(cols, start, n, j);
    SkipReadOnlyWrapping(cols, start, n)
  }

  /** `let k = c; while (k < totalCols && cols[k].readOnly) k++`: the first editable
      column at or after `c`, or `|cols|` when there is none. */
  function NextEditableFrom(cols: seq<Column>, c: nat): (r: nat)
    requires c <= |cols|
    ensures c <= r <= |cols|
    ensures r < |cols| ==> !cols[r].readOnly
    ensures forall k | c <= k < r :: cols[k].readOnly
    decreases |cols| - c
  {
    if c < |cols| && cols[c].readOnly then NextEditableFrom(cols, c + 1) else c
  }

  /** Where Enter sends the focus. */
  datatype EnterMove = SameRow(col: int) | NextRow(col: int) | AppendRow(col: int)

  /** Enter in column `c` of row `row` of a `totalRows`-row table. */
  function EnterTarget(cols: seq<Column>, row: int, totalRows: int, c: int): (m: EnterMove)
    requires 0 <= c < |cols|
    ensures m.SameRow? <==> NextEditableFrom(cols, c + 1) < |cols|
    ensures m.SameRow? ==> c < m.col && Editable(cols, m.col)
                           && forall k | c < k < m.col :: cols[k].readOnly
    ensures m.NextRow? <==> !m.SameRow? && row + 1 < totalRows
    ensures !m.SameRow? ==> m.col == NextEditableFrom(cols, 0)
  {
    var next := NextEditableFrom(cols, c + 1);
    if next < |cols| then SameRow(next)
    else
      var first := NextEditableFrom(cols, 0);
      if row + 1 < totalRows then NextRow(first) else AppendRow(first)
  }

  /** The grid's own column table: the first editable column is the product column,
      and some column is editable. */
  lemma GridColumnsFacts()
    ensures HasEditable(TableColumns())
    ensures NextEditableFrom(TableColumns(), 0) == 1
  {
    assert Editable(TableColumns(), 1);
  }

  /** ArrowUp from the product column (1) passes the read-only serial number and comes
      back to the product column; ArrowUp from the rate basis (10) passes the
      read-only required weight and comes back to the rate basis. */
  lemma ArrowUpReturnsToSameColumn()
    ensures HasEditable(TableColumns())
    ensures ColumnArrow(TableColumns(), 1, false) == 1
    ensures ColumnArrow(TableColumns(), 10, false) == 10
  {
    GridColumnsFacts();
  }

  /** ArrowDown from the weight (8) skips the required weight to the rate basis (10);
      from the last column (11) it wraps past the serial number to the product column. */
  lemma ArrowDownSkipsAndWraps()
    ensures HasEditable(TableColumns())
    ensures ColumnArrow(TableColumns(), 8, true) == 10
    ensures ColumnArrow(TableColumns(), 11, true) == 1
  {
    GridColumnsFacts();
  }

  /** Enter in the weight column skips the required weight; Enter in the last
      column leaves the row. */
  lemma EnterFromWeightAndRate(row: int, totalRows: int)
    ensures EnterTarget(TableColumns(), row, totalRows, 8) == SameRow(10)
    ensures EnterTarget(TableColumns(), row, totalRows, 11)
            == if row + 1 < totalRows then NextRow(1) else AppendRow(1)
  {
    GridColumnsFacts();
  }
}
