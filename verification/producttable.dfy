/** The grid component (src/components/features/ProductTable.tsx): the key-routing
    wrapper around the hook's handler, what the product cell shows, and the totals
    row. */
module ProductTable {
  import opened Text
  import opened Numbers
  import opened Constants
  import opened Rows
  import opened ProductGrid
  import Keyboard

  /** Which of the component's optional callbacks the parent supplied. */
  datatype Callbacks = Callbacks(hasFocusPrevious: bool, hasFocusRemarks: bool)

  /** The product is missing: `!product || product.trim() === ""`. */
  predicate ProductBlank(product: string) {
    product == "" || Trim(product) == ""
  }

  /** The condition the wrapper tests is "nothing but white space". */
  lemma ProductBlankIff(product: string)
    ensures ProductBlank(product) <==> IsBlank(product)
  {
    TrimEmptyIff(product);
  }

  /** `onKeyDownWrapper(key, row, col)`: with the dropdown open on this row's product
      cell every key goes to the hook; otherwise ArrowUp on the first product cell
      leaves the grid backwards, Enter on a blank product cell jumps to the remarks,
      and everything else goes to the hook. */
  function OnKeyDownWrapper(cb: Callbacks, st: GridState, products: seq<string>, key: Keyboard.Key,
                            row: int, col: int): (o: Outcome)
    requires 0 <= row < |st.rows| && 0 <= col < |TableColumns()|
    ensures st.dropdownOpen == Some(row) && col == 1 ==> o == HandleTableKeyDown(st, products, key, row, col)
    ensures col != 1 ==> o == HandleTableKeyDown(st, products, key, row, col)
    ensures o.focus == FocusPrevious ==> row == 0 && col == 1 && key == Keyboard.ArrowUp && o.state == st
    ensures o.focus == FocusRemarks ==> col == 1 && key == Keyboard.Enter && o.state == st
                                        && IsBlank(st.rows[row].product)
    ensures row == 0 && col == 1 && key == Keyboard.ArrowUp && st.dropdownOpen != Some(0)
            ==> o == Outcome(st, if cb.hasFocusPrevious then FocusPrevious else NoFocus)
    ensures col == 1 && key == Keyboard.Enter && st.dropdownOpen != Some(row) && IsBlank(st.rows[row].product)
            ==> o == Outcome(st, if cb.hasFocusRemarks then FocusRemarks else NoFocus)
    ensures col == 1 && st.dropdownOpen != Some(row) && !(row == 0 && key == Keyboard.ArrowUp)
            && !(key == Keyboard.Enter && IsBlank(st.rows[row].product))
            ==> o == HandleTableKeyDown(st, products, key, row, col)
  {
    ProductBlankIff(st.rows[row].product);
    if st.dropdownOpen == Some(row) && col == 1 then
      HandleTableKeyDown(st, products, key, row, col)
    else if row == 0 && col == 1 && key == Keyboard.ArrowUp then
      Outcome(st, if cb.hasFocusPrevious then FocusPrevious else NoFocus)
    else if col == 1 && key == Keyboard.Enter && ProductBlank(st.rows[row].product) then
      Outcome(st, if cb.hasFocusRemarks then FocusRemarks else NoFocus)
    else
      HandleTableKeyDown(st, products, key, row, col)
  }

  /** The product cell's `onFocus`: close any dropdown and drop the highlight. */
  function ProductFocus(st: GridState): (st': GridState)
    ensures st'.dropdownOpen == None && st'.selectedIndex == -1
    ensures st' == st.(dropdownOpen := None, selectedIndex := -1)
  {
    st.(dropdownOpen := None, selectedIndex := -1)
  }

  /** The product cell shows the search text while its dropdown is open, and the
      stored product otherwise. */
  function ProductCellText(st: GridState, row: int): (s: string)
    requires 0 <= row < |st.rows|
    ensures st.dropdownOpen == Some(row) ==> s == st.search
    ensures st.dropdownOpen != Some(row) ==> s == st.rows[row].product
  {
    if st.dropdownOpen == Some(row) then st.search else st.rows[row].product
  }

  /** The suggestion list is rendered under a product cell when its dropdown is open
      and some product matches. */
  predicate ShowProductList(st: GridState, products: seq<string>, row: int) {
    st.dropdownOpen == Some(row) && |FilteredProducts(products, st.search)| > 0
  }

  /** The product cell is tinted red: `productNotSelected[row] === row`. */
  predicate Flagged(st: GridState, row: int) {
    0 <= row < |st.notSelected| && st.notSelected[row] == Some(row)
  }

  // ----- Routing facts -----

  /** ArrowUp in the first product cell with its dropdown closed hands focus to the
      control before the grid and changes nothing. */
  lemma ArrowUpFromFirstProductLeaves(st: GridState, products: seq<string>)
    requires |st.rows| > 0 && st.dropdownOpen != Some(0)
    ensures OnKeyDownWrapper(Callbacks(true, true), st, products, Keyboard.ArrowUp, 0, 1)
            == Outcome(st, FocusPrevious)
  {
  }

  /** Enter on a blank product cell with its dropdown closed jumps to the remarks
      and changes nothing: in particular the row is not flagged. */
  lemma EnterOnBlankProductJumpsToRemarks(st: GridState, products: seq<string>, row: int)
    requires 0 <= row < |st.rows| && st.dropdownOpen != Some(row)
    requires IsBlank(st.rows[row].product)
    ensures OnKeyDownWrapper(Callbacks(true, true), st, products, Keyboard.Enter, row, 1)
            == Outcome(st, FocusRemarks)
  {
    ProductBlankIff(st.rows[row].product);
  }

  /** Through the wrapper, Enter on a blank product cell never flags the row: with
      the dropdown closed it jumps to the remarks, with the dropdown open it can only
      choose a product. The hook's flagging of empty products is thus never reached
      from the grid. */
  lemma BlankProductNeverFlagged(cb: Callbacks, st: GridState, products: seq<string>, row: int)
    requires 0 <= row < |st.rows|
    requires IsBlank(st.rows[row].product)
    ensures OnKeyDownWrapper(cb, st, products, Keyboard.Enter, row, 1).state.notSelected == st.notSelected
  {
    ProductBlankIff(st.rows[row].product);
    if st.dropdownOpen == Some(row) {
      DropdownEnterSelects(products, st, row);
    }
  }

  /** Through the wrapper, Enter on a closed product cell whose stored product is not
      in the catalogue flags the row and moves on to the width cell. The grid's events
      never store such a product (`TypingKeepsListed`, `ClickKeepsListed`,
      `EditKeepsListed`, `WrapperKeepsListed`), so this happens only to rows that were
      loaded into the hook from outside or after the catalogue changed. */
  lemma UnlistedStoredProductFlagged(cb: Callbacks, st: GridState, products: seq<string>, row: int)
    requires 0 <= row < |st.rows| && |st.notSelected| == |st.rows|
    requires st.dropdownOpen != Some(row)
    requires !IsBlank(st.rows[row].product) && st.rows[row].product !in products
    ensures var o := OnKeyDownWrapper(cb, st, products, Keyboard.Enter, row, 1);
            Flagged(o.state, row) && o.focus == FocusCell(row, 2) && o.state.rows == st.rows
  {
    EnterMarksUnlistedProduct(products, st, row);
  }

  // ----- Stored products come from the catalogue -----

  /** Every stored product is empty or an entry of the catalogue. */
  predicate AllListed(products: seq<string>, st: GridState) {
    forall i | 0 <= i < |st.rows| :: st.rows[i].product == "" || st.rows[i].product in products
  }

  /** The grid starts with every product empty. */
  lemma InitialListed(products: seq<string>, n: nat)
    ensures AllListed(products, InitialState(n))
  {
  }

  /** Typing into a product cell only sets the search, and stores nothing but "". */
  lemma TypingKeepsListed(products: seq<string>, st: GridState, row: int, value: string)
    requires AllListed(products, st) && 0 <= row < |st.rows|
    ensures AllListed(products, HandleProductChange(st, row, value))
  {
  }

  /** Clicking a suggestion stores an entry of the filtered catalogue. */
  lemma ClickKeepsListed(products: seq<string>, st: GridState, row: int, p: string)
    requires AllListed(products, st) && 0 <= row < |st.rows|
    requires p in FilteredProducts(products, st.search)
    ensures AllListed(products, SelectProduct(st, row, p).state)
  {
  }

  /** The other cells' inputs and selects edit their own field, never the product. */
  lemma EditKeepsListed(products: seq<string>, st: GridState, row: int, f: Field, value: string)
    requires AllListed(products, st) && 0 <= row < |st.rows| && f != Product
    ensures AllListed(products, ChangeCell(st, row, f, value))
  {
    assert Get(ChangeCell(st, row, f, value).rows[row], Product) == Get(st.rows[row], Product);
  }

  /** Keys through the wrapper store only a highlighted catalogue entry, or append an
      empty row. */
  lemma WrapperKeepsListed(cb: Callbacks, st: GridState, products: seq<string>, key: Keyboard.Key,
                           row: int, col: int)
    requires AllListed(products, st)
    requires 0 <= row < |st.rows| && 0 <= col < |TableColumns()|
    ensures AllListed(products, OnKeyDownWrapper(cb, st, products, key, row, col).state)
  {
    var st' := OnKeyDownWrapper(cb, st, products, key, row, col).state;
    if st'.rows != st.rows {
      if |st'.rows| == |st.rows| + 1 {
        assert st'.rows == AddRow(st.rows);
        assert forall i | 0 <= i < |st.rows| :: st'.rows[i] == st.rows[i];
      } else if st'.rows[row].product != st.rows[row].product {
        assert st'.rows[row].product in products;
      }
    }
  }

  /** Through the wrapper no key flags a row whose product is listed: every mark
      after the key was there before. With `InitialListed`, `TypingKeepsListed`,
      `ClickKeepsListed`, `EditKeepsListed` and `WrapperKeepsListed`, no sequence of
      the grid's events flags a row. */
  lemma ListedRowsNeverFlagged(cb: Callbacks, st: GridState, products: seq<string>, key: Keyboard.Key,
                               row: int, col: int)
    requires AllListed(products, st)
    requires 0 <= row < |st.rows| && 0 <= col < |TableColumns()|
    ensures var o := OnKeyDownWrapper(cb, st, products, key, row, col);
            forall i | 0 <= i < |o.state.notSelected| && o.state.notSelected[i] == Some(i) ::
              i < |st.notSelected| && st.notSelected[i] == Some(i)
  {
    ProductBlankIff(st.rows[row].product);
    MarksOnlyUnlisted(products, st, key, row, col);
  }

  /** The wrapper keeps the hook's invariant. */
  lemma OnKeyDownWrapperInvariant(cb: Callbacks, st: GridState, products: seq<string>, key: Keyboard.Key,
                                  row: int, col: int)
    requires GridInvariant(products, st)
    requires 0 <= row < |st.rows| && 0 <= col < |TableColumns()|
    ensures GridInvariant(products, OnKeyDownWrapper(cb, st, products, key, row, col).state)
  {
    HandleTableKeyDownInvariant(products, st, key, row, col);
  }

  lemma ProductFocusInvariant(products: seq<string>, st: GridState)
    requires GridInvariant(products, st)
    ensures GridInvariant(products, ProductFocus(st))
  {
  }

  // ----- Totals -----

  /** `rows.reduce((sum, r) => sum + (parseFloat(r[f]) || 0), 0)`, over exact reals. */
  function ColumnTotal(rows: seq<Row>, f: Field): (t: real)
    ensures t >= 0.0
    ensures rows == [] ==> t == 0.0
  {
    if rows == [] then 0.0
    else ColumnTotal(rows[..|rows| - 1], f) + ParseOrZero(Get(rows[|rows| - 1], f))
  }

  /** The cell values `parseFloat(r[f]) || 0` of one column, row by row. */
  function Values(rows: seq<Row>, f: Field): (vs: seq<real>)
    ensures |vs| == |rows|
    ensures forall i | 0 <= i < |rows| :: vs[i] == ParseOrZero(Get(rows[i], f))
  {
    seq(|rows|, i requires 0 <= i < |rows| => ParseOrZero(Get(rows[i], f)))
  }

  /** The sum from the back, the shape of the grid component's totals. */
  function SumBack(xs: seq<real>): real
    decreases |xs|
  {
    if xs == [] then 0.0 else SumBack(xs[..|xs| - 1]) + xs[|xs| - 1]
  }

  lemma {:induction false} SumBackCons(x: real, xs: seq<real>)
    ensures SumBack([x] + xs) == x + SumBack(xs)
    decreases |xs|
  {
    if xs != [] {
      assert ([x] + xs)[..|xs|] == [x] + xs[..|xs| - 1];
      SumBackCons(x, xs[..|xs| - 1]);
    } else {
      assert ([x] + xs)[..0] == [];
    }
  }

  /** The grid component's column total is the sum of the column's values. */
  lemma {:induction false} ColumnTotalIsSum(rows: seq<Row>, f: Field)
    ensures ColumnTotal(rows, f) == SumBack(Values(rows, f))
    decreases |rows|
  {
    if rows != [] {
      var n := |rows|;
      ColumnTotalIsSum(rows[..n - 1], f);
      assert Values(rows, f)[..n - 1] == Values(rows[..n - 1], f);
    }
  }

  /** `totalPieces`: the sum of the column's values, never negative. */
  function TotalPieces(rows: seq<Row>): (t: real)
    ensures t >= 0.0
    ensures t == SumBack(Values(rows, Pieces))
  {
    ColumnTotalIsSum(rows, Pieces);
    ColumnTotal(rows, Pieces)
  }

  /** `totalWeight`: the sum of the column's values, never negative. */
  function TotalWeight(rows: seq<Row>): (t: real)
    ensures t >= 0.0
    ensures t == SumBack(Values(rows, Weight))
  {
    ColumnTotalIsSum(rows, Weight);
    ColumnTotal(rows, Weight)
  }

  /** `totalWeight.toFixed(3)`: the weight total as shown, which reads back to the
      exact total rounded to a thousandth. */
  function TotalWeightText(rows: seq<Row>): (s: string)
    ensures -0.0005 < ParseOrZero(s) - TotalWeight(rows) <= 0.0005
  {
    ToFixed3RoundTrip(TotalWeight(rows));
    ToFixed3(TotalWeight(rows))
  }

  /** Adding a row at the end adds its value. */
  lemma ColumnTotalAppend(rows: seq<Row>, r: Row, f: Field)
    ensures ColumnTotal(rows + [r], f) == ColumnTotal(rows, f) + ParseOrZero(Get(r, f))
  {
    assert (rows + [r])[..|rows|] == rows;
  }

  /** Replacing one row changes the total by the difference of the two values. */
  lemma {:induction false} ColumnTotalUpdate(rows: seq<Row>, i: int, r: Row, f: Field)
    requires 0 <= i < |rows|
    ensures ColumnTotal(rows[i := r], f)
            == ColumnTotal(rows, f) - ParseOrZero(Get(rows[i], f)) + ParseOrZero(Get(r, f))
    decreases |rows|
  {
    var n := |rows|;
    var front := rows[..n - 1];
    assert rows[i := r][..n - 1] == if i == n - 1 then front else front[i := r];
    if i < n - 1 {
      ColumnTotalUpdate(front, i, r, f);
    }
  }

  /** A table of empty rows totals zero. */
  lemma {:induction false} InitialTotals(n: nat)
    ensures TotalPieces(InitialRows(n)) == 0.0 && TotalWeight(InitialRows(n)) == 0.0
  {
    if n > 0 {
      InitialTotals(n - 1);
      ColumnTotalAppend(InitialRows(n - 1), EmptyRow(n), Pieces);
      ColumnTotalAppend(InitialRows(n - 1), EmptyRow(n), Weight);
      ParseEdgeCases();
    }
  }

  /** Appending a row leaves both totals unchanged. */
  lemma AddRowKeepsTotals(rows: seq<Row>)
    ensures TotalPieces(AddRow(rows)) == TotalPieces(rows)
    ensures TotalWeight(AddRow(rows)) == TotalWeight(rows)
  {
    ColumnTotalAppend(rows, EmptyRow(|rows| + 1), Pieces);
    ColumnTotalAppend(rows, EmptyRow(|rows| + 1), Weight);
    ParseEdgeCases();
  }

  /** Editing a cell changes the pieces total only through the pieces cell, and the
      weight total only through the weight cell. */
  lemma HandleChangeTotals(rows: seq<Row>, index: int, f: Field, value: string)
    requires 0 <= index < |rows|
    ensures var r := HandleChange(rows, index, f, value);
            && (f != Pieces ==> TotalPieces(r) == TotalPieces(rows))
            && (f != Weight ==> TotalWeight(r) == TotalWeight(rows))
            && (f == Pieces ==> TotalPieces(r) == TotalPieces(rows) - ParseOrZero(rows[index].pieces)
                                                 + ParseOrZero(r[index].pieces))
            && (f == Weight ==> TotalWeight(r) == TotalWeight(rows) - ParseOrZero(rows[index].weight)
                                                 + ParseOrZero(r[index].weight))
  {
    var r := HandleChange(rows, index, f, value);
    assert r == rows[index := r[index]];
    ColumnTotalUpdate(rows, index, r[index], Pieces);
    ColumnTotalUpdate(rows, index, r[index], Weight);
    if f != Pieces {
      assert Get(r[index], Pieces) == Get(rows[index], Pieces);
    }
    if f != Weight {
      assert Get(r[index], Weight) == Get(rows[index], Weight);
    }
  }
}
