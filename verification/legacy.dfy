/** The first version of the job-order page (src/app/page.tsx), which keeps its own
    copies of the column table, the validator, the weight formula, the cell edit,
    the totals and an Enter-only key handler. Each copy is modelled as written and
    related to the shared version it duplicates. */
module LegacyPage {
  import opened Text
  import opened Validators
  import opened Numbers
  import opened Formatters
  import opened Constants
  import opened Rows
  import opened Navigation
  import ProductGrid
  import ProductTable
  import Keyboard

  /** `productOptions`: the page's fixed product catalogue. */
  const ProductOptions: seq<string> :=
    ["T-Shirt", "Shirt", "Jeans", "Jacket", "Sweater", "Hoodie", "Pants", "Skirt", "Dress", "Socks"]

  /** The page's own `tableColumns`: the shared table, except that the product
      dropdown carries the fixed catalogue as its options. */
  function LegacyTableColumns(): (cols: seq<Column>)
    ensures |cols| == 12
    ensures cols[1].options == Some(ProductOptions) && cols[1].kind == Some(DropdownCell)
  {
    [ Column("sno", "SNO", None, true, None),
      Column("product", "PRODUCT", Some(DropdownCell), false, Some(ProductOptions)),
      Column("width", "WIDTH", Some(TextCell), false, None),
      Column("length", "LENGTH", Some(TextCell), false, None),
      Column("flop", "FLOP", Some(TextCell), false, None),
      Column("gauge", "GAUGE", Some(TextCell), false, None),
      Column("remarks", "REMARKS", Some(TextCell), false, None),
      Column("pieces", "PIECES", Some(TextCell), false, None),
      Column("weight", "WEIGHT", Some(TextCell), false, None),
      Column("reqWgt", "REQ WGT", Some(TextCell), true, None),
      Column("rateFor", "RATE FOR", Some(SelectCell), false, Some(RateForOptions)),
      Column("rate", "RATE", Some(TextCell), false, None) ]
  }

  /** The two column tables agree on everything but the product options. */
  lemma LegacyColumnsAgree()
    ensures Keys(LegacyTableColumns()) == Keys(TableColumns()) == ColumnKeys
    ensures forall i | 0 <= i < 12 :: LegacyTableColumns()[i].readOnly == TableColumns()[i].readOnly
    ensures forall i | 0 <= i < 12 && i != 1 :: LegacyTableColumns()[i] == TableColumns()[i]
  {
    ColumnOrder();
  }

  /** The page's `validateInput`: the same switch as the shared validator, case by case. */
  function LegacyValidateInput(field: string, value: string): (r: string)
    ensures r == ValidateInput(field, value)
  {
    if field in ["width", "length", "flop", "rate"] then
      if DecimalGrammar(value, 2) then value else ""
    else if field in ["gauge", "pieces"] then
      if AllDigits(value) then value else ""
    else if field == "weight" then
      if DecimalGrammar(value, 3) then value else ""
    else if field in ["product", "remarks", "rateFor"] then value
    else value
  }

  /** The page's `calculateReqWgt(row)`: the formula read from a whole row; it gives
      the shared function's result on the row's four dimensions. */
  function LegacyCalculateReqWgt(row: Row): (r: string)
    ensures r == CalculateReqWgt(row.width, row.length, row.gauge, row.pieces)
    ensures DecimalGrammar(r, 3)
  {
    var w := ParseOrZero(row.width);
    var l := ParseOrZero(row.length);
    var g := ParseOrZero(row.gauge);
    var p := ParseOrZero(row.pieces);
    if w > 0.0 && l > 0.0 && g > 0.0 && p > 0.0 then ToFixed3(ReqWgtValue(w, l, g, p)) else "0.000"
  }

  /** The page's `handleChange`: the same edit as the hook's. */
  function LegacyHandleChange(rows: seq<Row>, index: int, f: Field, value: string): (r: seq<Row>)
    requires 0 <= index < |rows|
    ensures r == HandleChange(rows, index, f, value)
  {
    var row := Set(rows[index], f, LegacyValidateInput(Key(f), value));
    var row' := if f in {Width, Length, Gauge, Pieces} then row.(reqWgt := LegacyCalculateReqWgt(row)) else row;
    rows[index := row']
  }

  /** `xs.reduce((sum, x) => sum + x, acc)`: the fold from the front. */
  function Reduce(xs: seq<real>, acc: real): real
    decreases |xs|
  {
    if xs == [] then acc else Reduce(xs[1..], acc + xs[0])
  }

  /** Folding from the front with a start value gives the start value plus the sum. */
  lemma {:induction false} ReduceIsSum(xs: seq<real>, acc: real)
    ensures Reduce(xs, acc) == acc + ProductTable.SumBack(xs)
    decreases |xs|
  {
    if xs != [] {
      ReduceIsSum(xs[1..], acc + xs[0]);
      assert [xs[0]] + xs[1..] == xs;
      ProductTable.SumBackCons(xs[0], xs[1..]);
    }
  }

  /** The page's `totalPieces` and `totalWeight`: the grid component's totals. */
  function LegacyTotals(rows: seq<Row>): (t: (real, real))
    ensures t.0 == ProductTable.TotalPieces(rows) && t.1 == ProductTable.TotalWeight(rows)
  {
    ReduceIsSum(ProductTable.Values(rows, Pieces), 0.0);
    ReduceIsSum(ProductTable.Values(rows, Weight), 0.0);
    ProductTable.ColumnTotalIsSum(rows, Pieces);
    ProductTable.ColumnTotalIsSum(rows, Weight);
    (Reduce(ProductTable.Values(rows, Pieces), 0.0), Reduce(ProductTable.Values(rows, Weight), 0.0))
  }

  // ----- The page's grid state and Enter handler -----

  datatype LegacyState = LegacyState(
    rows: seq<Row>,
    notSelected: seq<Option<int>>,
    dropdownOpen: Option<int>,
    search: string)

  /** Seven empty rows, nothing marked, no dropdown. */
  function LegacyInitialState(): (st: LegacyState)
    ensures st.rows == InitialRows(7)
    ensures |st.notSelected| == 7 && forall i | 0 <= i < 7 :: st.notSelected[i] == None
    ensures st.dropdownOpen == None && st.search == ""
  {
    LegacyState(InitialRows(7), seq(7, _ => None), None, "")
  }

  /** The page's `addRow`. */
  function LegacyAddRow(st: LegacyState): (st': LegacyState)
    ensures st'.rows == AddRow(st.rows) && st'.notSelected == st.notSelected + [None]
    ensures st'.dropdownOpen == st.dropdownOpen && st'.search == st.search
  {
    st.(rows := AddRow(st.rows), notSelected := st.notSelected + [None])
  }

  /** Typing into a product cell: the text becomes the search and the dropdown opens
      on that row; the stored product is not touched. */
  function LegacyProductInput(st: LegacyState, row: int, text: string): (st': LegacyState)
    ensures st' == st.(search := text, dropdownOpen := Some(row))
    ensures st'.rows == st.rows
  {
    st.(search := text, dropdownOpen := Some(row))
  }

  /** Focusing a product cell opens its dropdown. */
  function LegacyProductFocus(st: LegacyState, row: int): (st': LegacyState)
    ensures st'.dropdownOpen == Some(row) && st'.rows == st.rows && st'.search == st.search
  {
    st.(dropdownOpen := Some(row))
  }

  /** Clicking a listed product stores it, closes the dropdown and clears the search. */
  function LegacyOptionClick(st: LegacyState, row: int, option: string): (st': LegacyState)
    requires 0 <= row < |st.rows|
    ensures st'.rows == HandleChange(st.rows, row, Product, option)
    ensures st'.rows[row].product == option
    ensures st'.dropdownOpen == None && st'.search == "" && st'.notSelected == st.notSelected
  {
    st.(rows := LegacyHandleChange(st.rows, row, Product, option), dropdownOpen := None, search := "")
  }

  datatype LegacyOutcome = LegacyOutcome(state: LegacyState, focus: ProductGrid.Focus)

  /** The row the user has to revisit: `productNotSelected[row] === row`. */
  predicate Marked(ns: seq<Option<int>>, row: int) {
    0 <= row < |ns| && ns[row] == Some(row)
  }

  /** The page's `handleKeyDown(key, row, col)`. Only Enter is handled. The row's
      count of mounted cells, `totalCols`, is 12: the last editable cell is column 11. */
  function LegacyHandleKeyDown(st: LegacyState, key: Keyboard.Key, row: int, col: int): (o: LegacyOutcome)
    requires 0 <= row < |st.rows| && 0 <= col < 12
  {
    var cols := LegacyTableColumns();
    var totalCols := 12;
    var isLastRow := row == |st.rows| - 1;
    if key != Keyboard.Enter then LegacyOutcome(st, ProductGrid.NoFocus)
    else if cols[col].key == "product" then
      if st.dropdownOpen == Some(row) then
        var product := st.rows[row].product;
        var ns := if product == "" || product !in ProductOptions
                  then ProductGrid.Mark(st.notSelected, row) else st.notSelected;
        LegacyOutcome(st.(notSelected := ns, dropdownOpen := None, search := ""), ProductGrid.NoFocus)
      else if Marked(st.notSelected, row) then
        LegacyOutcome(st.(notSelected := st.notSelected[row := None]), ProductGrid.FocusRemarks)
      else
        var next := NextEditableFrom(cols, col + 1);
        if next < totalCols then LegacyOutcome(st, ProductGrid.FocusCell(row, next))
        else if isLastRow then LegacyOutcome(LegacyAddRow(st), ProductGrid.FocusCell(row + 1, 1))
        else LegacyOutcome(st, ProductGrid.FocusCell(row + 1, 1))
    else if cols[col].key == "weight" then
      var rateForIndex := FindIndex(cols, "rateFor");
      LegacyOutcome(st, if rateForIndex != -1 then ProductGrid.FocusCell(row, rateForIndex) else ProductGrid.NoFocus)
    else if cols[col].key == "rateFor" then
      var rateIndex := FindIndex(cols, "rate");
      LegacyOutcome(st, if rateIndex != -1 then ProductGrid.FocusCell(row, rateIndex) else ProductGrid.NoFocus)
    else if col != totalCols - 1 then
      var next := NextEditableFrom(cols, col + 1);
      LegacyOutcome(st, if next < totalCols then ProductGrid.FocusCell(row, next) else ProductGrid.NoFocus)
    else if isLastRow then LegacyOutcome(LegacyAddRow(st), ProductGrid.FocusCell(row + 1, 1))
    else LegacyOutcome(st, ProductGrid.FocusCell(row + 1, 1))
  }

  // ----- Properties of the page's handler -----

  lemma LegacyKeyIndex(key: string, i: int)
    requires 0 <= i < 12
    requires ColumnKeys[i] == key
    requires forall j | 0 <= j < i :: ColumnKeys[j] != key
    ensures FindIndex(LegacyTableColumns(), key) == i
  {
    LegacyColumnsAgree();
    FindIndexAt(LegacyTableColumns(), key, i);
  }

  lemma LegacyNamedColumns()
    ensures FindIndex(LegacyTableColumns(), "rateFor") == 10
    ensures FindIndex(LegacyTableColumns(), "rate") == 11
  {
    KeysAreDistinct();
    LegacyKeyIndex("rateFor", 10);
    LegacyKeyIndex("rate", 11);
  }

  /** Enter in the weight cell goes to the rate basis, and from there to the rate. */
  lemma LegacyWeightThenRate(st: LegacyState, row: int)
    requires 0 <= row < |st.rows|
    ensures LegacyHandleKeyDown(st, Keyboard.Enter, row, 8) == LegacyOutcome(st, ProductGrid.FocusCell(row, 10))
    ensures LegacyHandleKeyDown(st, Keyboard.Enter, row, 10) == LegacyOutcome(st, ProductGrid.FocusCell(row, 11))
  {
    LegacyNamedColumns();
    assert LegacyTableColumns()[8].key == "weight";
  }

  /** Enter in the rate cell appends a row on the last row and in any case moves to
      the product cell of the row below. */
  lemma LegacyEnterOnLastColumn(st: LegacyState, row: int)
    requires 0 <= row < |st.rows|
    ensures var o := LegacyHandleKeyDown(st, Keyboard.Enter, row, 11);
            && o.focus == ProductGrid.FocusCell(row + 1, 1)
            && o.state == if row == |st.rows| - 1 then LegacyAddRow(st) else st
  {
    assert LegacyTableColumns()[11].key == "rate";
  }

  /** Enter in an open product dropdown whose row has no catalogue product marks the
      row, closes the dropdown and clears the search, and moves nowhere. */
  lemma LegacyEnterInOpenDropdown(st: LegacyState, row: int)
    requires 0 <= row < |st.rows| && st.dropdownOpen == Some(row)
    ensures var o := LegacyHandleKeyDown(st, Keyboard.Enter, row, 1);
            && o.focus == ProductGrid.NoFocus
            && o.state.rows == st.rows && o.state.dropdownOpen == None && o.state.search == ""
            && (st.rows[row].product !in ProductOptions ==> Marked(o.state.notSelected, row))
            && (st.rows[row].product in ProductOptions ==> o.state.notSelected == st.notSelected)
  {
  }

  /** Enter on a marked product cell with the dropdown closed goes to the remarks and
      clears the mark; on an unmarked one it goes to the width cell. */
  lemma LegacyEnterOnClosedProduct(st: LegacyState, row: int)
    requires 0 <= row < |st.rows| && st.dropdownOpen != Some(row)
    ensures var o := LegacyHandleKeyDown(st, Keyboard.Enter, row, 1);
            && o.state.rows == st.rows
            && (Marked(st.notSelected, row) ==>
                  o.focus == ProductGrid.FocusRemarks && !Marked(o.state.notSelected, row))
            && (!Marked(st.notSelected, row) ==> o == LegacyOutcome(st, ProductGrid.FocusCell(row, 2)))
  {
  }

  /** Enter on the product column never appends a row: the width cell always follows. */
  lemma LegacyProductNeverAppends(st: LegacyState, row: int)
    requires 0 <= row < |st.rows|
    ensures LegacyHandleKeyDown(st, Keyboard.Enter, row, 1).state.rows == st.rows
  {
  }

  /** Other keys do nothing. */
  lemma LegacyOnlyEnter(st: LegacyState, key: Keyboard.Key, row: int, col: int)
    requires 0 <= row < |st.rows| && 0 <= col < 12 && key != Keyboard.Enter
    ensures LegacyHandleKeyDown(st, key, row, col) == LegacyOutcome(st, ProductGrid.NoFocus)
  {
  }

  /** On the plain columns before the weight, the page and the hook send Enter to the
      same cell. */
  lemma {:induction false} LegacyAgreesWithHookOnPlainColumns(st: LegacyState, products: seq<string>,
                                                             gst: ProductGrid.GridState, row: int, col: int)
    requires 0 <= row < |st.rows| && |gst.rows| == |st.rows| && 2 <= col <= 7
    ensures LegacyHandleKeyDown(st, Keyboard.Enter, row, col).focus
            == ProductGrid.HandleTableKeyDown(gst, products, Keyboard.Enter, row, col).focus
            == ProductGrid.FocusCell(row, col + 1)
  {
    LegacyColumnsAgree();
    var cols := TableColumns();
    assert cols[col].key != "product" && cols[col].key != "weight" && cols[col].key != "rateFor";
    assert !cols[col + 1].readOnly;
    assert NextEditableFrom(cols, col + 1) == col + 1;
    assert NextEditableFrom(LegacyTableColumns(), col + 1) == col + 1;
  }

  /** The page's state invariant: a valid table, one well-formed mark slot per row, and
      the dropdown, if open, on an existing row. */
  predicate LegacyInvariant(st: LegacyState) {
    && ValidTable(st.rows)
    && |st.notSelected| == |st.rows|
    && ProductGrid.MarksWellFormed(st.notSelected)
    && (st.dropdownOpen.Some? ==> 0 <= st.dropdownOpen.value < |st.rows|)
  }

  lemma LegacyInitialInvariant()
    ensures LegacyInvariant(LegacyInitialState())
  {
    InitialRowsValid(7);
  }

  lemma LegacyHandleKeyDownInvariant(st: LegacyState, key: Keyboard.Key, row: int, col: int)
    requires LegacyInvariant(st)
    requires 0 <= row < |st.rows| && 0 <= col < 12
    ensures LegacyInvariant(LegacyHandleKeyDown(st, key, row, col).state)
  {
    var st' := LegacyHandleKeyDown(st, key, row, col).state;
    if st'.rows != st.rows {
      AddRowPreservesValid(st.rows);
      assert st' == LegacyAddRow(st);
      assert forall i | 0 <= i < |st.notSelected| :: st'.notSelected[i] == st.notSelected[i];
    }
  }

  /** Clicking a product keeps the invariant; the page's product input and focus do
      too, on an existing row. */
  lemma LegacyEventsInvariant(st: LegacyState, row: int, text: string)
    requires LegacyInvariant(st) && 0 <= row < |st.rows|
    ensures LegacyInvariant(LegacyOptionClick(st, row, text))
    ensures LegacyInvariant(LegacyProductInput(st, row, text))
    ensures LegacyInvariant(LegacyProductFocus(st, row))
  {
    HandleChangePreservesValid(st.rows, row, Product, text);
  }
}
