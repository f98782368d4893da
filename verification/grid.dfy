/** The state of the `useProductTable` hook (src/hooks/useProductTable.ts) and its
    event handlers: the rows, the product dropdown (which row it is open on, the
    search text, the highlighted entry) and the per-row "no product selected" marks.
    Every handler is a function from the current state to the next one, together with
    the cell the handler asks to focus. */
module ProductGrid {
  import opened Text
  import opened Constants
  import opened Validators
  import opened Rows
  import opened Navigation
  import Keyboard

  datatype GridState = GridState(
    rows: seq<Row>,
    /** `productDropdownOpen`: the row whose product dropdown is open, if any. */
    dropdownOpen: Option<int>,
    /** `productSearch`. */
    search: string,
    /** `productSelectedIndex`: the highlighted entry of the filtered list, or -1. */
    selectedIndex: int,
    /** `productNotSelected`: row `i` is marked when it holds `Some(i)`. */
    notSelected: seq<Option<int>>)

  /** The focus request a handler makes. `FocusPrevious` and `FocusRemarks` are the
      callbacks that leave the grid (see `ProductTable`). */
  datatype Focus = NoFocus | FocusCell(row: int, col: int) | FocusPrevious | FocusRemarks

  datatype Outcome = Outcome(state: GridState, focus: Focus)

  /** The hook's state on mount: `n` empty rows, dropdown closed, nothing marked. */
  function InitialState(n: nat): (st: GridState)
    ensures st.rows == InitialRows(n)
    ensures st.dropdownOpen == None && st.search == "" && st.selectedIndex == -1
    ensures |st.notSelected| == n && forall i | 0 <= i < n :: st.notSelected[i] == None
  {
    GridState(InitialRows(n), None, "", -1, seq(n, _ => None))
  }

  /** The hook's defaults: seven rows. */
  const DefaultRowCount: nat := 7

  /** The product dropdown's entries: the products whose lower-cased name contains
      the lower-cased search text, in catalogue order. */
  function FilteredProducts(products: seq<string>, search: string): (r: seq<string>)
    ensures forall x :: x in r <==> x in products && MatchesSearch(x, search)
    ensures forall x :: multiset(r)[x] == if MatchesSearch(x, search) then multiset(products)[x] else 0
    ensures IsSubsequence(r, products)
  {
    FilterBySearch(products, search)
  }

  /** `addRow`: a new empty row, and an unmarked entry for it. */
  function AddRowState(st: GridState): (st': GridState)
    ensures st'.rows == AddRow(st.rows)
    ensures st'.notSelected == st.notSelected + [None]
    ensures st'.dropdownOpen == st.dropdownOpen && st'.search == st.search
    ensures st'.selectedIndex == st.selectedIndex
  {
    st.(rows := AddRow(st.rows), notSelected := st.notSelected + [None])
  }

  /** `handleChange` on the hook's rows. */
  function ChangeCell(st: GridState, index: int, f: Field, value: string): (st': GridState)
    requires 0 <= index < |st.rows|
    ensures st'.rows == HandleChange(st.rows, index, f, value)
    ensures st' == st.(rows := st'.rows)
  {
    st.(rows := HandleChange(st.rows, index, f, value))
  }

  /** `handleProductChange(row, value)`: typing into a product cell makes the text
      the search, clears the stored product when the text is empty, opens the
      dropdown on that row and highlights its first entry. */
  function HandleProductChange(st: GridState, row: int, value: string): (st': GridState)
    requires 0 <= row < |st.rows|
    ensures st'.search == value && st'.dropdownOpen == Some(row) && st'.selectedIndex == 0
    ensures |st'.rows| == |st.rows|
    ensures forall j | 0 <= j < |st.rows| && j != row :: st'.rows[j] == st.rows[j]
    ensures st'.rows[row] == if value == "" then st.rows[row].(product := "") else st.rows[row]
    ensures st'.notSelected == st.notSelected
  {
    var rows' := if value == "" then st.rows[row := st.rows[row].(product := "")] else st.rows;
    st.(rows := rows', search := value, dropdownOpen := Some(row), selectedIndex := 0)
  }

  /** Where focus goes after a product is chosen: the first editable column after
      the product column. */
  function AfterProductColumn(): (c: int)
    ensures c == 2
  {
    var cols := TableColumns();
    NamedColumnIndices();
    NextEditableFrom(cols, FindIndex(cols, "product") + 1)
  }

  /** `selectProduct(row, product)`: store the product through `handleChange`, close
      the dropdown, clear the search and the highlight, and focus the next editable
      cell of the row. */
  function SelectProduct(st: GridState, row: int, product: string): (o: Outcome)
    requires 0 <= row < |st.rows|
    ensures o.state.rows == HandleChange(st.rows, row, Product, product)
    ensures o.state.rows[row].product == product
    ensures o.state.dropdownOpen == None && o.state.search == "" && o.state.selectedIndex == -1
    ensures o.state.notSelected == st.notSelected
    ensures o.focus == FocusCell(row, 2)
  {
    var st' := st.(rows := HandleChange(st.rows, row, Product, product),
                   dropdownOpen := None, search := "", selectedIndex := -1);
    var next := AfterProductColumn();
    Outcome(st', if next < |TableColumns()| then FocusCell(row, next) else NoFocus)
  }

  /** `updated[row] = row` on a copy of `productNotSelected`. A JavaScript array
      written past its end grows, with empty slots (read as unmarked) in between. */
  function Mark(ns: seq<Option<int>>, row: nat): (ns': seq<Option<int>>)
    ensures |ns'| == if row < |ns| then |ns| else row + 1
    ensures ns'[row] == Some(row)
    ensures forall i | 0 <= i < |ns| && i != row :: ns'[i] == ns[i]
    ensures forall i | |ns| <= i < |ns'| && i != row :: ns'[i] == None
  {
    if row < |ns| then ns[row := Some(row)] else ns + seq(row - |ns|, _ => None) + [Some(row)]
  }

  /** The column is the product dropdown, as `handleTableKeyDown` decides it. */
  predicate IsProductDropdown(c: Column) {
    && c.kind == Some(DropdownCell)
    && (c.key == "product" || c.options.Some?)
    && c.key == "product"
  }

  predicate IsRateShortcut(key: Keyboard.Key) {
    key.Printable? && key.c in {'p', 'P', 'w', 'W'}
  }

  /** The entry Enter would choose in the open dropdown, when one is highlighted:
      `filteredProducts[productSelectedIndex]` when that is a non-empty string. */
  function Highlighted(products: seq<string>, st: GridState): (r: Option<string>)
    ensures r.Some? <==> (0 <= st.selectedIndex < |FilteredProducts(products, st.search)|
                          && FilteredProducts(products, st.search)[st.selectedIndex] != "")
    ensures r.Some? ==> r.value == FilteredProducts(products, st.search)[st.selectedIndex]
                        && r.value in products && MatchesSearch(r.value, st.search)
  {
    var filtered := FilteredProducts(products, st.search);
    if 0 <= st.selectedIndex < |filtered| && filtered[st.selectedIndex] != "" then
      Some(filtered[st.selectedIndex])
    else None
  }

  /** The dropdown branch: ArrowDown / ArrowUp move the highlight (wrapping), Enter
      chooses the highlighted product if there is one; nothing else happens. */
  function DropdownKey(st: GridState, products: seq<string>, key: Keyboard.Key, row: int): (o: Outcome)
    requires 0 <= row < |st.rows|
    requires key == Keyboard.ArrowDown || key == Keyboard.ArrowUp || key == Keyboard.Enter
    ensures o.focus == NoFocus || o.focus == FocusCell(row, 2)
  {
    var n := |FilteredProducts(products, st.search)|;
    match key
    case ArrowDown => Outcome(st.(selectedIndex := Keyboard.HighlightDown(st.selectedIndex, n)), NoFocus)
    case ArrowUp => Outcome(st.(selectedIndex := Keyboard.HighlightUp(st.selectedIndex, n)), NoFocus)
    case Enter =>
      match Highlighted(products, st)
      case Some(p) => SelectProduct(st, row, p)
      case None => Outcome(st, NoFocus)
  }

  /** The Enter branch: leaving the product column with an empty or unknown product
      marks the row; then focus goes to the next editable cell of the row, else to
      the first editable cell of the next row, else a row is appended and its first
      editable cell focused. */
  function EnterKey(st: GridState, products: seq<string>, row: int, col: int): (o: Outcome)
    requires 0 <= row < |st.rows| && 0 <= col < |TableColumns()|
    ensures o.focus.FocusCell? && (o.focus.row == row || o.focus.row == row + 1)
  {
    var cols := TableColumns();
    var product := st.rows[row].product;
    var marked := if cols[col].key == "product" && (product == "" || product !in products)
                  then st.(notSelected := Mark(st.notSelected, row))
                  else st;
    match EnterTarget(cols, row, |st.rows|, col)
    case SameRow(c) => Outcome(marked, FocusCell(row, c))
    case NextRow(c) => Outcome(marked, FocusCell(row + 1, c))
    case AppendRow(c) => Outcome(AddRowState(marked), FocusCell(row + 1, c))
  }

  /** `handleTableKeyDown(key, row, col)`, its branches in the order the handler
      tries them. */
  function HandleTableKeyDown(st: GridState, products: seq<string>, key: Keyboard.Key, row: int, col: int): (o: Outcome)
    requires 0 <= row < |st.rows| && 0 <= col < |TableColumns()|
    ensures o.focus == NoFocus || (o.focus.FocusCell? && (o.focus.row == row || o.focus.row == row + 1))
  {
    var cols := TableColumns();
    if IsProductDropdown(cols[col]) && st.dropdownOpen == Some(row)
       && (key == Keyboard.ArrowDown || key == Keyboard.ArrowUp || key == Keyboard.Enter) then
      DropdownKey(st, products, key, row)
    else if key == Keyboard.ArrowDown || key == Keyboard.ArrowUp then
      GridColumnsFacts();
      Outcome(st, FocusCell(row, ColumnArrow(cols, col, key == Keyboard.ArrowDown)))
    else if cols[col].key == "rateFor" && IsRateShortcut(key) then
      Outcome(ChangeCell(st, row, RateFor, if key.c in {'p', 'P'} then "Piece" else "Weight"), NoFocus)
    else if key == Keyboard.Enter then
      EnterKey(st, products, row, col)
    else
      Outcome(st, NoFocus)
  }

  // ----- The state invariant -----

  /** A mark is either absent or the row's own index. */
  predicate MarksWellFormed(ns: seq<Option<int>>) {
    forall i | 0 <= i < |ns| :: ns[i] == None || ns[i] == Some(i)
  }

  /** The highlight is -1, 0, or an entry of the filtered list. */
  predicate HighlightSane(products: seq<string>, st: GridState) {
    -1 <= st.selectedIndex
    && (st.selectedIndex == 0 || st.selectedIndex < |FilteredProducts(products, st.search)|)
  }

  /** What every reachable state of the hook satisfies: a valid table, one mark slot
      per row, the dropdown (if open) on an existing row, a sane highlight. */
  predicate GridInvariant(products: seq<string>, st: GridState) {
    && ValidTable(st.rows)
    && |st.notSelected| == |st.rows|
    && MarksWellFormed(st.notSelected)
    && (st.dropdownOpen.Some? ==> 0 <= st.dropdownOpen.value < |st.rows|)
    && HighlightSane(products, st)
  }

  lemma InitialStateInvariant(products: seq<string>, n: nat)
    ensures GridInvariant(products, InitialState(n))
  {
    InitialRowsValid(n);
  }

  lemma AddRowStateInvariant(products: seq<string>, st: GridState)
    requires GridInvariant(products, st)
    ensures GridInvariant(products, AddRowState(st))
  {
    AddRowPreservesValid(st.rows);
    var ns' := AddRowState(st).notSelected;
    assert forall i | 0 <= i < |st.notSelected| :: ns'[i] == st.notSelected[i];
  }

  /** Editing any cell the grid renders as editable keeps the invariant. */
  lemma ChangeCellInvariant(products: seq<string>, st: GridState, index: int, f: Field, value: string)
    requires GridInvariant(products, st)
    requires 0 <= index < |st.rows| && f != ReqWgt
    ensures GridInvariant(products, ChangeCell(st, index, f, value))
  {
    HandleChangePreservesValid(st.rows, index, f, value);
  }

  lemma HandleProductChangeInvariant(products: seq<string>, st: GridState, row: int, value: string)
    requires GridInvariant(products, st)
    requires 0 <= row < |st.rows|
    ensures GridInvariant(products, HandleProductChange(st, row, value))
  {
    if value == "" {
      var rows' := HandleProductChange(st, row, value).rows;
      assert rows' == HandleChange(st.rows, row, Product, "");
      HandleChangePreservesValid(st.rows, row, Product, "");
    }
  }

  lemma SelectProductInvariant(products: seq<string>, st: GridState, row: int, product: string)
    requires GridInvariant(products, st)
    requires 0 <= row < |st.rows|
    ensures GridInvariant(products, SelectProduct(st, row, product).state)
  {
    HandleChangePreservesValid(st.rows, row, Product, product);
  }

  lemma MarkWellFormed(ns: seq<Option<int>>, row: nat)
    requires MarksWellFormed(ns)
    ensures MarksWellFormed(Mark(ns, row))
  {
  }

  lemma DropdownKeyInvariant(products: seq<string>, st: GridState, key: Keyboard.Key, row: int)
    requires GridInvariant(products, st)
    requires 0 <= row < |st.rows|
    requires key == Keyboard.ArrowDown || key == Keyboard.ArrowUp || key == Keyboard.Enter
    ensures GridInvariant(products, DropdownKey(st, products, key, row).state)
  {
    var n := |FilteredProducts(products, st.search)|;
    if key == Keyboard.Enter {
      match Highlighted(products, st)
      case Some(p) => SelectProductInvariant(products, st, row, p);
      case None =>
    } else if n >= 1 {
      Keyboard.HighlightInRange(st.selectedIndex, n);
    }
  }

  lemma EnterKeyInvariant(products: seq<string>, st: GridState, row: int, col: int)
    requires GridInvariant(products, st)
    requires 0 <= row < |st.rows| && 0 <= col < |TableColumns()|
    ensures GridInvariant(products, EnterKey(st, products, row, col).state)
  {
    var cols := TableColumns();
    var product := st.rows[row].product;
    var marked := if cols[col].key == "product" && (product == "" || product !in products)
                  then st.(notSelected := Mark(st.notSelected, row))
                  else st;
    MarkWellFormed(st.notSelected, row);
    assert GridInvariant(products, marked);
    if EnterTarget(cols, row, |st.rows|, col).AppendRow? {
      AddRowStateInvariant(products, marked);
    }
  }

  /** Every key the grid handles keeps the invariant. */
  lemma HandleTableKeyDownInvariant(products: seq<string>, st: GridState, key: Keyboard.Key, row: int, col: int)
    requires GridInvariant(products, st)
    requires 0 <= row < |st.rows| && 0 <= col < |TableColumns()|
    ensures GridInvariant(products, HandleTableKeyDown(st, products, key, row, col).state)
  {
    var cols := TableColumns();
    if IsProductDropdown(cols[col]) && st.dropdownOpen == Some(row)
       && (key == Keyboard.ArrowDown || key == Keyboard.ArrowUp || key == Keyboard.Enter) {
      DropdownKeyInvariant(products, st, key, row);
    } else if key == Keyboard.ArrowDown || key == Keyboard.ArrowUp {
    } else if cols[col].key == "rateFor" && IsRateShortcut(key) {
      ChangeCellInvariant(products, st, row, RateFor, if key.c in {'p', 'P'} then "Piece" else "Weight");
    } else if key == Keyboard.Enter {
      EnterKeyInvariant(products, st, row, col);
    }
  }

  // ----- Behaviour of the key handler -----

  /** Arrow keys outside an open dropdown change no state and focus the neighbouring
      editable column of the same row. */
  lemma ArrowKeysOnlyMoveFocus(products: seq<string>, st: GridState, key: Keyboard.Key, row: int, col: int)
    requires 0 <= row < |st.rows| && 0 <= col < |TableColumns()|
    requires key == Keyboard.ArrowDown || key == Keyboard.ArrowUp
    requires !(col == 1 && st.dropdownOpen == Some(row))
    ensures var o := HandleTableKeyDown(st, products, key, row, col);
            o.state == st && o.focus.FocusCell? && o.focus.row == row
            && Editable(TableColumns(), o.focus.col)
  {
    GridColumnsFacts();
  }

  /** In the open dropdown, ArrowDown and ArrowUp only move the highlight, and within
      a non-empty list they land on an entry. */
  lemma DropdownArrowsMoveHighlight(products: seq<string>, st: GridState, key: Keyboard.Key, row: int)
    requires 0 <= row < |st.rows| && st.dropdownOpen == Some(row)
    requires key == Keyboard.ArrowDown || key == Keyboard.ArrowUp
    requires |FilteredProducts(products, st.search)| >= 1
    requires -1 <= st.selectedIndex < |FilteredProducts(products, st.search)|
    ensures var o := HandleTableKeyDown(st, products, key, row, 1);
            && o.state == st.(selectedIndex := o.state.selectedIndex)
            && o.focus == NoFocus
            && 0 <= o.state.selectedIndex < |FilteredProducts(products, st.search)|
  {
    assert IsProductDropdown(TableColumns()[1]);
    Keyboard.HighlightInRange(st.selectedIndex, |FilteredProducts(products, st.search)|);
  }

  /** Enter in the open dropdown stores the highlighted product, which is in the
      catalogue and matches the search, closes the dropdown and focuses the width
      cell; with nothing highlighted it does nothing. */
  lemma DropdownEnterSelects(products: seq<string>, st: GridState, row: int)
    requires 0 <= row < |st.rows| && st.dropdownOpen == Some(row)
    ensures var o := HandleTableKeyDown(st, products, Keyboard.Enter, row, 1);
            match Highlighted(products, st)
            case Some(p) =>
              && o.state.rows[row].product == p && p in products && MatchesSearch(p, st.search)
              && o.state.dropdownOpen == None && o.state.search == "" && o.state.selectedIndex == -1
              && o.focus == FocusCell(row, 2)
            case None => o == Outcome(st, NoFocus)
  {
    assert IsProductDropdown(TableColumns()[1]);
  }

  /** Enter on the product column with the dropdown closed marks the row exactly when
      its product is empty or not in the catalogue, and moves on to the width cell. */
  lemma EnterMarksUnlistedProduct(products: seq<string>, st: GridState, row: int)
    requires 0 <= row < |st.rows| && |st.notSelected| == |st.rows|
    requires st.dropdownOpen != Some(row)
    ensures var o := HandleTableKeyDown(st, products, Keyboard.Enter, row, 1);
            && o.focus == FocusCell(row, 2)
            && o.state.rows == st.rows
            && (o.state.notSelected[row] == Some(row)
                <==> st.rows[row].product == "" || st.rows[row].product !in products
                     || st.notSelected[row] == Some(row))
  {
    GridColumnsFacts();
    assert TableColumns()[1].key == "product";
  }

  /** Enter on the last cell of the last row appends exactly one empty row and
      focuses its product cell; on any other row it moves to the next row's product
      cell and leaves the rows alone. */
  lemma EnterOnLastColumn(products: seq<string>, st: GridState, row: int)
    requires 0 <= row < |st.rows|
    ensures var o := HandleTableKeyDown(st, products, Keyboard.Enter, row, 11);
            && o.focus == FocusCell(row + 1, 1)
            && (row == |st.rows| - 1 ==> o.state == AddRowState(st))
            && (row < |st.rows| - 1 ==> o.state == st)
  {
    EnterFromWeightAndRate(row, |st.rows|);
    assert TableColumns()[11].key == "rate";
  }

  /** P/p and W/w in the rate-basis cell set it to Piece and Weight. */
  lemma RateShortcut(products: seq<string>, st: GridState, row: int, c: char)
    requires 0 <= row < |st.rows|
    requires c in {'p', 'P', 'w', 'W'}
    ensures var o := HandleTableKeyDown(st, products, Keyboard.Printable(c), row, 10);
            && o.focus == NoFocus
            && o.state.rows[row].rateFor == (if c in {'p', 'P'} then "Piece" else "Weight")
            && o.state == st.(rows := o.state.rows)
  {
    assert TableColumns()[10].key == "rateFor";
    assert ValidateInput("rateFor", "Piece") == "Piece";
    assert ValidateInput("rateFor", "Weight") == "Weight";
  }

  /** The key handler sets a new mark only through Enter on a closed product cell
      whose product is empty or not in the catalogue; otherwise the marks are kept,
      or a row is appended with an empty slot. */
  lemma MarksOnlyUnlisted(products: seq<string>, st: GridState, key: Keyboard.Key, row: int, col: int)
    requires 0 <= row < |st.rows| && 0 <= col < |TableColumns()|
    ensures var ns := HandleTableKeyDown(st, products, key, row, col).state.notSelected;
            || ns == st.notSelected
            || ns == st.notSelected + [None]
            || (&& key == Keyboard.Enter && col == 1 && st.dropdownOpen != Some(row)
                && (st.rows[row].product == "" || st.rows[row].product !in products))
  {
    var cols := TableColumns();
    if IsProductDropdown(cols[col]) && st.dropdownOpen == Some(row)
       && (key == Keyboard.ArrowDown || key == Keyboard.ArrowUp || key == Keyboard.Enter) {
      if key == Keyboard.Enter {
        match Highlighted(products, st)
        case Some(p) =>
        case None =>
      }
    } else if key == Keyboard.Enter {
      GridColumnsFacts();
      assert cols[col].key == "product" ==> col == 1;
      assert IsProductDropdown(cols[1]);
    }
  }

  /** Nothing the key handler does clears a mark: once a row is flagged it stays
      flagged. */
  lemma MarksAreNeverCleared(products: seq<string>, st: GridState, key: Keyboard.Key, row: int, col: int, i: int)
    requires 0 <= row < |st.rows| && 0 <= col < |TableColumns()|
    requires 0 <= i < |st.notSelected| && st.notSelected[i] == Some(i)
    ensures var o := HandleTableKeyDown(st, products, key, row, col);
            i < |o.state.notSelected| && o.state.notSelected[i] == Some(i)
  {
  }
}
