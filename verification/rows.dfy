/** The line items of the order grid (src/types/index.ts `Row`) and the row-table
    operations of the `useProductTable` hook (src/hooks/useProductTable.ts): the
    empty template row, the initial table, appending a row and editing one cell. */
module Rows {
  import opened Text
  import opened Validators
  import opened Numbers
  import opened Formatters

  /** One line item. Every cell is kept as the text the user typed. */
  datatype Row = Row(
    sno: int,
    autoIncrement: Option<int>,
    product: string,
    width: string,
    length: string,
    flop: string,
    gauge: string,
    remarks: string,
    pieces: string,
    weight: string,
    reqWgt: string,
    rateFor: string,
    rate: string)

  /** The editable keys of a row: `keyof Omit<Row, "sno" | "autoIncrement">`. */
  datatype Field = Product | Width | Length | Flop | Gauge | Remarks | Pieces | Weight | ReqWgt | RateFor | Rate

  /** The property name of a field, as the validator receives it. */
  function Key(f: Field): string {
    match f
    case Product => "product"
    case Width => "width"
    case Length => "length"
    case Flop => "flop"
    case Gauge => "gauge"
    case Remarks => "remarks"
    case Pieces => "pieces"
    case Weight => "weight"
    case ReqWgt => "reqWgt"
    case RateFor => "rateFor"
    case Rate => "rate"
  }

  function Get(r: Row, f: Field): string {
    match f
    case Product => r.product
    case Width => r.width
    case Length => r.length
    case Flop => r.flop
    case Gauge => r.gauge
    case Remarks => r.remarks
    case Pieces => r.pieces
    case Weight => r.weight
    case ReqWgt => r.reqWgt
    case RateFor => r.rateFor
    case Rate => r.rate
  }

  /** `row[field] = value`: the one cell changes, every other cell is kept. */
  function Set(r: Row, f: Field, v: string): (r': Row)
    ensures Get(r', f) == v
    ensures forall g :: g != f ==> Get(r', g) == Get(r, g)
    ensures r'.sno == r.sno && r'.autoIncrement == r.autoIncrement
  {
    match f
    case Product => r.(product := v)
    case Width => r.(width := v)
    case Length => r.(length := v)
    case Flop => r.(flop := v)
    case Gauge => r.(gauge := v)
    case Remarks => r.(remarks := v)
    case Pieces => r.(pieces := v)
    case Weight => r.(weight := v)
    case ReqWgt => r.(reqWgt := v)
    case RateFor => r.(rateFor := v)
    case Rate => r.(rate := v)
  }

  /** `{ sno, ...emptyRow }`: all cells blank except the rate basis, which is per piece. */
  function EmptyRow(sno: int): (r: Row)
    ensures r.sno == sno && r.autoIncrement == None
    ensures forall f :: f != RateFor ==> Get(r, f) == ""
    ensures r.rateFor == "Piece"
  {
    Row(sno, None, "", "", "", "", "", "", "", "", "", "Piece", "")
  }

  /** `Array.from({ length: n }, (_, i) => ({ sno: i + 1, ...emptyRow }))`. */
  function InitialRows(n: nat): (rows: seq<Row>)
    ensures |rows| == n
    ensures forall i | 0 <= i < n :: rows[i] == EmptyRow(i + 1)
  {
    if n == 0 then [] else InitialRows(n - 1) + [EmptyRow(n)]
  }

  /** `addRow`: append one empty row numbered after the last one. */
  function AddRow(rows: seq<Row>): (r: seq<Row>)
    ensures |r| == |rows| + 1
    ensures r[..|rows|] == rows
    ensures r[|rows|] == EmptyRow(|rows| + 1)
  {
    rows + [EmptyRow(|rows| + 1)]
  }

  /** The fields whose change recomputes the required weight. */
  predicate IsDimension(f: Field) {
    f == Width || f == Length || f == Gauge || f == Pieces
  }

  /** `handleChange(index, field, value)`: the validated value goes into the one
      cell; when that cell is a dimension the row's required weight is recomputed
      from the updated row. Other rows, other cells, the serial number and the
      stored identifier are unchanged. */
  function HandleChange(rows: seq<Row>, index: int, f: Field, value: string): (r: seq<Row>)
    requires 0 <= index < |rows|
    ensures |r| == |rows|
    ensures forall j | 0 <= j < |rows| && j != index :: r[j] == rows[j]
    ensures Get(r[index], f) == ValidateInput(Key(f), value)
    ensures forall g :: g != f && g != ReqWgt ==> Get(r[index], g) == Get(rows[index], g)
    ensures r[index].sno == rows[index].sno && r[index].autoIncrement == rows[index].autoIncrement
    ensures IsDimension(f) ==>
              r[index].reqWgt == CalculateReqWgt(r[index].width, r[index].length, r[index].gauge, r[index].pieces)
    ensures !IsDimension(f) && f != ReqWgt ==> r[index].reqWgt == rows[index].reqWgt
  {
    var row := Set(rows[index], f, ValidateInput(Key(f), value));
    var row' := if IsDimension(f) then row.(reqWgt := CalculateReqWgt(row.width, row.length, row.gauge, row.pieces))
                else row;
    rows[index := row']
  }

  /** Every cell matches the grammar the validator gives its column. */
  predicate WellFormed(r: Row) {
    forall f :: Accepts(GrammarOf(Key(f)), Get(r, f))
  }

  /** The required weight is the one the row's dimensions give, or still the blank
      of the template row while none of the four dimensions has been entered. */
  predicate ReqWgtConsistent(r: Row) {
    || r.reqWgt == CalculateReqWgt(r.width, r.length, r.gauge, r.pieces)
    || (r.reqWgt == "" && r.width == "" && r.length == "" && r.gauge == "" && r.pieces == "")
  }

  /** Serial numbers are 1, 2, ..., n in table order. */
  predicate DenseSno(rows: seq<Row>) {
    forall i | 0 <= i < |rows| :: rows[i].sno == i + 1
  }

  predicate ValidTable(rows: seq<Row>) {
    && DenseSno(rows)
    && forall i | 0 <= i < |rows| :: WellFormed(rows[i]) && ReqWgtConsistent(rows[i])
  }

  lemma EmptyRowValid(sno: int)
    ensures WellFormed(EmptyRow(sno)) && ReqWgtConsistent(EmptyRow(sno))
  {
    var r := EmptyRow(sno);
    forall f ensures Accepts(GrammarOf(Key(f)), Get(r, f)) {
      EmptyAccepted(GrammarOf(Key(f)));
      if f == RateFor {
        assert GrammarOf("rateFor") == FreeText;
      }
    }
  }

  /** The initial table satisfies the table invariant. */
  lemma InitialRowsValid(n: nat)
    ensures ValidTable(InitialRows(n))
  {
    var rows := InitialRows(n);
    forall i | 0 <= i < n ensures WellFormed(rows[i]) && ReqWgtConsistent(rows[i]) {
      EmptyRowValid(i + 1);
    }
  }

  /** `addRow` keeps serial numbers dense and every row well formed. */
  lemma AddRowPreservesValid(rows: seq<Row>)
    requires ValidTable(rows)
    ensures ValidTable(AddRow(rows))
  {
    var r := AddRow(rows);
    EmptyRowValid(|rows| + 1);
    forall i | 0 <= i < |r| ensures r[i].sno == i + 1 && WellFormed(r[i]) && ReqWgtConsistent(r[i]) {
      if i < |rows| {
        assert r[i] == r[..|rows|][i] == rows[i];
      }
    }
  }

  /** A row edited the way `handleChange` edits it keeps every cell valid. */
  lemma EditedRowWellFormed(old_: Row, new_: Row, f: Field, value: string)
    requires WellFormed(old_) && f != ReqWgt
    requires Get(new_, f) == ValidateInput(Key(f), value)
    requires forall g :: g != f && g != ReqWgt ==> Get(new_, g) == Get(old_, g)
    ensures WellFormed(new_)
  {
    forall g ensures Accepts(GrammarOf(Key(g)), Get(new_, g)) {
      if g == f {
      } else if g == ReqWgt {
        assert GrammarOf("reqWgt") == FreeText;
      } else {
        assert Get(new_, g) == Get(old_, g);
      }
    }
  }

  /** A row edited the way `handleChange` edits it keeps its required weight
      consistent with its dimensions. */
  lemma EditedRowConsistent(old_: Row, new_: Row, f: Field)
    requires ReqWgtConsistent(old_) && f != ReqWgt
    requires forall g :: g != f && g != ReqWgt ==> Get(new_, g) == Get(old_, g)
    requires IsDimension(f) ==> new_.reqWgt == CalculateReqWgt(new_.width, new_.length, new_.gauge, new_.pieces)
    requires !IsDimension(f) ==> new_.reqWgt == old_.reqWgt
    ensures ReqWgtConsistent(new_)
  {
    if !IsDimension(f) {
      assert Get(new_, Width) == Get(old_, Width) && Get(new_, Length) == Get(old_, Length);
      assert Get(new_, Gauge) == Get(old_, Gauge) && Get(new_, Pieces) == Get(old_, Pieces);
    }
  }

  /** Editing a cell through `handleChange` keeps the table invariant, for every
      field the grid can edit (the required-weight column is read-only). */
  lemma HandleChangePreservesValid(rows: seq<Row>, index: int, f: Field, value: string)
    requires 0 <= index < |rows|
    requires ValidTable(rows)
    requires f != ReqWgt
    ensures ValidTable(HandleChange(rows, index, f, value))
  {
    var r := HandleChange(rows, index, f, value);
    EditedRowWellFormed(rows[index], r[index], f, value);
    EditedRowConsistent(rows[index], r[index], f);
    forall i | 0 <= i < |r| ensures r[i].sno == i + 1 && WellFormed(r[i]) && ReqWgtConsistent(r[i]) {
      if i != index {
        assert r[i] == rows[i];
      }
    }
  }

  /** Entering the same value twice has the effect of entering it once. */
  lemma HandleChangeIdempotent(rows: seq<Row>, index: int, f: Field, value: string)
    requires 0 <= index < |rows|
    ensures HandleChange(HandleChange(rows, index, f, value), index, f, value) == HandleChange(rows, index, f, value)
  {
    var once := HandleChange(rows, index, f, value);
    var twice := HandleChange(once, index, f, value);
    forall g ensures Get(twice[index], g) == Get(once[index], g) {
    }
    assert twice[index] == once[index];
    assert twice == once;
  }
}
