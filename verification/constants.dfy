/** The static tables of the job-order form (src/constants/index.ts): the grid's
    column list, the header form's field list and the fixed option lists. Only the
    parts the navigation and validation depend on are kept (keys, headers, input
    kinds, read-only flags, options); CSS widths and alignment are not. */
module Constants {
  import opened Text

  /** The `type` of a grid column. */
  datatype ColumnKind = TextCell | SelectCell | DropdownCell

  datatype Column = Column(key: string, header: string, kind: Option<ColumnKind>, readOnly: bool,
                           options: Option<seq<string>>)

  /** The `type` of a header form field. */
  datatype FieldKind = TextField | DateField | DropdownField

  datatype FormField = FormField(caption: string, key: string, kind: FieldKind, options: Option<seq<string>>)

  const MeasurementOptions: seq<string> := ["CM", "INCH"]
  const RateForOptions: seq<string> := ["Piece", "Weight"]

  function Keys(cols: seq<Column>): (ks: seq<string>)
    ensures |ks| == |cols|
    ensures forall i | 0 <= i < |cols| :: ks[i] == cols[i].key
  {
    seq(|cols|, i requires 0 <= i < |cols| => cols[i].key)
  }

  /** `tableColumns`: twelve columns; only the serial number and the computed
      required weight are read-only; the product column is the dropdown at index 1
      and the rate-basis column is the select at index 10. */
  function TableColumns(): (cols: seq<Column>)
    ensures |cols| == 12
    ensures forall i | 0 <= i < |cols| :: cols[i].readOnly <==> i == 0 || i == 9
    ensures cols[1].key == "product" && cols[1].kind == Some(DropdownCell) && cols[1].options == None
    ensures cols[10].key == "rateFor" && cols[10].kind == Some(SelectCell)
            && cols[10].options == Some(RateForOptions)
    ensures forall i | 0 <= i < |cols| && i != 1 :: cols[i].kind != Some(DropdownCell)
  {
    [ Column("sno", "SNO", None, true, None),
      Column("product", "PRODUCT", Some(DropdownCell), false, None),
      Column("width", "WIDTH", Some(TextCell), false, None),
      Column("length", "LENGTH", Some(TextCell), false, None),
      Column("flop", "FLOP", Some(TextCell), false, None),
      Column("gauge", "GAUGE", Some(TextCell), false, None),
      Column("remarks", "REMARKS", Some(TextCell), false, None),
      Column("pieces", "PIECES", Some(TextCell), false, None),
      Column("weight", "WEIGHT", Some(TextCell), false, None),
      Column("reqWgt", "REQ WGT", Some(TextCell), true, None),
      Column("rateFor", "RATE FOR", Some(SelectCell), false, Some(RateForOptions)),
      Column("rate", "RATE", Some(TextCell), false, None) ]
  }

  const ColumnKeys: seq<string> :=
    ["sno", "product", "width", "length", "flop", "gauge", "remarks",
     "pieces", "weight", "reqWgt", "rateFor", "rate"]

  /** The column keys, in display order. */
  lemma ColumnOrder()
    ensures Keys(TableColumns()) == ColumnKeys
  {
  }

  /** `formFields`: the header form in tab order; only the measurement dropdown
      carries a fixed option list (the customer list is loaded at run time). */
  function FormFields(): (fs: seq<FormField>)
    ensures |fs| == 7
    ensures forall i | 0 <= i < |fs| :: fs[i].options.Some? <==> fs[i].key == "measurement"
    ensures forall i | 0 <= i < |fs| :: fs[i].key == "measurement" ==> fs[i].options == Some(["CM", "INCH"])
    ensures forall i | 0 <= i < |fs| :: fs[i].kind == DateField <==> i in {1, 4, 5}
  {
    [ FormField("ORDER NO", "orderNo", TextField, None),
      FormField("ORDER DATE", "orderDate", DateField, None),
      FormField("CUSTOMER", "customer", DropdownField, None),
      FormField("P.O.NO", "poNo", TextField, None),
      FormField("P.O.DATE", "poDate", DateField, None),
      FormField("DUE DATE", "dueDate", DateField, None),
      FormField("MEASUREMENT", "measurement", DropdownField, Some(MeasurementOptions)) ]
  }

  lemma FormFieldOrder()
    ensures seq(7, i requires 0 <= i < 7 => FormFields()[i].key)
            == ["orderNo", "orderDate", "customer", "poNo", "poDate", "dueDate", "measurement"]
  {
  }

  /** `columns.findIndex(col => col.key === key)`: the first index holding `key`, or -1. */
  function FindIndex(cols: seq<Column>, key: string): (r: int)
    ensures -1 <= r < |cols|
    ensures r == -1 <==> key !in Keys(cols)
    ensures r >= 0 ==> cols[r].key == key && forall j | 0 <= j < r :: cols[j].key != key
  {
    if cols == [] then -1
    else if cols[0].key == key then 0
    else
      var r := FindIndex(cols[1..], key);
      assert Keys(cols) == [cols[0].key] + Keys(cols[1..]);
      if r == -1 then -1 else r + 1
  }

  /** `findIndex` returns the position of the first occurrence. */
  lemma FindIndexAt(cols: seq<Column>, key: string, i: int)
    requires 0 <= i < |cols| && cols[i].key == key
    requires forall j | 0 <= j < i :: cols[j].key != key
    ensures FindIndex(cols, key) == i
  {
    assert Keys(cols)[i] == key;
  }

  lemma KeyIndex(key: string, i: int)
    requires 0 <= i < 12
    requires ColumnKeys[i] == key
    requires forall j | 0 <= j < i :: ColumnKeys[j] != key
    ensures FindIndex(TableColumns(), key) == i
  {
    ColumnOrder();
    FindIndexAt(TableColumns(), key, i);
  }

  lemma KeysAreDistinct()
    ensures forall j | 0 <= j < 8 :: ColumnKeys[j] != "weight"
    ensures forall j | 0 <= j < 10 :: ColumnKeys[j] != "rateFor"
    ensures forall j | 0 <= j < 11 :: ColumnKeys[j] != "rate"
  {
  }

  /** Where the grid looks up its named columns. */
  lemma NamedColumnIndices()
    ensures FindIndex(TableColumns(), "product") == 1
    ensures FindIndex(TableColumns(), "weight") == 8
    ensures FindIndex(TableColumns(), "rateFor") == 10
    ensures FindIndex(TableColumns(), "rate") == 11
  {
    KeysAreDistinct();
    KeyIndex("product", 1);
    KeyIndex("weight", 8);
    KeyIndex("rateFor", 10);
    KeyIndex("rate", 11);
  }
}
