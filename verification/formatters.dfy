/** Date and weight formatting of the grid (src/utils/formatters.ts). */
module Formatters {
  import opened Text
  import opened Validators
  import opened Numbers

  /** A `Date`, represented by the text its `toISOString()` produces. */
  datatype Date = Date(iso: string)

  lemma {:induction false} BeforeFirstOfPrefix(a: string, sep: char, b: string)
    requires sep !in a
    ensures BeforeFirst(a + [sep] + b, sep) == a
    decreases |a|
  {
    if a != [] {
      assert (a + [sep] + b)[1..] == a[1..] + [sep] + b;
      BeforeFirstOfPrefix(a[1..], sep, b);
      assert [a[0]] + a[1..] == a;
    } else {
      assert a + [sep] + b == [sep] + b;
    }
  }

  /** The part of `s` before the first `sep`: `s.split(sep)[0]`. */
  function BeforeFirst(s: string, sep: char): (r: string)
    ensures |r| <= |s| && r == s[..|r|]
    ensures sep !in r
    ensures |r| < |s| ==> s[|r|] == sep
  {
    if s == [] || s[0] == sep then [] else [s[0]] + BeforeFirst(s[1..], sep)
  }

  /** `formatDate(date)`: the empty string for `null`, else the calendar-date part
      of the ISO timestamp (everything before the `T`). */
  function FormatDate(date: Option<Date>): (r: string)
    ensures date.None? ==> r == ""
    ensures date.Some? ==> |r| <= |date.value.iso| && r == date.value.iso[..|r|] && 'T' !in r
    ensures date.Some? && |r| < |date.value.iso| ==> date.value.iso[|r|] == 'T'
  {
    match date
    case None => ""
    case Some(d) => BeforeFirst(d.iso, 'T')
  }

  /** An ISO timestamp `YYYY-MM-DDTHH:mm:ss.sssZ` formats to its ten-character date. */
  lemma FormatIsoDate(day: string, time: string)
    requires |day| == 10 && 'T' !in day
    ensures FormatDate(Some(Date(day + "T" + time))) == day
  {
    BeforeFirstOfPrefix(day, 'T', time);
  }

  /** The physical formula: width times length, divided by the gauge converted to a
      thickness (gauge / 3300), divided by 1000, times the number of pieces. */
  function ReqWgtValue(w: real, l: real, g: real, p: real): real
    requires g != 0.0
  {
    ((w * l) / (g / 3300.0) / 1000.0) * p
  }

  /** The same quantity with the constants folded: `3.3 * w * l * p / g`. */
  function ClosedForm(w: real, l: real, g: real, p: real): real
    requires g != 0.0
  {
    3.3 * w * l * p / g
  }

  /** The formula as written equals the folded form. */
  lemma ReqWgtValueClosedForm(w: real, l: real, g: real, p: real)
    requires g != 0.0
    ensures ReqWgtValue(w, l, g, p) == ClosedForm(w, l, g, p)
  {
    var t := g / 3300.0;
    assert t * 3300.0 == g;
    assert (w * l) / t == (w * l) * 3300.0 / g;
  }

  /** Over exact reals the formula is strictly positive on positive inputs. */
  lemma ReqWgtValuePositive(w: real, l: real, g: real, p: real)
    requires w > 0.0 && l > 0.0 && g > 0.0 && p > 0.0
    ensures ReqWgtValue(w, l, g, p) > 0.0
  {
    ReqWgtValueClosedForm(w, l, g, p);
    assert w * l > 0.0;
    assert w * l * p > 0.0;
  }

  predicate AllPositive(w: real, l: real, g: real, p: real) {
    w > 0.0 && l > 0.0 && g > 0.0 && p > 0.0
  }

  /** `a` is `b` rounded to the nearest thousandth. */
  predicate WithinHalfThousandth(a: real, b: real) {
    -0.0005 < a - b <= 0.0005
  }

  /** `calculateReqWgt(width, length, gauge, pieces)`: `"0.000"` unless all four
      parse to positive numbers; otherwise the formula printed with three decimals,
      which reads back to `3.3 * w * l * p / g` rounded to the nearest thousandth.
      The text is always a string of the weight column's three-decimal grammar. */
  function CalculateReqWgt(width: string, length: string, gauge: string, pieces: string): (r: string)
    ensures DecimalGrammar(r, 3)
    ensures !AllPositive(ParseOrZero(width), ParseOrZero(length), ParseOrZero(gauge), ParseOrZero(pieces))
            ==> r == "0.000"
    ensures AllPositive(ParseOrZero(width), ParseOrZero(length), ParseOrZero(gauge), ParseOrZero(pieces))
            ==> WithinHalfThousandth(ParseOrZero(r),
                  ClosedForm(ParseOrZero(width), ParseOrZero(length), ParseOrZero(gauge), ParseOrZero(pieces)))
  {
    var w := ParseOrZero(width);
    var l := ParseOrZero(length);
    var g := ParseOrZero(gauge);
    var p := ParseOrZero(pieces);
    if AllPositive(w, l, g, p) then
      var v := ReqWgtValue(w, l, g, p);
      ReqWgtValuePositive(w, l, g, p);
      ReqWgtValueClosedForm(w, l, g, p);
      ToFixed3RoundTrip(v);
      ToFixed3(v)
    else
      ZeroRendering();
      ToFixed3RoundTrip(0.0);
      "0.000"
  }

  /** On positive inputs the result reads back as a positive number whenever the
      exact weight is at least half a thousandth. */
  lemma ReqWgtPositiveReadsBack(width: string, length: string, gauge: string, pieces: string)
    requires AllPositive(ParseOrZero(width), ParseOrZero(length), ParseOrZero(gauge), ParseOrZero(pieces))
    requires ClosedForm(ParseOrZero(width), ParseOrZero(length), ParseOrZero(gauge), ParseOrZero(pieces)) >= 0.0005
    ensures ParseOrZero(CalculateReqWgt(width, length, gauge, pieces)) > 0.0
  {
  }

  /** Width and length play symmetric roles. */
  lemma ReqWgtSymmetric(width: string, length: string, gauge: string, pieces: string)
    ensures CalculateReqWgt(width, length, gauge, pieces) == CalculateReqWgt(length, width, gauge, pieces)
  {
    var w, l, g, p := ParseOrZero(width), ParseOrZero(length), ParseOrZero(gauge), ParseOrZero(pieces);
    if g != 0.0 {
      assert w * l == l * w;
      assert ReqWgtValue(w, l, g, p) == ReqWgtValue(l, w, g, p);
    }
  }

  /** An empty (unset) dimension yields `"0.000"`, whatever the others hold. */
  lemma ReqWgtEmptyField(a: string, b: string, c: string)
    ensures CalculateReqWgt("", a, b, c) == "0.000"
    ensures CalculateReqWgt(a, "", b, c) == "0.000"
    ensures CalculateReqWgt(a, b, "", c) == "0.000"
    ensures CalculateReqWgt(a, b, c, "") == "0.000"
  {
    ParseEdgeCases();
  }

  lemma ExampleParses()
    ensures ParseOrZero("10") == 10.0 && ParseOrZero("20") == 20.0
    ensures ParseOrZero("50") == 50.0 && ParseOrZero("100") == 100.0
  {
    ParseTwoDigits('1', '0');
    ParseTwoDigits('2', '0');
    ParseTwoDigits('5', '0');
    assert "100"[..2] == ['1', '0'];
    assert DigitsValue("100") == 100;
    ParseDigits("100");
  }

  lemma ParseTwoDigits(a: char, b: char)
    requires IsDigit(a) && IsDigit(b)
    ensures DigitsValue([a, b]) == DigitValue(a) * 10 + DigitValue(b)
    ensures ParseOrZero([a, b]) == (DigitValue(a) * 10 + DigitValue(b)) as real
  {
    assert [a, b][..1] == [a] && [a][..0] == [];
    assert DigitsValue([a]) == DigitValue(a);
    assert DigitsValue([a, b]) == DigitValue(a) * 10 + DigitValue(b);
    ParseDigits([a, b]);
  }

  lemma ExampleRendering()
    ensures ToFixed3(1320.0) == "1320.000"
  {
    assert Round3(1320.0) == 1320000;
    assert NatToString(1320) == "1320";
    assert Pad3(0) == "000";
  }

  /** Width 10, length 20, gauge 50 and 100 pieces: 200 / (50 / 3300) / 1000 * 100 = 1320. */
  lemma ReqWgtExample()
    ensures CalculateReqWgt("10", "20", "50", "100") == "1320.000"
  {
    ExampleParses();
    assert ReqWgtValue(10.0, 20.0, 50.0, 100.0) == 1320.0;
    ExampleRendering();
  }
}
