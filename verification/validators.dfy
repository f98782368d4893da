/** The per-keystroke field validator of the product grid (src/utils/validators.ts).
    Each numeric column admits a whole-string lexical grammar; a value that does not
    match it is replaced by the empty string. */
module Validators {
  import opened Text

  /** The four lexical grammars a column can have. */
  datatype Grammar = Decimal2 | DigitsOnly | Decimal3 | FreeText

  /** A decimal point at index `k`, digits before it and at most `maxFrac` digits after it. */
  predicate PointAt(s: string, k: int, maxFrac: nat) {
    && 0 <= k < |s|
    && s[k] == '.'
    && AllDigits(s[..k])
    && AllDigits(s[k + 1..])
    && |s| - (k + 1) <= maxFrac
  }

  /** `^\d*(\.\d{0,maxFrac})?$`: digits, optionally followed by a point and up to
      `maxFrac` further digits. */
  predicate DecimalGrammar(s: string, maxFrac: nat) {
    AllDigits(s) || exists k | 0 <= k < |s| :: PointAt(s, k, maxFrac)
  }

  predicate Accepts(g: Grammar, s: string) {
    match g
    case Decimal2 => DecimalGrammar(s, 2)
    case DigitsOnly => AllDigits(s)
    case Decimal3 => DecimalGrammar(s, 3)
    case FreeText => true
  }

  /** Which grammar the validator applies to a field name; names it does not know are free text. */
  function GrammarOf(field: string): Grammar {
    if field in ["width", "length", "flop", "rate"] then Decimal2
    else if field in ["gauge", "pieces"] then DigitsOnly
    else if field == "weight" then Decimal3
    else FreeText
  }

  /** `validateInput(field, value)`: the switch over field names. The result is the
      input when it matches the field's grammar and the empty string otherwise, so it
      always matches the grammar itself. */
  function ValidateInput(field: string, value: string): (r: string)
    ensures r == value || r == ""
    ensures Accepts(GrammarOf(field), value) ==> r == value
    ensures !Accepts(GrammarOf(field), value) ==> r == ""
    ensures Accepts(GrammarOf(field), r)
  {
    if field == "width" || field == "length" || field == "flop" || field == "rate" then
      if DecimalGrammar(value, 2) then value else ""
    else if field == "gauge" || field == "pieces" then
      if AllDigits(value) then value else ""
    else if field == "weight" then
      if DecimalGrammar(value, 3) then value else ""
    else if field == "product" || field == "remarks" || field == "rateFor" then
      value
    else
      value
  }

  /** `RegExp.prototype.test` for `^\d*(\.\d{0,maxFrac})?$`, as a left-to-right scan:
      the integer digits, then at most one point, then the fraction digits. */
  method TestDecimal(s: string, maxFrac: nat) returns (ok: bool)
    ensures ok <==> DecimalGrammar(s, maxFrac)
  {
    var i := 0;
    while i < |s| && IsDigit(s[i])
      invariant 0 <= i <= |s|
      invariant forall m | 0 <= m < i :: IsDigit(s[m])
    {
      i := i + 1;
    }
    if i == |s| {
      return true;
    }
    // s[i] is the first character that is not a digit: any point must sit exactly there
    assert !AllDigits(s);
    forall k | 0 <= k < |s| && PointAt(s, k, maxFrac) ensures k == i {
    }
    if s[i] != '.' {
      return false;
    }
    assert AllDigits(s[..i]);
    var j := i + 1;
    while j < |s| && IsDigit(s[j])
      invariant i + 1 <= j <= |s|
      invariant forall m | i + 1 <= m < j :: IsDigit(s[m])
    {
      j := j + 1;
    }
    if j == |s| {
      assert AllDigits(s[i + 1..]);
      ok := |s| - (i + 1) <= maxFrac;
      if ok {
        assert PointAt(s, i, maxFrac);
      }
    } else {
      assert s[i + 1..][j - (i + 1)] == s[j];
      assert !PointAt(s, i, maxFrac);
      ok := false;
    }
  }

  /** The empty string is accepted by every grammar. */
  lemma EmptyAccepted(g: Grammar)
    ensures Accepts(g, "")
  {
  }

  /** `validateInput(f, validateInput(f, v)) == validateInput(f, v)` for every field. */
  lemma ValidateIdempotent(field: string, value: string)
    ensures ValidateInput(field, ValidateInput(field, value)) == ValidateInput(field, value)
  {
  }

  /** A digits-only string is a `Decimal2` value, and a `Decimal2` value is a `Decimal3` value. */
  lemma GrammarNesting(s: string)
    ensures AllDigits(s) ==> DecimalGrammar(s, 2)
    ensures DecimalGrammar(s, 2) ==> DecimalGrammar(s, 3)
  {
    if DecimalGrammar(s, 2) && !AllDigits(s) {
      var k :| 0 <= k < |s| && PointAt(s, k, 2);
      assert PointAt(s, k, 3);
    }
  }

  /** A lone point and a trailing point are accepted by both decimal grammars; a third
      fractional digit is accepted only by `Decimal3`. */
  lemma DecimalEdgeCases()
    ensures DecimalGrammar(".", 2) && DecimalGrammar(".", 3)
    ensures DecimalGrammar("5.", 2) && DecimalGrammar("5.", 3)
    ensures DecimalGrammar("1.234", 3) && !DecimalGrammar("1.234", 2)
    ensures !AllDigits("5.")
  {
    assert PointAt(".", 0, 2) && PointAt(".", 0, 3);
    assert PointAt("5.", 1, 2) && PointAt("5.", 1, 3);
    assert PointAt("1.234", 1, 3);
    assert "1.234"[1..] == ".234";
    assert "1.234"[2..] == "234";
    forall k | 0 <= k < 5 ensures !PointAt("1.234", k, 2) {
      if k != 1 {
        assert "1.234"[..k] == "1.234"[..k];
      }
    }
    assert !IsDigit("1.234"[1]);
  }

  /** A second point, a sign or a letter makes every numeric grammar reject the string. */
  lemma DecimalRejections()
    ensures !DecimalGrammar("1.2.3", 3)
    ensures !DecimalGrammar("-1", 3)
    ensures !AllDigits("12a")
  {
    var s := "1.2.3";
    assert !IsDigit(s[1]) && !IsDigit(s[3]);
    forall k | 0 <= k < |s| ensures !PointAt(s, k, 3) {
      if k == 1 {
        assert s[k + 1..][1] == s[3];
      } else if k == 3 {
        assert s[..k][1] == s[1];
      }
    }
    assert !IsDigit("-1"[0]);
    assert !IsDigit("12a"[2]);
  }
}
