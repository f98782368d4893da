/** The two number conversions the grid relies on, over exact reals:
    `parseFloat(s) || 0` on the decimal strings the validator admits, and
    `Number.prototype.toFixed(3)` (round to the nearest thousandth, ties to the larger
    candidate, as ECMA-262 specifies). */
module Numbers {
  import opened Text
  import opened Validators

  /** The value of a digit string read as a decimal integer. */
  function DigitsValue(s: string): nat
    requires AllDigits(s)
  {
    if s == [] then 0 else DigitsValue(s[..|s| - 1]) * 10 + DigitValue(s[|s| - 1])
  }

  /** The value `0.d1d2d3…` of the digits written after a decimal point. */
  function FractionValue(s: string): (v: real)
    requires AllDigits(s)
    ensures 0.0 <= v < 1.0
  {
    if s == [] then 0.0 else (DigitValue(s[0]) as real + FractionValue(s[1..])) / 10.0
  }

  /** The longest prefix of `s` made of digits. */
  function LeadingDigits(s: string): (r: string)
    ensures |r| <= |s| && r == s[..|r|]
    ensures AllDigits(r)
    ensures |r| < |s| ==> !IsDigit(s[|r|])
  {
    if s != [] && IsDigit(s[0]) then [s[0]] + LeadingDigits(s[1..]) else []
  }

  /** `parseFloat(s) || 0` for strings without leading white space, sign or exponent:
      the value of the longest prefix of the form `digits[.digits]`. Where `parseFloat`
      yields `NaN` (no digit at all: `""`, `"."`, `"abc"`) both parts are empty and the
      value is 0, as `|| 0` makes it. */
  function ParseOrZero(s: string): (v: real)
    ensures v >= 0.0
    ensures AllDigits(s) ==> v == DigitsValue(s) as real
    ensures forall k | PointAt(s, k, |s|) :: v == DigitsValue(s[..k]) as real + FractionValue(s[k + 1..])
  {
    var whole := LeadingDigits(s);
    var rest := s[|whole|..];
    var frac := if rest != [] && rest[0] == '.' then LeadingDigits(rest[1..]) else [];
    assert AllDigits(s) ==> whole == s by {
      if AllDigits(s) { LeadingDigitsUpTo(s, |s|); }
    }
    assert forall k | PointAt(s, k, |s|) :: whole == s[..k] && frac == s[k + 1..] by {
      forall k | PointAt(s, k, |s|)
        ensures whole == s[..k] && frac == s[k + 1..]
      {
        LeadingDigitsUpTo(s, k);
        assert s[k..][1..] == s[k + 1..];
        LeadingDigitsUpTo(s[k + 1..], |s| - (k + 1));
      }
    }
    DigitsValue(whole) as real + FractionValue(frac)
  }

  /** When `s` has digits up to `k` and no digit at `k`, its leading digits are `s[..k]`. */
  lemma {:induction false} LeadingDigitsUpTo(s: string, k: int)
    requires 0 <= k <= |s| && AllDigits(s[..k])
    requires k < |s| ==> !IsDigit(s[k])
    ensures LeadingDigits(s) == s[..k]
  {
  }

  /** On a digits-only string the parse is the exact integer value. */
  lemma ParseDigits(s: string)
    requires AllDigits(s)
    ensures ParseOrZero(s) == DigitsValue(s) as real
  {
  }

  /** On a string with its point at `k` the parse is the integer part plus the fraction. */
  lemma ParsePointAt(s: string, k: int, maxFrac: nat)
    requires PointAt(s, k, maxFrac)
    ensures ParseOrZero(s) == DigitsValue(s[..k]) as real + FractionValue(s[k + 1..])
  {
    assert PointAt(s, k, |s|);
  }

  /** `parseFloat(x) || 0` on the empty string, a lone point, a trailing point and a leading point. */
  lemma ParseEdgeCases()
    ensures ParseOrZero("") == 0.0
    ensures ParseOrZero(".") == 0.0
    ensures ParseOrZero("5.") == 5.0
    ensures ParseOrZero(".5") == 0.5
  {
    assert LeadingDigits("5.") == "5";
    assert DigitsValue("5") == 5;
    assert LeadingDigits(".5") == "";
    assert ".5"[1..] == "5";
    assert LeadingDigits("5") == "5";
    assert FractionValue("5") == 0.5;
  }

  /** The `n` of `toFixed(3)` for a non-negative `x`: the integer for which `n / 1000`
      is closest to `x`, the larger one on a tie. */
  function Round3(x: real): (n: nat)
    requires x >= 0.0
    ensures (n as real) - 0.5 <= x * 1000.0 < (n as real) + 0.5
  {
    (x * 1000.0 + 0.5).Floor
  }

  /** Three digits of a number below 1000, with leading zeros. */
  function Pad3(r: nat): (s: string)
    requires r < 1000
    ensures |s| == 3 && AllDigits(s)
  {
    [DigitChar(r / 100), DigitChar((r / 10) % 10), DigitChar(r % 10)]
  }

  function FixedUnsigned(x: real): string
    requires x >= 0.0
  {
    var n := Round3(x);
    NatToString(n / 1000) + "." + Pad3(n % 1000)
  }

  /** `x.toFixed(3)` for `|x| < 1e21`: sign, integer digits, point, three digits. */
  function ToFixed3(x: real): string {
    if x < 0.0 then "-" + FixedUnsigned(-x) else FixedUnsigned(x)
  }

  lemma {:induction false} DigitsValueOfNatToString(n: nat)
    ensures DigitsValue(NatToString(n)) == n
  {
    var s := NatToString(n);
    if n >= 10 {
      DigitsValueOfNatToString(n / 10);
      assert s[..|s| - 1] == NatToString(n / 10);
    }
  }

  lemma FractionValueOfPad3(r: nat)
    requires r < 1000
    ensures FractionValue(Pad3(r)) == (r as real) / 1000.0
  {
    var p := Pad3(r);
    var a, b, c := r / 100, (r / 10) % 10, r % 10;
    assert p[1..][1..][1..] == [];
    assert FractionValue(p[1..][1..]) == (c as real) / 10.0;
    assert FractionValue(p[1..]) == ((b as real) + (c as real) / 10.0) / 10.0;
    assert FractionValue(p) == ((a as real) + ((b as real) + (c as real) / 10.0) / 10.0) / 10.0;
    assert r == 100 * a + 10 * b + c;
  }

  lemma {:induction false} LeadingDigitsOfDigitsPrefix(a: string, t: string)
    requires AllDigits(a)
    ensures LeadingDigits(a + t) == a + LeadingDigits(t)
    decreases |a|
  {
    if a != [] {
      assert (a + t)[1..] == a[1..] + t;
      LeadingDigitsOfDigitsPrefix(a[1..], t);
      assert [a[0]] + (a[1..] + LeadingDigits(t)) == a + LeadingDigits(t);
    } else {
      assert a + t == t;
    }
  }

  lemma LeadingDigitsBeforePoint(a: string, b: string)
    requires AllDigits(a)
    ensures LeadingDigits(a + "." + b) == a
  {
    assert a + "." + b == a + ("." + b);
    LeadingDigitsOfDigitsPrefix(a, "." + b);
    assert LeadingDigits("." + b) == [];
  }

  /** Reading back what `toFixed(3)` printed gives the rounded value `n / 1000`,
      within half a thousandth of the number printed, and the text is a
      three-decimal string of the weight column's grammar. */
  lemma ToFixed3RoundTrip(x: real)
    requires x >= 0.0
    ensures ParseOrZero(ToFixed3(x)) == (Round3(x) as real) / 1000.0
    ensures -0.0005 < ParseOrZero(ToFixed3(x)) - x <= 0.0005
    ensures DecimalGrammar(ToFixed3(x), 3)
  {
    var n := Round3(x);
    var a := NatToString(n / 1000);
    var b := Pad3(n % 1000);
    var s := a + "." + b;
    assert ToFixed3(x) == s;
    LeadingDigitsBeforePoint(a, b);
    assert s[|a|..] == "." + b;
    assert ("." + b)[1..] == b;
    assert LeadingDigits(b) == b;
    DigitsValueOfNatToString(n / 1000);
    FractionValueOfPad3(n % 1000);
    assert n == (n / 1000) * 1000 + n % 1000;
    assert ParseOrZero(s) == ((n / 1000) as real) + ((n % 1000) as real) / 1000.0;
    assert s[..|a|] == a && s[|a| + 1..] == b;
    assert PointAt(s, |a|, 3);
  }

  /** The literal `"0.000"` that the weight calculation returns is what `(0).toFixed(3)` prints. */
  lemma ZeroRendering()
    ensures ToFixed3(0.0) == "0.000"
  {
  }
}
