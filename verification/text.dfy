/** Small string utilities shared by the grid model: the optional-value wrapper,
    decimal digits, ASCII lower-casing, substring search, the search filter used by
    every dropdown, `String.prototype.trim` blank test and decimal rendering of
    natural numbers. */
module Text {

  /** The `T | null` and `T | undefined` values of the program. */
  datatype Option<+T> = None | Some(value: T)

  predicate IsDigit(c: char) {
    '0' <= c <= '9'
  }

  /** `^\d*$`: every character is a decimal digit (the empty string included). */
  predicate AllDigits(s: string) {
    forall i | 0 <= i < |s| :: IsDigit(s[i])
  }

  function DigitValue(c: char): (d: nat)
    requires IsDigit(c)
    ensures d < 10
  {
    (c as int) - ('0' as int)
  }

  function DigitChar(d: nat): (c: char)
    requires d < 10
    ensures IsDigit(c) && DigitValue(c) == d
  {
    (('0' as int) + d) as char
  }

  /** Decimal rendering of a natural number, most significant digit first, no leading zeros. */
  function NatToString(n: nat): (s: string)
    ensures |s| >= 1 && AllDigits(s)
    ensures |s| > 1 ==> s[0] != '0'
  {
    if n < 10 then [DigitChar(n)] else NatToString(n / 10) + [DigitChar(n % 10)]
  }

  /** `toLowerCase` on one character; only the ASCII letters are mapped. */
  function LowerChar(c: char): (r: char)
    ensures 'A' <= c <= 'Z' ==> r as int == c as int + 32
    ensures !('A' <= c <= 'Z') ==> r == c
  {
    if 'A' <= c <= 'Z' then ((c as int) + 32) as char else c
  }

  function Lower(s: string): (r: string)
    ensures |r| == |s|
    ensures forall i | 0 <= i < |s| :: r[i] == LowerChar(s[i])
  {
    seq(|s|, i requires 0 <= i < |s| => LowerChar(s[i]))
  }

  predicate OccursAt(hay: string, needle: string, k: nat) {
    k + |needle| <= |hay| && hay[k..k + |needle|] == needle
  }

  /** `hay.includes(needle)`. */
  predicate Contains(hay: string, needle: string) {
    exists k: nat | k <= |hay| :: OccursAt(hay, needle, k)
  }

  lemma EmptyIsContained(hay: string)
    ensures Contains(hay, "")
  {
    assert OccursAt(hay, "", 0);
  }

  /** The test every dropdown filter applies:
      `item.toLowerCase().includes(search.toLowerCase())`. */
  predicate MatchesSearch(item: string, search: string) {
    Contains(Lower(item), Lower(search))
  }

  /** `xs` occurs in `ys` in the same order, possibly with gaps. */
  predicate IsSubsequence<T(==)>(xs: seq<T>, ys: seq<T>)
    decreases |ys|
  {
    if xs == [] then true
    else if ys == [] then false
    else if xs[0] == ys[0] then IsSubsequence(xs[1..], ys[1..])
    else IsSubsequence(xs, ys[1..])
  }

  /** `items.filter(item => MatchesSearch(item, search))`. */
  function FilterBySearch(items: seq<string>, search: string): (r: seq<string>)
    ensures |r| <= |items|
    ensures forall x :: x in r <==> x in items && MatchesSearch(x, search)
    ensures forall x :: multiset(r)[x] == if MatchesSearch(x, search) then multiset(items)[x] else 0
    ensures IsSubsequence(r, items)
  {
    if items == [] then []
    else
      var rest := FilterBySearch(items[1..], search);
      assert items == [items[0]] + items[1..];
      if MatchesSearch(items[0], search) then [items[0]] + rest else rest
  }

  /** An empty search keeps every item, in order. */
  lemma {:induction false} FilterEmptySearch(items: seq<string>)
    ensures FilterBySearch(items, "") == items
  {
    if items != [] {
      EmptyIsContained(Lower(items[0]));
      assert Lower("") == "";
      FilterEmptySearch(items[1..]);
      assert [items[0]] + items[1..] == items;
    }
  }

  /** ECMAScript WhiteSpace and LineTerminator code points, the set `trim` removes. */
  predicate IsWhitespace(c: char) {
    c == '\t' || c == '\n' || c == '\U{000B}' || c == '\U{000C}' || c == '\r' || c == ' '
    || c == '\U{00A0}' || c == '\U{1680}' || ('\U{2000}' <= c <= '\U{200A}')
    || c == '\U{2028}' || c == '\U{2029}' || c == '\U{202F}' || c == '\U{205F}'
    || c == '\U{3000}' || c == '\U{FEFF}'
  }

  function TrimStart(s: string): (r: string)
    ensures |r| <= |s| && r == s[|s| - |r|..]
    ensures r != [] ==> !IsWhitespace(r[0])
  {
    if s != [] && IsWhitespace(s[0]) then TrimStart(s[1..]) else s
  }

  function TrimEnd(s: string): (r: string)
    ensures |r| <= |s| && r == s[..|r|]
    ensures r != [] ==> !IsWhitespace(r[|r| - 1])
  {
    if s != [] && IsWhitespace(s[|s| - 1]) then TrimEnd(s[..|s| - 1]) else s
  }

  /** `String.prototype.trim`. */
  function Trim(s: string): string {
    TrimEnd(TrimStart(s))
  }

  predicate IsBlank(s: string) {
    forall i | 0 <= i < |s| :: IsWhitespace(s[i])
  }

  lemma {:induction false} TrimStartEmptyIff(s: string)
    ensures TrimStart(s) == "" <==> IsBlank(s)
    decreases |s|
  {
    if s != [] {
      if IsWhitespace(s[0]) {
        TrimStartEmptyIff(s[1..]);
        if IsBlank(s[1..]) {
          forall i | 0 <= i < |s| ensures IsWhitespace(s[i]) {
            if i > 0 { assert s[i] == s[1..][i - 1]; }
          }
        }
      }
    }
  }

  lemma {:induction false} TrimEndEmptyIff(s: string)
    ensures TrimEnd(s) == "" <==> IsBlank(s)
    decreases |s|
  {
    if s != [] {
      var init := s[..|s| - 1];
      if IsWhitespace(s[|s| - 1]) {
        TrimEndEmptyIff(init);
        if IsBlank(init) {
          forall i | 0 <= i < |s| ensures IsWhitespace(s[i]) {
            if i < |s| - 1 { assert s[i] == init[i]; }
          }
        }
      }
    }
  }

  /** `s.trim() === ""` holds exactly when every character of `s` is white space. */
  lemma TrimEmptyIff(s: string)
    ensures Trim(s) == "" <==> IsBlank(s)
  {
    TrimStartEmptyIff(s);
    TrimEndEmptyIff(TrimStart(s));
  }
}
