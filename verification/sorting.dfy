/** Sorting by a column: the header click toggle (script.js lines 572-576)
    and the comparison `compareCells` (lines 343-354) chooses for two
    cells. The order the comparison finally yields rests on `localeCompare`
    and `parseFloat`, so a comparison is modelled by the branch it takes and
    the values that branch compares. */
module Sorting {
  import opened Strings
  import opened Values
  import opened DateParse

  /** `SORT`: the sorted column and the direction, 1 ascending, -1
      descending. */
  datatype SortSpec = SortSpec(col: int, dir: int)

  /** The sort after a click on the header of column `col`. */
  function Clicked(sort: Option<SortSpec>, col: int): (r: SortSpec)
    ensures r.col == col
    ensures r.dir == 1 || r.dir == -1
  {
    if sort.None? || sort.value.col != col then SortSpec(col, 1)
    else SortSpec(col, if sort.value.dir == 1 then -1 else 1)
  }

  /** A click on another column (or the first click) sorts ascending; a
      click on the sorted column reverses its direction. */
  lemma ClickedDirection(sort: Option<SortSpec>, col: int)
    ensures sort.None? || sort.value.col != col ==> Clicked(sort, col).dir == 1
    ensures sort.Some? && sort.value.col == col && (sort.value.dir == 1 || sort.value.dir == -1) ==>
              Clicked(sort, col).dir == -sort.value.dir
  {
  }

  /** Two clicks on the sorted column give back the sort it had. */
  lemma ClickTwiceRestores(s: SortSpec)
    requires s.dir == 1 || s.dir == -1
    ensures Clicked(Some(Clicked(Some(s), s.col)), s.col) == s
  {
    ClickedDirection(Some(s), s.col);
  }

  // ---------- The number pattern `^-?\d+([.,]\d+)?$` ----------

  predicate IsDecimalMark(c: char) {
    c == '.' || c == ','
  }

  /** The text without a leading minus sign. */
  function Unsigned(t: string): string {
    if t != [] && t[0] == '-' then t[1..] else t
  }

  /** `numRe.test(t)`: the leading digit run is maximal, so after it comes
      the end of the text or a decimal mark and at least one further digit
      up to the end. */
  predicate IsNumeric(t: string) {
    var a := Unsigned(t);
    var n := RunLen(a);
    && n >= 1
    && (n == |a| || (IsDecimalMark(a[n]) && n + 1 < |a| && AllDigits(a[n + 1..])))
  }

  /** The fraction part of a number text: the mark and its digits. */
  datatype Fraction = NoFraction | Fraction(mark: char, digits: string)

  function FractionText(frac: Fraction): string {
    match frac
    case NoFraction => ""
    case Fraction(m, ds) => [m] + ds
  }

  /** A number text assembled from its parts. */
  function NumberText(negative: bool, whole: string, frac: Fraction): string {
    (if negative then "-" else "") + whole + FractionText(frac)
  }

  /** The parts the pattern describes. */
  predicate NumberParts(whole: string, frac: Fraction) {
    && whole != [] && AllDigits(whole)
    && (frac.Fraction? ==> IsDecimalMark(frac.mark) && frac.digits != [] && AllDigits(frac.digits))
  }

  /** Every text assembled from such parts passes the test. */
  lemma NumberTextIsNumeric(negative: bool, whole: string, frac: Fraction)
    requires NumberParts(whole, frac)
    ensures IsNumeric(NumberText(negative, whole, frac))
  {
    var rest := FractionText(frac);
    var t := NumberText(negative, whole, frac);
    assert Unsigned(t) == whole + rest by {
      if negative {
        assert t == "-" + (whole + rest);
      } else {
        assert t == whole + rest;
      }
    }
    RunLenOfDigitsThen(whole, rest);
    if frac.Fraction? {
      assert (whole + rest)[|whole| + 1..] == frac.digits;
    }
  }

  /** And every text that passes the test is assembled from such parts:
      these are its parts. */
  function PartsOf(t: string): (p: (bool, string, Fraction))
    requires IsNumeric(t)
    ensures NumberParts(p.1, p.2) && t == NumberText(p.0, p.1, p.2)
  {
    var negative := t != [] && t[0] == '-';
    var a := Unsigned(t);
    var n := RunLen(a);
    var whole := a[..n];
    var frac := if n == |a| then NoFraction else Fraction(a[n], a[n + 1..]);
    assert NumberParts(whole, frac);
    assert a == whole + FractionText(frac) by {
      if n == |a| {
        assert a == whole + "";
      } else {
        assert a == whole + ([a[n]] + a[n + 1..]);
      }
    }
    assert negative ==> t == "-" + a;
    (negative, whole, frac)
  }

  /** The text of every integer passes the test. */
  lemma IntegerTextIsNumeric(n: int)
    ensures IsNumeric(IntToString(n))
  {
    if n < 0 {
      NumberTextIsNumeric(true, NatToString(-n), NoFraction);
      assert NumberText(true, NatToString(-n), NoFraction) == "-" + NatToString(-n);
    } else {
      NumberTextIsNumeric(false, NatToString(n), NoFraction);
      assert NumberText(false, NatToString(n), NoFraction) == NatToString(n);
    }
  }

  /** `s.replace(',', '.')`: a string pattern replaces its first occurrence
      only. */
  function ReplaceFirstComma(s: string): (r: string)
    ensures |r| == |s|
    ensures forall i :: 0 <= i < |s| ==> r[i] == (if s[i] == ',' && ',' !in s[..i] then '.' else s[i])
  {
    if s == [] then []
    else if s[0] == ',' then
      assert forall i :: 1 <= i < |s| ==> ',' in s[..i] by {
        forall i | 1 <= i < |s| ensures ',' in s[..i] { assert s[..i][0] == ','; }
      }
      "." + s[1..]
    else
      var rest := ReplaceFirstComma(s[1..]);
      forall i | 1 <= i < |s| ensures (',' in s[..i]) == (',' in s[1..][..i - 1]) {
        assert s[..i] == [s[0]] + s[1..][..i - 1];
      }
      [s[0]] + rest
  }

  /** A text without a comma is left as it is. */
  lemma NoCommaUnchanged(s: string)
    requires ',' !in s
    ensures ReplaceFirstComma(s) == s
  {
  }

  /** The replacement leaves a comma-free prefix alone. */
  lemma {:induction false} ReplaceAfter(p: string, s: string)
    requires ',' !in p
    ensures ReplaceFirstComma(p + s) == p + ReplaceFirstComma(s)
  {
    if p != [] {
      assert (p + s)[1..] == p[1..] + s;
      ReplaceAfter(p[1..], s);
      assert p == [p[0]] + p[1..];
    } else {
      assert p + s == s;
    }
  }

  lemma DigitsHaveNoComma(s: string)
    requires AllDigits(s)
    ensures ',' !in s
  {
  }

  /** The fraction with a point for its mark. */
  function Dotted(frac: Fraction): Fraction {
    match frac
    case NoFraction => NoFraction
    case Fraction(_, ds) => Fraction('.', ds)
  }

  /** The replacement turns a comma mark into a point and changes nothing
      else. */
  lemma ReplaceInNumberText(negative: bool, whole: string, frac: Fraction)
    requires NumberParts(whole, frac)
    ensures ReplaceFirstComma(NumberText(negative, whole, frac)) == NumberText(negative, whole, Dotted(frac))
  {
    var sign := if negative then "-" else "";
    DigitsHaveNoComma(whole);
    ReplaceAfter(sign + whole, FractionText(frac));
    if frac.Fraction? {
      DigitsHaveNoComma(frac.digits);
      NoCommaUnchanged(frac.digits);
      assert FractionText(frac)[1..] == frac.digits;
    }
  }

  lemma DottedHasNoComma(negative: bool, whole: string, frac: Fraction)
    requires NumberParts(whole, frac)
    ensures ',' !in NumberText(negative, whole, Dotted(frac))
  {
    DigitsHaveNoComma(whole);
    if frac.Fraction? {
      DigitsHaveNoComma(frac.digits);
    }
  }

  /** A number text has at most one comma, its decimal mark, so after the
      replacement it has none, and the replaced text still passes the test
      with a point for its mark. */
  lemma NumericReplaced(t: string)
    requires IsNumeric(t)
    ensures ',' !in ReplaceFirstComma(t)
    ensures IsNumeric(ReplaceFirstComma(t))
  {
    var (negative, whole, frac) := PartsOf(t);
    ReplaceInNumberText(negative, whole, frac);
    DottedHasNoComma(negative, whole, frac);
    NumberTextIsNumeric(negative, whole, Dotted(frac));
  }

  // ---------- The comparison ----------

  /** The branch `compareCells` takes and what it compares there: the
      difference of two instants, the two texts handed to `parseFloat`, or
      the two texts handed to `localeCompare`. */
  datatype Comparison =
    | ByInstant(diff: int)
    | ByNumber(left: string, right: string)
    | ByText(left: string, right: string)

  /** Both cells parse as numbers, after trimming. */
  predicate BothNumeric(av: Cell, bv: Cell) {
    IsNumeric(Trim(ToStr(av))) && IsNumeric(Trim(ToStr(bv)))
  }

  /** `compareCells(a, b, col)`. */
  function CompareCells(a: Row, b: Row, col: int, engine: string -> Option<int>, utc: UtcArgs -> int): (c: Comparison)
    ensures var ad, bd := ParseDateMaybe(At(a, col), engine, utc), ParseDateMaybe(At(b, col), engine, utc);
            && (c.ByInstant? <==> ad.Some? && bd.Some?)
            && (c.ByInstant? ==> c.diff == ad.value - bd.value)
            && (c.ByNumber? <==> !(ad.Some? && bd.Some?) && BothNumeric(At(a, col), At(b, col)))
  {
    var av, bv := At(a, col), At(b, col);
    var ad, bd := ParseDateMaybe(av, engine, utc), ParseDateMaybe(bv, engine, utc);
    if ad.Some? && bd.Some? then ByInstant(ad.value - bd.value)
    else if BothNumeric(av, bv) then ByNumber(ReplaceFirstComma(ToStr(av)), ReplaceFirstComma(ToStr(bv)))
    else ByText(StrOr(av), StrOr(bv))
  }

  /** The comparison of the same cells the other way round. */
  function Mirror(c: Comparison): Comparison {
    match c
    case ByInstant(d) => ByInstant(-d)
    case ByNumber(l, r) => ByNumber(r, l)
    case ByText(l, r) => ByText(r, l)
  }

  /** Swapping the rows takes the same branch with the operands swapped, so
      the comparison is antisymmetric wherever its branches are. */
  lemma CompareSwapped(a: Row, b: Row, col: int, engine: string -> Option<int>, utc: UtcArgs -> int)
    ensures CompareCells(b, a, col, engine, utc) == Mirror(CompareCells(a, b, col, engine, utc))
  {
  }

  /** Integer cells that do not read as dates are compared as numbers, on
      their own decimal texts. */
  lemma IntegersCompareAsNumbers(x: int, y: int, engine: string -> Option<int>, utc: UtcArgs -> int)
    requires ParseDateMaybe(Num(x), engine, utc).None?
    ensures CompareCells([Num(x)], [Num(y)], 0, engine, utc) == ByNumber(IntToString(x), IntToString(y))
  {
    IntegerTextIsNumeric(x);
    IntegerTextIsNumeric(y);
    IntegerTextTrimmed(x);
    IntegerTextTrimmed(y);
    NoCommaInInteger(x);
    NoCommaInInteger(y);
  }

  lemma IntegerTextTrimmed(n: int)
    ensures Trim(IntToString(n)) == IntToString(n)
  {
    var s := IntToString(n);
    assert !IsSpace(s[0]) && !IsSpace(s[|s| - 1]) by {
      if n < 0 {
        assert s[|s| - 1] == NatToString(-n)[|NatToString(-n)| - 1];
      }
    }
  }

  lemma NoCommaInInteger(n: int)
    ensures ReplaceFirstComma(IntToString(n)) == IntToString(n)
  {
    var s := IntToString(n);
    assert ',' !in s by {
      if n < 0 {
        assert forall i :: 1 <= i < |s| ==> s[i] == NatToString(-n)[i - 1];
      }
    }
    NoCommaUnchanged(s);
  }
}
