/** The row filter of `applyFilters` (script.js lines 292-308): three
    drop-down selections compared for exact equality with their column,
    and a search text looked for, normalised, in every cell of the row. */
module Filters {
  import opened Strings
  import opened Values
  import opened Normalize
  import opened Columns

  /** The values of the three drop-downs and of the search box; `''` is the
      "all" choice. */
  datatype Selection = Selection(person: string, status: string, urgency: string, query: string)

  /** `!(sel && i!=null && String(row[i]||'') !== sel)`: an empty selection
      or a missing column lets every row through. */
  predicate FieldPasses(row: Row, col: Option<nat>, sel: string) {
    sel == [] || col.None? || StrOr(At(row, col.value)) == sel
  }

  /** `norm((q || '').trim())`. */
  function QueryKey(q: string): string {
    Norm(Trim(q))
  }

  /** `norm(c).includes(qn)` for one cell. */
  predicate CellHas(c: Cell, qn: string) {
    Contains(Norm(StrOr(c)), qn)
  }

  /** `Array.prototype.some` on a row: whether `has` accepts one of its
      cells. */
  function SomeCell(row: Row, has: Cell -> bool): (b: bool)
    ensures b <==> exists i :: 0 <= i < |row| && has(row[i])
  {
    if row == [] then false
    else if has(row[0]) then true
    else
      var b := SomeCell(row[1..], has);
      assert b <==> exists i :: 1 <= i < |row| && has(row[i]) by {
        if b {
          var i :| 0 <= i < |row[1..]| && has(row[1..][i]);
          assert row[1..][i] == row[i + 1];
        }
        if exists i :: 1 <= i < |row| && has(row[i]) {
          var i :| 1 <= i < |row| && has(row[i]);
          assert row[1..][i - 1] == row[i];
        }
      }
      b
  }

  /** The callback `c => norm(c).includes(qn)`. */
  function CellHasFn(qn: string): (has: Cell -> bool)
    ensures forall c :: has(c) == CellHas(c, qn)
  {
    c => CellHas(c, qn)
  }

  /** `row.some(c => norm(c).includes(qn))`. */
  function AnyCellContains(row: Row, qn: string): (b: bool)
    ensures b <==> exists i :: 0 <= i < |row| && CellHas(row[i], qn)
  {
    SomeCell(row, CellHasFn(qn))
  }

  /** The filter predicate (lines 302-308). */
  predicate Passes(row: Row, sel: Selection, idx: Index) {
    && FieldPasses(row, PersonColumn(idx), sel.person)
    && FieldPasses(row, StatusColumn(idx), sel.status)
    && FieldPasses(row, UrgencyColumn(idx), sel.urgency)
    && (QueryKey(sel.query) == [] || AnyCellContains(row, QueryKey(sel.query)))
  }

  /** The filter predicate as the callback handed to `filter`. */
  function PassesFn(sel: Selection, idx: Index): (keep: Row -> bool)
    ensures forall row :: keep(row) == Passes(row, sel, idx)
  {
    row => Passes(row, sel, idx)
  }

  /** `xs` is `ys` with some elements left out, the rest in their order. */
  predicate SubsequenceOf<T(==)>(xs: seq<T>, ys: seq<T>)
    decreases |ys|
  {
    if xs == [] then true
    else if ys == [] then false
    else (xs[0] == ys[0] && SubsequenceOf(xs[1..], ys[1..])) || SubsequenceOf(xs, ys[1..])
  }

  /** `Array.prototype.filter`: the rows `keep` accepts, in their order. */
  function Keep(rows: seq<Row>, keep: Row -> bool): (r: seq<Row>)
    ensures |r| <= |rows|
    ensures SubsequenceOf(r, rows)
    ensures forall i :: 0 <= i < |r| ==> keep(r[i])
    ensures forall i :: 0 <= i < |rows| && keep(rows[i]) ==> rows[i] in r
    ensures forall x :: multiset(r)[x] == if keep(x) then multiset(rows)[x] else 0
    ensures KeptFrom(r, rows, keep)
  {
    if rows == [] then []
    else
      var rest := Keep(rows[1..], keep);
      KeepStep(rows, keep, rest);
      if keep(rows[0]) then [rows[0]] + rest else rest
  }

  /** `r` is an order-preserving selection from `rows` of exactly the rows
      `keep` accepts, each as often as it occurs. */
  ghost predicate KeptFrom(r: seq<Row>, rows: seq<Row>, keep: Row -> bool) {
    && |r| <= |rows|
    && SubsequenceOf(r, rows)
    && (forall i :: 0 <= i < |r| ==> keep(r[i]))
    && (forall x :: multiset(r)[x] == if keep(x) then multiset(rows)[x] else 0)
  }

  /** One step of `Keep`: the first row is put in front exactly when it is
      accepted. */
  lemma KeepStep(rows: seq<Row>, keep: Row -> bool, rest: seq<Row>)
    requires rows != []
    requires KeptFrom(rest, rows[1..], keep)
    ensures var r := if keep(rows[0]) then [rows[0]] + rest else rest;
            KeptFrom(r, rows, keep) && forall i :: 0 <= i < |rows| && keep(rows[i]) ==> rows[i] in r
  {
    var r := if keep(rows[0]) then [rows[0]] + rest else rest;
    assert rows == [rows[0]] + rows[1..];
    assert multiset(rows) == multiset{rows[0]} + multiset(rows[1..]);
    if keep(rows[0]) {
      assert r[1..] == rest;
    }
    forall i | 0 <= i < |rows| && keep(rows[i]) ensures rows[i] in r {
      assert multiset(r)[rows[i]] == multiset(rows)[rows[i]] > 0;
    }
  }

  lemma {:induction false} KeepAll(rows: seq<Row>, keep: Row -> bool)
    requires forall i :: 0 <= i < |rows| ==> keep(rows[i])
    ensures Keep(rows, keep) == rows
  {
    if rows != [] {
      KeepAll(rows[1..], keep);
      assert rows == [rows[0]] + rows[1..];
    }
  }

  lemma {:induction false} KeepSame(rows: seq<Row>, p: Row -> bool, q: Row -> bool)
    requires forall i :: 0 <= i < |rows| ==> p(rows[i]) == q(rows[i])
    ensures Keep(rows, p) == Keep(rows, q)
  {
    if rows != [] {
      KeepSame(rows[1..], p, q);
    }
  }

  lemma {:induction false} SubsequenceTail<T>(xs: seq<T>, ys: seq<T>)
    requires ys != [] && SubsequenceOf(xs, ys[1..])
    ensures SubsequenceOf(xs, ys)
  {
  }

  /** A subsequence takes each element at most as often as it occurs. */
  lemma {:induction false} SubsequenceMultiset<T>(xs: seq<T>, ys: seq<T>)
    requires SubsequenceOf(xs, ys)
    ensures multiset(xs) <= multiset(ys)
    decreases |ys|
  {
    if xs != [] {
      assert ys == [ys[0]] + ys[1..];
      if xs[0] == ys[0] && SubsequenceOf(xs[1..], ys[1..]) {
        SubsequenceMultiset(xs[1..], ys[1..]);
        assert xs == [xs[0]] + xs[1..];
      } else {
        SubsequenceMultiset(xs, ys[1..]);
      }
    }
  }

  lemma {:induction false} KeepNarrower(rows: seq<Row>, p: Row -> bool, q: Row -> bool)
    requires forall i :: 0 <= i < |rows| && p(rows[i]) ==> q(rows[i])
    ensures SubsequenceOf(Keep(rows, p), Keep(rows, q))
  {
    if rows != [] {
      KeepNarrower(rows[1..], p, q);
      var s, l := Keep(rows[1..], p), Keep(rows[1..], q);
      if p(rows[0]) {
        assert ([rows[0]] + s)[1..] == s && ([rows[0]] + l)[1..] == l;
      } else if q(rows[0]) {
        assert ([rows[0]] + l)[1..] == l;
        SubsequenceTail(s, [rows[0]] + l);
      }
    }
  }

  lemma {:induction false} KeepIdempotent(rows: seq<Row>, keep: Row -> bool)
    ensures Keep(Keep(rows, keep), keep) == Keep(rows, keep)
  {
    if rows != [] {
      KeepIdempotent(rows[1..], keep);
      var rest := Keep(rows[1..], keep);
      if keep(rows[0]) {
        assert ([rows[0]] + rest)[1..] == rest;
      }
    }
  }

  /** `RAW_ROWS.filter(...)` with the filter predicate: the rows that pass,
      in their order, and all of them. */
  function FilterRows(rows: seq<Row>, sel: Selection, idx: Index): (r: seq<Row>)
    ensures |r| <= |rows|
    ensures SubsequenceOf(r, rows)
    ensures forall i :: 0 <= i < |r| ==> Passes(r[i], sel, idx)
    ensures forall i :: 0 <= i < |rows| && Passes(rows[i], sel, idx) ==> rows[i] in r
    ensures forall x :: multiset(r)[x] == if Passes(x, sel, idx) then multiset(rows)[x] else 0
  {
    Keep(rows, PassesFn(sel, idx))
  }

  /** A kept row, when a search text was given, has a cell whose
      normalised text contains the normalised search text. */
  lemma KeptRowMatchesQuery(rows: seq<Row>, sel: Selection, idx: Index, k: nat)
    requires k < |FilterRows(rows, sel, idx)|
    requires QueryKey(sel.query) != []
    ensures var row := FilterRows(rows, sel, idx)[k];
            exists i :: 0 <= i < |row| && CellHas(row[i], QueryKey(sel.query))
  {
    var row := FilterRows(rows, sel, idx)[k];
    assert Passes(row, sel, idx);
    assert AnyCellContains(row, QueryKey(sel.query));
  }

  /** With all selections empty and a blank search, every row is kept. */
  lemma NoSelectionKeepsAll(rows: seq<Row>, idx: Index, q: string)
    requires Trim(q) == []
    ensures FilterRows(rows, Selection("", "", "", q), idx) == rows
  {
    KeepAll(rows, PassesFn(Selection("", "", "", q), idx));
  }

  /** A selection on a column the headers do not have changes nothing:
      each of the three selections is ignored when its column is absent. */
  lemma AbsentColumnIgnored(rows: seq<Row>, sel: Selection, idx: Index)
    ensures PersonColumn(idx).None? ==> FilterRows(rows, sel, idx) == FilterRows(rows, sel.(person := ""), idx)
    ensures StatusColumn(idx).None? ==> FilterRows(rows, sel, idx) == FilterRows(rows, sel.(status := ""), idx)
    ensures UrgencyColumn(idx).None? ==> FilterRows(rows, sel, idx) == FilterRows(rows, sel.(urgency := ""), idx)
  {
    if PersonColumn(idx).None? {
      SameFilter(rows, sel, sel.(person := ""), idx);
    }
    if StatusColumn(idx).None? {
      SameFilter(rows, sel, sel.(status := ""), idx);
    }
    if UrgencyColumn(idx).None? {
      SameFilter(rows, sel, sel.(urgency := ""), idx);
    }
  }

  /** Two selections every row passes alike filter alike. */
  lemma SameFilter(rows: seq<Row>, a: Selection, b: Selection, idx: Index)
    requires forall row :: Passes(row, a, idx) == Passes(row, b, idx)
    ensures FilterRows(rows, a, idx) == FilterRows(rows, b, idx)
  {
    KeepSame(rows, PassesFn(a, idx), PassesFn(b, idx));
  }

  /** A selection is no constraint when its column is absent. */
  lemma AbsentFieldPasses(row: Row, col: Option<nat>, sel: string)
    requires col.None?
    ensures FieldPasses(row, col, sel)
  {
  }

  /** A stricter selection keeps a subsequence of what a looser one keeps. */
  lemma NarrowerSelection(rows: seq<Row>, strict: Selection, loose: Selection, idx: Index)
    requires forall row :: Passes(row, strict, idx) ==> Passes(row, loose, idx)
    ensures SubsequenceOf(FilterRows(rows, strict, idx), FilterRows(rows, loose, idx))
  {
    KeepNarrower(rows, PassesFn(strict, idx), PassesFn(loose, idx));
  }

  /** Adding a person selection narrows the result. */
  lemma AddingPersonNarrows(rows: seq<Row>, sel: Selection, idx: Index, person: string)
    requires sel.person == []
    ensures SubsequenceOf(FilterRows(rows, sel.(person := person), idx), FilterRows(rows, sel, idx))
  {
    NarrowerSelection(rows, sel.(person := person), sel, idx);
  }

  /** Filtering the filtered rows again changes nothing. */
  lemma FilterIdempotent(rows: seq<Row>, sel: Selection, idx: Index)
    ensures FilterRows(FilterRows(rows, sel, idx), sel, idx) == FilterRows(rows, sel, idx)
  {
    KeepIdempotent(rows, PassesFn(sel, idx));
  }
}
