/** The page state and the handlers that change it (script.js lines 47-52,
    108-113, 292-317, 373-392, 544-552 and 567-583): the loaded headers and
    rows, the column index, the current sort and the rows last shown.

    `Array.prototype.sort` with `compareCells` is a parameter, `sorter`:
    its order rests on `localeCompare` and `parseFloat`, and the comparison
    mixes three orders, so the model asks of it only what every sort does,
    that it returns a permutation of its input. */
module Dashboard {
  import opened Strings
  import opened Values
  import opened Columns
  import opened Filters
  import opened Badges
  import opened Sorting
  import opened DateParse
  import opened DayOffset
  import opened DateExtract
  import opened Decorate

  /** `rows.sort((a, b) => compareCells(a, b, col) * dir)`. */
  type Sorter = (seq<Row>, int, int) -> seq<Row>

  /** Sorting rearranges the rows and does nothing else. */
  ghost predicate Permutes(sorter: Sorter) {
    forall rows, col, dir :: multiset(sorter(rows, col, dir)) == multiset(rows)
  }

  /** The rows shown for a selection: filtered, then sorted when a sort is
      set (lines 302-312). */
  function Shown(rows: seq<Row>, sel: Selection, idx: Index, sort: Option<SortSpec>, sorter: Sorter): seq<Row> {
    var filtered := FilterRows(rows, sel, idx);
    if sort.Some? then sorter(filtered, sort.value.col, sort.value.dir) else filtered
  }

  /** The text of a rendered cell as `applyDateHighlights` reads it (line
      381): the decorated markup's text, trimmed. */
  function CellText(header: Cell, value: Cell, env: DateEnv): string {
    Trim(TextContent(DecorateCell(header, value, env)))
  }

  /** The `forEach` callback of `applyDateHighlights` for deadline column
      `col` with header `header`: the class a row gets from the text of its
      deadline cell. */
  function RowMark(header: Cell, col: nat, env: DateEnv): (mark: Row -> Highlight)
    ensures forall row :: mark(row) == RowHighlight(CellText(header, At(row, col), env), env.engine, env.utc, env.t0, env.t1)
  {
    row => RowHighlight(CellText(header, At(row, col), env), env.engine, env.utc, env.t0, env.t1)
  }

  /** The `forEach` of line 113: each header's normalised name mapped to
      its position, a later one overwriting an earlier one. */
  method BuildIndex(hs: seq<Cell>) returns (m: Index)
    ensures m == IndexOf(HeaderKeys(hs))
  {
    m := map[];
    var i := 0;
    while i < |hs|
      invariant 0 <= i <= |hs|
      invariant m == IndexOf(HeaderKeys(hs[..i]))
    {
      IndexOfStep(hs, i);
      m := m[HeaderKey(hs[i]) := i];
      i := i + 1;
    }
    assert hs[..i] == hs;
  }

  /** The `forEach` of lines 378-391 over the shown rows: the class `mark`
      gives each row, in row order. */
  method MarkRows(rows: seq<Row>, mark: Row -> Highlight) returns (ms: seq<Highlight>)
    ensures |ms| == |rows|
    ensures forall j :: 0 <= j < |rows| ==> ms[j] == mark(rows[j])
  {
    ms := [];
    var i := 0;
    while i < |rows|
      invariant 0 <= i <= |rows|
      invariant |ms| == i
      invariant forall j :: 0 <= j < i ==> ms[j] == mark(rows[j])
    {
      ms := ms + [mark(rows[i])];
      i := i + 1;
    }
  }

  class Board {
    var headers: seq<Cell>
    var rows: seq<Row>
    var idx: Index
    var sort: Option<SortSpec>
    var shown: seq<Row>

    /** The index is the one built from the headers. */
    ghost predicate Valid()
      reads this
    {
      idx == IndexOf(HeaderKeys(headers))
    }

    /** The shown rows are some of the loaded rows. */
    ghost predicate ShownFromRows()
      reads this
    {
      multiset(shown) <= multiset(rows)
    }

    /** The initial state (lines 48-52). */
    constructor()
      ensures headers == [] && rows == [] && idx == map[] && sort == None && shown == []
      ensures Valid() && ShownFromRows()
    {
      headers, rows, idx, sort, shown := [], [], map[], None, [];
    }

    /** The end of `fetchData` (lines 108-113): the payload's headers and
        rows are kept, and the index rebuilt, each header's normalised name
        mapped to its position, a later duplicate winning. */
    method Load(hs: seq<Cell>, rs: seq<Row>)
      modifies this
      ensures headers == hs && rows == rs && sort == old(sort) && shown == old(shown)
      ensures idx == IndexOf(HeaderKeys(hs))
      ensures Valid()
    {
      headers := hs;
      rows := rs;
      idx := BuildIndex(hs);
    }

    /** `applyFilters` (lines 292-317): the rows shown become the filtered
        rows, sorted when a sort is set, and the badges count them. Sorting
        does not change the counts. */
    method ApplyFilters(sel: Selection, sorter: Sorter) returns (pend: nat, curso: nat, comp: nat)
      requires Permutes(sorter)
      modifies this
      ensures headers == old(headers) && rows == old(rows) && idx == old(idx) && sort == old(sort)
      ensures shown == Shown(rows, sel, idx, sort, sorter)
      ensures multiset(shown) == multiset(FilterRows(rows, sel, idx))
      ensures ShownFromRows()
      ensures pend == Count(FilterRows(rows, sel, idx), StatusColumn(idx), Pending)
      ensures curso == Count(FilterRows(rows, sel, idx), StatusColumn(idx), InProgress)
      ensures comp == Count(FilterRows(rows, sel, idx), StatusColumn(idx), Done)
    {
      var filtered := FilterRows(rows, sel, idx);
      ghost var kept := filtered;
      if sort.Some? {
        filtered := sorter(filtered, sort.value.col, sort.value.dir);
      }
      shown := filtered;
      pend, curso, comp := UpdateBadges(filtered, idx);
      CountPermutation(filtered, kept, StatusColumn(idx));
      SubsequenceMultiset(kept, rows);
    }

    /** A click on the header of column `col` (lines 570-581): the sort is
        toggled and the rows last shown are sorted again, not filtered
        again. The badges keep their counts. */
    method ClickHeader(col: int, sorter: Sorter) returns (pend: nat, curso: nat, comp: nat)
      requires Permutes(sorter)
      modifies this
      ensures headers == old(headers) && rows == old(rows) && idx == old(idx)
      ensures sort == Some(Clicked(old(sort), col))
      ensures shown == sorter(old(shown), col, Clicked(old(sort), col).dir)
      ensures multiset(shown) == multiset(old(shown))
      ensures old(ShownFromRows()) ==> ShownFromRows()
      ensures pend == Count(old(shown), StatusColumn(idx), Pending)
      ensures curso == Count(old(shown), StatusColumn(idx), InProgress)
      ensures comp == Count(old(shown), StatusColumn(idx), Done)
    {
      if sort.None? || sort.value.col != col {
        sort := Some(SortSpec(col, 1));
      } else {
        sort := Some(sort.value.(dir := if sort.value.dir == 1 then -1 else 1));
      }
      var sorted := sorter(shown, col, sort.value.dir);
      ghost var before := shown;
      shown := sorted;
      pend, curso, comp := UpdateBadges(sorted, idx);
      CountPermutation(sorted, before, StatusColumn(idx));
    }

    /** The "clear" button (lines 545-551): every selection and the search
        emptied, the sort dropped, and the filters applied again, which
        shows every loaded row in its loaded order. */
    method Clear(sorter: Sorter) returns (pend: nat, curso: nat, comp: nat)
      requires Permutes(sorter)
      modifies this
      ensures headers == old(headers) && rows == old(rows) && idx == old(idx)
      ensures sort == None && shown == rows
      ensures pend == Count(rows, StatusColumn(idx), Pending)
      ensures curso == Count(rows, StatusColumn(idx), InProgress)
      ensures comp == Count(rows, StatusColumn(idx), Done)
    {
      sort := None;
      NoSelectionKeepsAll(rows, idx, "");
      pend, curso, comp := ApplyFilters(Selection("", "", "", ""), sorter);
    }

    /** `applyDateHighlights` (lines 373-392): nothing when there is no
        deadline column, otherwise the class of every shown row, read from
        the text of its deadline cell. */
    method DateHighlights(env: DateEnv) returns (marks: Option<seq<Highlight>>)
      requires Valid()
      ensures marks.None? <==> DeadlineColumn(idx).None?
      ensures marks.Some? ==>
                && DeadlineColumn(idx).value < |headers|
                && |marks.value| == |shown|
                && forall i :: 0 <= i < |shown| ==>
                     marks.value[i] == RowMark(headers[DeadlineColumn(idx).value], DeadlineColumn(idx).value, env)(shown[i])
    {
      var c := DeadlineColumn(idx);
      if c.None? {
        return None;
      }
      var col := c.value;
      assert col < |headers| by {
        FirstPresentInIndex(HeaderKeys(headers), NormAll(DeadlineNames));
      }
      var ms := MarkRows(shown, RowMark(headers[col], col, env));
      marks := Some(ms);
    }
  }

  /** A deadline cell whose value reads as a date shows the formatted date
      and its relative label; that text is what the highlighting parses. */
  lemma DeadlineCellShowsDate(header: Cell, value: Cell, env: DateEnv)
    requires HeaderKey(header) in DateColumnNames
    requires ParseDateMaybe(value, env.engine, env.utc).Some?
    ensures var t := ParseDateMaybe(value, env.engine, env.utc).value;
            CellText(header, value, env) == Trim(env.fmt(t) + " " + LabelRelative(DiffDays(env.t0, env.t1, t)))
  {
    DateColumnDecorated(header, value, env);
    DateCellText(value, env);
  }
}
