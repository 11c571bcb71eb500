/** The status counters of `updateBadges` (script.js lines 319-340): each
    shown row is counted once, as pending, in progress or done, by ordered
    tests on its normalised status text. */
module Badges {
  import opened Strings
  import opened Values
  import opened Normalize
  import opened Columns

  datatype Bucket = Pending | InProgress | Done

  /** The normalised status of a row, `''` without a status column. */
  function StatusText(row: Row, col: Option<nat>): string {
    if col.Some? then Norm(StrOr(At(row, col.value))) else ""
  }

  /** The three tests of lines 328-330. */
  predicate PendingText(s: string) {
    StartsWith(s, "pend") || Contains(s, "por hacer")
  }

  predicate ProgressText(s: string) {
    Contains(s, "curso") || Contains(s, "progreso")
  }

  predicate DoneText(s: string) {
    StartsWith(s, "cumpl") || Contains(s, "hecha") || Contains(s, "termin")
  }

  /** The ordered tests of lines 327-332. */
  function Classify(s: string): (b: Bucket)
    ensures s == [] ==> b == Pending
    ensures b == Done ==> !Contains(s, "curso") && !Contains(s, "progreso")
    ensures b == InProgress ==> !StartsWith(s, "pend") && !Contains(s, "por hacer")
    ensures b == InProgress <==> s != [] && !PendingText(s) && ProgressText(s)
    ensures b == Done <==> s != [] && !PendingText(s) && !ProgressText(s) && DoneText(s)
    ensures b == Pending <==> s == [] || PendingText(s) || (!ProgressText(s) && !DoneText(s))
  {
    if s == [] then Pending
    else if PendingText(s) then Pending
    else if ProgressText(s) then InProgress
    else if DoneText(s) then Done
    else Pending
  }

  /** How many of the rows `f` accepts. */
  function CountIf(rows: seq<Row>, f: Row -> bool): (n: nat)
    ensures n <= |rows|
  {
    if rows == [] then 0
    else CountIf(rows[..|rows| - 1], f) + (if f(rows[|rows| - 1]) then 1 else 0)
  }

  /** The test "row falls in bucket `b`". */
  function InBucket(col: Option<nat>, b: Bucket): (f: Row -> bool)
    ensures forall row :: f(row) == (Classify(StatusText(row, col)) == b)
  {
    row => Classify(StatusText(row, col)) == b
  }

  /** How many of the rows fall in bucket `b`. */
  function Count(rows: seq<Row>, col: Option<nat>, b: Bucket): (n: nat)
    ensures n <= |rows|
  {
    CountIf(rows, InBucket(col, b))
  }

  /** Every row is in exactly one bucket, so the three counts add up to the
      number of rows. */
  lemma {:induction false} CountsPartition(rows: seq<Row>, col: Option<nat>)
    ensures Count(rows, col, Pending) + Count(rows, col, InProgress) + Count(rows, col, Done) == |rows|
  {
    if rows != [] {
      CountsPartition(rows[..|rows| - 1], col);
    }
  }

  /** Without a status column every row counts as pending. */
  lemma {:induction false} NoStatusAllPending(rows: seq<Row>)
    ensures Count(rows, None, Pending) == |rows|
  {
    if rows != [] {
      NoStatusAllPending(rows[..|rows| - 1]);
    }
  }

  lemma {:induction false} CountAppend(xs: seq<Row>, ys: seq<Row>, f: Row -> bool)
    ensures CountIf(xs + ys, f) == CountIf(xs, f) + CountIf(ys, f)
    decreases |ys|
  {
    if ys == [] {
      assert xs + ys == xs;
    } else {
      var n := |ys| - 1;
      assert (xs + ys)[..|xs + ys| - 1] == xs + ys[..n];
      CountAppend(xs, ys[..n], f);
    }
  }

  lemma RemoveAt(ys: seq<Row>, j: nat)
    requires j < |ys|
    ensures multiset(ys[..j] + ys[j + 1..]) == multiset(ys) - multiset{ys[j]}
  {
    assert ys == ys[..j] + [ys[j]] + ys[j + 1..];
  }

  lemma CountOne(y: Row, f: Row -> bool)
    ensures CountIf([y], f) == if f(y) then 1 else 0
  {
    assert [y][..0] == [];
  }

  lemma CountRemoveAt(ys: seq<Row>, j: nat, f: Row -> bool)
    requires j < |ys|
    ensures CountIf(ys, f) == CountIf(ys[..j] + ys[j + 1..], f) + (if f(ys[j]) then 1 else 0)
  {
    var a, y, b := ys[..j], ys[j], ys[j + 1..];
    assert ys == a + ([y] + b);
    CountAppend(a, [y] + b, f);
    CountAppend([y], b, f);
    CountOne(y, f);
    CountAppend(a, b, f);
  }

  /** Counting depends only on which rows there are, not on their order. */
  lemma {:induction false} CountIfPermutation(xs: seq<Row>, ys: seq<Row>, f: Row -> bool)
    requires multiset(xs) == multiset(ys)
    ensures CountIf(xs, f) == CountIf(ys, f)
    decreases |xs|
  {
    if xs == [] {
      assert |ys| == |multiset(ys)| == 0;
    } else {
      var n := |xs| - 1;
      var x := xs[n];
      assert xs == xs[..n] + [x];
      assert multiset(xs[..n]) == multiset(xs) - multiset{x};
      assert x in multiset(ys);
      var j :| 0 <= j < |ys| && ys[j] == x;
      RemoveAt(ys, j);
      CountIfPermutation(xs[..n], ys[..j] + ys[j + 1..], f);
      CountRemoveAt(ys, j, f);
    }
  }

  /** So sorting the rows leaves the badges as they were. */
  lemma CountPermutation(xs: seq<Row>, ys: seq<Row>, col: Option<nat>)
    requires multiset(xs) == multiset(ys)
    ensures Count(xs, col, Pending) == Count(ys, col, Pending)
    ensures Count(xs, col, InProgress) == Count(ys, col, InProgress)
    ensures Count(xs, col, Done) == Count(ys, col, Done)
  {
    CountIfPermutation(xs, ys, InBucket(col, Pending));
    CountIfPermutation(xs, ys, InBucket(col, InProgress));
    CountIfPermutation(xs, ys, InBucket(col, Done));
  }

  /** A row adds one to the count of its bucket and nothing to the
      others. */
  lemma CountStep(rows: seq<Row>, i: nat, col: Option<nat>)
    requires i < |rows|
    ensures var b := Classify(StatusText(rows[i], col));
            && Count(rows[..i + 1], col, Pending) == Count(rows[..i], col, Pending) + (if b == Pending then 1 else 0)
            && Count(rows[..i + 1], col, InProgress) == Count(rows[..i], col, InProgress) + (if b == InProgress then 1 else 0)
            && Count(rows[..i + 1], col, Done) == Count(rows[..i], col, Done) + (if b == Done then 1 else 0)
  {
    assert rows[..i + 1][..i] == rows[..i];
  }

  /** The `forEach` callback (lines 327-332): one normalised status added
      to the three counters. */
  method Tally(s: string, pend: nat, curso: nat, comp: nat) returns (p: nat, c: nat, d: nat)
    ensures p == pend + (if Classify(s) == Pending then 1 else 0)
    ensures c == curso + (if Classify(s) == InProgress then 1 else 0)
    ensures d == comp + (if Classify(s) == Done then 1 else 0)
  {
    p, c, d := pend, curso, comp;
    if s == [] {
      p := p + 1;
    } else if PendingText(s) {
      p := p + 1;
    } else if ProgressText(s) {
      c := c + 1;
    } else if DoneText(s) {
      d := d + 1;
    } else {
      p := p + 1;
    }
  }

  /** The counting loop of `updateBadges` over the shown rows. */
  method UpdateBadges(rows: seq<Row>, idx: Index) returns (pend: nat, curso: nat, comp: nat)
    ensures pend == Count(rows, StatusColumn(idx), Pending)
    ensures curso == Count(rows, StatusColumn(idx), InProgress)
    ensures comp == Count(rows, StatusColumn(idx), Done)
    ensures pend + curso + comp == |rows|
  {
    var col := StatusColumn(idx);
    pend, curso, comp := 0, 0, 0;
    var i := 0;
    while i < |rows|
      invariant i <= |rows|
      invariant pend == Count(rows[..i], col, Pending)
      invariant curso == Count(rows[..i], col, InProgress)
      invariant comp == Count(rows[..i], col, Done)
    {
      var s := StatusText(rows[i], col);
      CountStep(rows, i, col);
      pend, curso, comp := Tally(s, pend, curso, comp);
      i := i + 1;
    }
    assert rows[..i] == rows;
    CountsPartition(rows, col);
  }
}
