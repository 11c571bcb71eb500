/** Day offsets relative to today (`diffDaysTZ`, script.js lines 164-172),
    the Spanish relative label (`labelRelative`, lines 174-180) and the row
    highlight by deadline (lines 389-391).

    `todayAtTZ` reads the clock and the time zone database, so the two
    instants it yields, the start `t0` and the end `t1` of today, are
    parameters. Instants are integer milliseconds. */
module DayOffset {
  import opened Strings
  import opened Values

  /** `24*3600e3`, one day in milliseconds. */
  const DayMs: int := 86400000

  /** `Math.ceil(a / DayMs)`. Dafny's `/` with a positive divisor rounds
      down, so the ceiling is the negated floor of the negation. */
  function CeilDays(a: int): int {
    -((-a) / DayMs)
  }

  /** `Math.floor(a / DayMs)`. */
  function FloorDays(a: int): int {
    a / DayMs
  }

  /** `diffDaysTZ`: 0 inside today, otherwise the whole days between the
      instant and today's nearer edge, rounded towards today. */
  function DiffDays(t0: int, t1: int, t: int): (r: int)
    ensures t0 <= t <= t1 ==> r == 0
    ensures t < t0 ==> r <= 0 && (r - 1) * DayMs < t - t0 <= r * DayMs
    ensures t0 <= t && t1 < t ==> r >= 0 && r * DayMs <= t - t1 < (r + 1) * DayMs
  {
    if t < t0 then CeilDays(t - t0)
    else if t > t1 then FloorDays(t - t1)
    else 0
  }

  /** A later instant never has a smaller offset. */
  lemma DiffDaysMonotone(t0: int, t1: int, ta: int, tb: int)
    requires t0 <= t1 && ta <= tb
    ensures DiffDays(t0, t1, ta) <= DiffDays(t0, t1, tb)
  {
  }

  /** Less than a day before today, or less than a day after it, still
      counts as today: the offset is not the number of calendar days. */
  lemma DiffDaysWithinADayIsToday(t0: int, t1: int, t: int)
    requires t0 <= t1
    requires t0 - DayMs < t < t1 + DayMs
    ensures DiffDays(t0, t1, t) == 0
  {
  }

  /** An instant one hour before today's start (yesterday, 23:00) gets the
      same offset as today's start, although the two lie on different
      calendar days. */
  lemma YesterdayEveningIsToday(t0: int)
    ensures DiffDays(t0, t0 + 86399000, t0 - 3600000) == DiffDays(t0, t0 + 86399000, t0) == 0
  {
  }

  /** `labelRelative`, given the offset. The singular `día` is unreachable:
      offsets 1 and -1 are caught by the earlier branches. */
  function LabelRelative(dd: int): string {
    if dd == 0 then "hoy"
    else if dd == 1 then "mañana"
    else if dd == -1 then "ayer"
    else if dd < 0 then "hace " + NatToString(-dd) + " día" + (if -dd == 1 then "" else "s")
    else "en " + NatToString(dd) + " día" + (if dd == 1 then "" else "s")
  }

  /** Reads an offset back from a relative label. */
  function ReadLabel(text: string): Option<int> {
    if text == "hoy" then Some(0)
    else if text == "mañana" then Some(1)
    else if text == "ayer" then Some(-1)
    else if |text| > 10 && text[..5] == "hace " && text[|text| - 5..] == " días"
            && AllDigits(text[5..|text| - 5]) then
      var days: int := Value(text[5..|text| - 5]);
      Some(-days)
    else if |text| > 8 && text[..3] == "en " && text[|text| - 5..] == " días"
            && AllDigits(text[3..|text| - 5]) then
      Some(Value(text[3..|text| - 5]))
    else None
  }

  /** The label of a day more than one day back. */
  lemma ReadPastLabel(k: nat)
    requires k > 1
    ensures ReadLabel(LabelRelative(-(k as int))) == Some(-(k as int))
  {
    var n := NatToString(k);
    var l := "hace " + n + " días";
    assert LabelRelative(-(k as int)) == l;
    assert |l| > 10 && l[0] == 'h';
    assert l != "hoy" && l != "mañana" && l != "ayer";
    assert l[..5] == "hace " && l[|l| - 5..] == " días" && l[5..|l| - 5] == n;
    NatToStringValue(k);
  }

  /** The label of a day more than one day ahead. */
  lemma ReadFutureLabel(k: nat)
    requires k > 1
    ensures ReadLabel(LabelRelative(k)) == Some(k)
  {
    var n := NatToString(k);
    var l := "en " + n + " días";
    assert LabelRelative(k) == l;
    assert |l| > 8 && l[0] == 'e' && l[..5] != "hace ";
    assert l != "hoy" && l != "mañana" && l != "ayer";
    assert l[..3] == "en " && l[|l| - 5..] == " días" && l[3..|l| - 5] == n;
    NatToStringValue(k);
  }

  /** Every label names its offset: reading it back gives the offset. */
  lemma ReadLabelRelative(dd: int)
    ensures ReadLabel(LabelRelative(dd)) == Some(dd)
  {
    if dd < -1 {
      ReadPastLabel(-dd);
    } else if dd > 1 {
      ReadFutureLabel(dd);
    }
  }

  /** Different offsets never share a label. */
  lemma LabelRelativeInjective(a: int, b: int)
    requires LabelRelative(a) == LabelRelative(b)
    ensures a == b
  {
    ReadLabelRelative(a);
    ReadLabelRelative(b);
  }

  /** The class a row gets from its deadline offset. */
  datatype Highlight = Overdue | DueToday | DueSoon | Unmarked

  /** Lines 389-391: overdue before today, today, soon within three days. */
  function HighlightClass(dd: int): Highlight {
    if dd < 0 then Overdue
    else if dd == 0 then DueToday
    else if dd <= 3 then DueSoon
    else Unmarked
  }

  /** The highlight in terms of the instant itself: overdue only a full day
      before today starts, today up to a full day after it ends, soon for
      the three days after that. */
  lemma HighlightByInstant(t0: int, t1: int, t: int)
    requires t0 <= t1
    ensures HighlightClass(DiffDays(t0, t1, t)) == Overdue <==> t <= t0 - DayMs
    ensures HighlightClass(DiffDays(t0, t1, t)) == DueToday <==> t0 - DayMs < t < t1 + DayMs
    ensures HighlightClass(DiffDays(t0, t1, t)) == DueSoon <==> t1 + DayMs <= t < t1 + 4 * DayMs
  {
    var r := DiffDays(t0, t1, t);
    if t < t0 {
      assert r < 0 <==> t <= t0 - DayMs;
    } else if t1 < t {
      assert r == 0 <==> t < t1 + DayMs;
      assert r <= 3 <==> t < t1 + 4 * DayMs;
    }
  }
}
