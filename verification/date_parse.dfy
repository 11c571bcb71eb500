/** `parseDateMaybe` (script.js lines 119-145): a cell value read as an
    instant in milliseconds, or nothing.

    The engine's own parser (`new Date(s)`) and `Date.UTC` are not modelled:
    they are parameters, `engine` (the instant, or None where the engine
    gives an invalid date) and `utc` (a total function of the six numeric
    components, field roll-over included). The two textual fallback
    patterns are modelled exactly. Each is anchored and every digit group
    in it is followed by a non-digit or by the end, so the regex matches
    iff the maximal digit runs have the allowed lengths; the matchers below
    test exactly that. */
module DateParse {
  import opened Strings
  import opened Values

  /** `[\/\-.]` */
  predicate IsDateSep(c: char) {
    c == '/' || c == '-' || c == '.'
  }

  /** The capture groups of the optional time suffix. */
  datatype TimeMatch = TimeMatch(hour: string, minute: string, second: Option<string>)

  /** The capture groups of a date pattern (year, month and day whatever
      their order in the text). */
  datatype DateMatch = DateMatch(year: string, month: string, day: string, time: Option<TimeMatch>)

  predicate TimeShape(t: TimeMatch) {
    && AllDigits(t.hour) && 1 <= |t.hour| <= 2
    && AllDigits(t.minute) && |t.minute| == 2
    && (t.second.Some? ==> AllDigits(t.second.value) && |t.second.value| == 2)
  }

  predicate MatchShape(m: DateMatch) {
    && AllDigits(m.year) && |m.year| == 4
    && AllDigits(m.month) && 1 <= |m.month| <= 2
    && AllDigits(m.day) && 1 <= |m.day| <= 2
    && (m.time.Some? ==> TimeShape(m.time.value))
  }

  /** `(?:[ T](\d{1,2}):(\d{2})(?::(\d{2}))?)?$` applied to what follows the
      date: Some(None) when nothing follows, Some(Some(t)) for a time,
      None when the rest of the text does not fit. */
  function MatchTimeTail(r: string): (o: Option<Option<TimeMatch>>)
    ensures o.Some? && o.value.Some? ==> TimeShape(o.value.value)
    ensures o == Some(None) <==> r == []
  {
    if r == [] then Some(None)
    else if r[0] != ' ' && r[0] != 'T' then None
    else
      var a := r[1..];
      var nh := RunLen(a);
      if nh < 1 || nh > 2 || nh == |a| || a[nh] != ':' then None
      else MatchClock(a[..nh], a[nh + 1..])
  }

  /** The rest of the time suffix once the hour group `h` and its colon
      are read: `(\d{2})(?::(\d{2}))?$` on `b`. */
  function MatchClock(h: string, b: string): (o: Option<Option<TimeMatch>>)
    requires AllDigits(h) && 1 <= |h| <= 2
    ensures o.Some? ==> o.value.Some? && TimeShape(o.value.value) && o.value.value.hour == h
  {
    if RunLen(b) != 2 then None
    else if |b| == 2 then Some(Some(TimeMatch(h, b, None)))
    else if b[2] != ':' then None
    else
      var c := b[3..];
      if RunLen(c) == 2 && |c| == 2 then Some(Some(TimeMatch(h, b[..2], Some(c))))
      else None
  }

  /** `(\d{lo,hi})[\/\-.]` at the start of `s`: the group and the text
      after the separator. */
  function SepGroup(s: string, lo: nat, hi: nat): (o: Option<(string, string)>)
    ensures o.Some? ==> AllDigits(o.value.0) && lo <= |o.value.0| <= hi && RunLen(s) == |o.value.0|
  {
    var n := RunLen(s);
    if n < lo || n > hi || n == |s| || !IsDateSep(s[n]) then None
    else Some((s[..n], s[n + 1..]))
  }

  /** `(\d{lo,hi})` followed by the time tail, at the start of `s`. */
  function LastGroup(s: string, lo: nat, hi: nat): (o: Option<(string, Option<TimeMatch>)>)
    ensures o.Some? ==> AllDigits(o.value.0) && lo <= |o.value.0| <= hi
    ensures o.Some? && o.value.1.Some? ==> TimeShape(o.value.1.value)
  {
    var n := RunLen(s);
    if n < lo || n > hi then None
    else
      match MatchTimeTail(s[n..])
      case None => None
      case Some(t) => Some((s[..n], t))
  }

  /** `^(\d{4})[\/\-.](\d{1,2})[\/\-.](\d{1,2})` followed by the time tail. */
  function MatchYearFirst(s: string): (o: Option<DateMatch>)
    ensures o.Some? ==> MatchShape(o.value) && RunLen(s) == 4
  {
    match SepGroup(s, 4, 4)
    case None => None
    case Some((y, a)) =>
      match SepGroup(a, 1, 2)
      case None => None
      case Some((mo, b)) =>
        match LastGroup(b, 1, 2)
        case None => None
        case Some((d, t)) => Some(DateMatch(y, mo, d, t))
  }

  /** `^(\d{1,2})[\/\-.](\d{1,2})[\/\-.](\d{4})` followed by the time tail.
      No text matches both this and the year-first pattern, so the order in
      which `parseDateMaybe` tries them never changes its answer. */
  function MatchDayFirst(s: string): (o: Option<DateMatch>)
    ensures o.Some? ==> MatchShape(o.value) && 1 <= RunLen(s) <= 2
    ensures o.Some? ==> MatchYearFirst(s).None?
  {
    match SepGroup(s, 1, 2)
    case None => None
    case Some((d, a)) =>
      match SepGroup(a, 1, 2)
      case None => None
      case Some((mo, b)) =>
        match LastGroup(b, 4, 4)
        case None => None
        case Some((y, t)) => Some(DateMatch(y, mo, d, t))
  }

  /** The arguments handed to `Date.UTC`: month made zero-based, an absent
      hour, minute or second defaulting to 0. */
  datatype UtcArgs = UtcArgs(year: int, monthIndex: int, day: int, hours: int, minutes: int, seconds: int)

  function HoursOf(t: Option<TimeMatch>): nat
    requires t.Some? ==> TimeShape(t.value)
  {
    if t.None? then 0 else Value(t.value.hour)
  }

  function MinutesOf(t: Option<TimeMatch>): nat
    requires t.Some? ==> TimeShape(t.value)
  {
    if t.None? then 0 else Value(t.value.minute)
  }

  function SecondsOf(t: Option<TimeMatch>): nat
    requires t.Some? ==> TimeShape(t.value)
  {
    if t.None? || t.value.second.None? then 0 else Value(t.value.second.value)
  }

  function ToUtcArgs(m: DateMatch): UtcArgs
    requires MatchShape(m)
  {
    UtcArgs(Value(m.year), Value(m.month) - 1, Value(m.day), HoursOf(m.time), MinutesOf(m.time), SecondsOf(m.time))
  }

  /** `parseDateMaybe(v)`. */
  function ParseDateMaybe(v: Cell, engine: string -> Option<int>, utc: UtcArgs -> int): (r: Option<int>)
    ensures IsNullish(v) ==> r == None
    ensures !IsNullish(v) && Trim(ToStr(v)) == [] ==> r == None
    ensures r.Some? && !(engine(Trim(ToStr(v))).Some?) ==>
              (exists m :: MatchShape(m) && r == Some(utc(ToUtcArgs(m))))
  {
    if IsNullish(v) then None
    else
      var s := Trim(ToStr(v));
      if s == [] then None
      else if engine(s).Some? then engine(s)
      else
        match MatchYearFirst(s)
        case Some(m) => Some(utc(ToUtcArgs(m)))
        case None =>
          match MatchDayFirst(s)
          case Some(m) => Some(utc(ToUtcArgs(m)))
          case None => None
  }

  // ---------- Texts the fallback patterns accept ----------

  /** Calendar and clock fields written in a date text. */
  datatype Stamp = Stamp(year: nat, month: nat, day: nat, hour: nat, minute: nat, second: nat)

  /** Which part of the optional time suffix is written. */
  datatype TimeForm = DateOnly | HourMinute | HourMinuteSecond

  /** Every field fits its digit group: four digits for the year, two for
      the others. */
  predicate StampFits(st: Stamp) {
    st.year < 10000 && st.month < 100 && st.day < 100
    && st.hour < 100 && st.minute < 100 && st.second < 100
  }

  predicate IsTimeSep(c: char) {
    c == ' ' || c == 'T'
  }

  function TailText(st: Stamp, timeSep: char, form: TimeForm): string {
    match form
    case DateOnly => ""
    case HourMinute => [timeSep] + Pad(st.hour, 2) + ":" + Pad(st.minute, 2)
    case HourMinuteSecond => [timeSep] + Pad(st.hour, 2) + ":" + Pad(st.minute, 2) + ":" + Pad(st.second, 2)
  }

  /** `yyyy-mm-dd[ hh:mm[:ss]]` with the given separators. */
  function YearFirstText(st: Stamp, sep: char, timeSep: char, form: TimeForm): string {
    Pad(st.year, 4) + [sep] + Pad(st.month, 2) + [sep] + Pad(st.day, 2) + TailText(st, timeSep, form)
  }

  /** `dd-mm-yyyy[ hh:mm[:ss]]` with the given separators. */
  function DayFirstText(st: Stamp, sep: char, timeSep: char, form: TimeForm): string {
    Pad(st.day, 2) + [sep] + Pad(st.month, 2) + [sep] + Pad(st.year, 4) + TailText(st, timeSep, form)
  }

  /** What `Date.UTC` receives for such a text: the fields written, the
      month zero-based, the fields not written as 0. */
  function Expected(st: Stamp, form: TimeForm): UtcArgs {
    UtcArgs(st.year, st.month - 1, st.day,
            if form == DateOnly then 0 else st.hour,
            if form == DateOnly then 0 else st.minute,
            if form == HourMinuteSecond then st.second else 0)
  }

  /** A group of digits followed by a separator is read as that group. */
  lemma SepGroupOf(d: string, c: char, rest: string, lo: nat, hi: nat)
    requires AllDigits(d) && lo <= |d| <= hi && IsDateSep(c)
    ensures SepGroup(d + ([c] + rest), lo, hi) == Some((d, rest))
  {
    var s := d + ([c] + rest);
    RunLenOfDigitsThen(d, [c] + rest);
    assert s[..|d|] == d && s[|d|] == c && s[|d| + 1..] == rest;
  }

  /** A group of digits followed by a time tail. */
  lemma LastGroupOf(d: string, tail: string, lo: nat, hi: nat)
    requires AllDigits(d) && lo <= |d| <= hi
    requires tail == [] || !IsDigit(tail[0])
    ensures LastGroup(d + tail, lo, hi)
            == if MatchTimeTail(tail).Some? then Some((d, MatchTimeTail(tail).value)) else None
  {
    var s := d + tail;
    RunLenOfDigitsThen(d, tail);
    assert s[..|d|] == d && s[|d|..] == tail;
  }

  /** A date text read group by group from the left. */
  lemma Regroup(g1: string, s1: char, g2: string, s2: char, g3: string, tail: string)
    ensures g1 + [s1] + g2 + [s2] + g3 + tail == g1 + ([s1] + (g2 + ([s2] + (g3 + tail))))
  {
  }

  /** The year-first pattern on a four-digit year, a one- or two-digit
      month and day and two separators: it captures exactly those groups
      when the time tail accepts what follows, and rejects the text
      otherwise. */
  lemma YearFirstAccepts(y: string, s1: char, mo: string, s2: char, d: string, tail: string)
    requires AllDigits(y) && |y| == 4 && AllDigits(mo) && 1 <= |mo| <= 2 && AllDigits(d) && 1 <= |d| <= 2
    requires IsDateSep(s1) && IsDateSep(s2)
    requires tail == [] || !IsDigit(tail[0])
    ensures MatchYearFirst(y + [s1] + mo + [s2] + d + tail)
            == if MatchTimeTail(tail).Some? then Some(DateMatch(y, mo, d, MatchTimeTail(tail).value)) else None
  {
    var b := d + tail;
    var a := mo + ([s2] + b);
    Regroup(y, s1, mo, s2, d, tail);
    SepGroupOf(y, s1, a, 4, 4);
    SepGroupOf(mo, s2, b, 1, 2);
    LastGroupOf(d, tail, 1, 2);
  }

  /** The day-first pattern on a one- or two-digit day and month, a
      four-digit year and two separators, likewise. */
  lemma DayFirstAccepts(d: string, s1: char, mo: string, s2: char, y: string, tail: string)
    requires AllDigits(y) && |y| == 4 && AllDigits(mo) && 1 <= |mo| <= 2 && AllDigits(d) && 1 <= |d| <= 2
    requires IsDateSep(s1) && IsDateSep(s2)
    requires tail == [] || !IsDigit(tail[0])
    ensures MatchDayFirst(d + [s1] + mo + [s2] + y + tail)
            == if MatchTimeTail(tail).Some? then Some(DateMatch(y, mo, d, MatchTimeTail(tail).value)) else None
  {
    var b := y + tail;
    var a := mo + ([s2] + b);
    Regroup(d, s1, mo, s2, y, tail);
    SepGroupOf(d, s1, a, 1, 2);
    SepGroupOf(mo, s2, b, 1, 2);
    LastGroupOf(y, tail, 4, 4);
  }

  /** After the separator, the hour group and its colon, the rest is read
      by `MatchClock`. */
  lemma HourRead(ts: char, h: string, b: string)
    requires IsTimeSep(ts) && AllDigits(h) && 1 <= |h| <= 2
    ensures MatchTimeTail([ts] + h + ":" + b) == MatchClock(h, b)
  {
    var a := h + (":" + b);
    var r := [ts] + a;
    ConcatAssoc([ts] + h, ":", b);
    ConcatAssoc([ts], h, ":" + b);
    assert r[1..] == a;
    RunLenOfDigitsThen(h, ":" + b);
    assert a[..|h|] == h && a[|h|] == ':' && a[|h| + 1..] == b;
  }

  /** Two minute digits and, optionally, a colon and two second digits. */
  lemma ClockRead(h: string, mi: string, sec: Option<string>)
    requires TimeShape(TimeMatch(h, mi, sec))
    ensures MatchClock(h, mi + (if sec.Some? then ":" + sec.value else "")) == Some(Some(TimeMatch(h, mi, sec)))
  {
    var more := if sec.Some? then ":" + sec.value else "";
    var b := mi + more;
    RunLenOfDigitsThen(mi, more);
    if sec.Some? {
      assert b[..2] == mi && b[2] == ':' && b[3..] == sec.value;
      RunLenOfDigitsThen(sec.value, "");
      assert sec.value + "" == sec.value;
    } else {
      assert b == mi;
    }
  }

  /** The time tail accepts a space or `T`, one or two hour digits, a
      colon, two minute digits and optionally a colon and two second
      digits, and nothing more. */
  lemma TimeTailAccepts(ts: char, h: string, mi: string, sec: Option<string>)
    requires IsTimeSep(ts)
    requires TimeShape(TimeMatch(h, mi, sec))
    ensures MatchTimeTail([ts] + h + ":" + mi + (if sec.Some? then ":" + sec.value else ""))
            == Some(Some(TimeMatch(h, mi, sec)))
  {
    var more := if sec.Some? then ":" + sec.value else "";
    assert [ts] + h + ":" + mi + more == [ts] + h + ":" + (mi + more);
    HourRead(ts, h, mi + more);
    ClockRead(h, mi, sec);
  }

  lemma {:induction false} TailTextMatches(st: Stamp, timeSep: char, form: TimeForm)
    requires StampFits(st) && IsTimeSep(timeSep)
    ensures var o := MatchTimeTail(TailText(st, timeSep, form));
            && o.Some?
            && (o.value.None? <==> form == DateOnly)
            && HoursOf(o.value) == (if form == DateOnly then 0 else st.hour)
            && MinutesOf(o.value) == (if form == DateOnly then 0 else st.minute)
            && SecondsOf(o.value) == (if form == HourMinuteSecond then st.second else 0)
    ensures TailText(st, timeSep, form) == [] || !IsDigit(TailText(st, timeSep, form)[0])
  {
    if form != DateOnly {
      var h, mi, sc := Pad(st.hour, 2), Pad(st.minute, 2), Pad(st.second, 2);
      PadTwoValue(st.hour);
      PadTwoValue(st.minute);
      PadTwoValue(st.second);
      var sec := if form == HourMinute then None else Some(sc);
      TimeTailAccepts(timeSep, h, mi, sec);
      assert TailText(st, timeSep, form) == [timeSep] + h + ":" + mi + (if sec.Some? then ":" + sec.value else "");
    }
  }

  /** The groups written from a stamp are read back as its fields. */
  lemma StampRead(st: Stamp, form: TimeForm, tail: string)
    requires StampFits(st)
    requires var o := MatchTimeTail(tail);
             && o.Some?
             && HoursOf(o.value) == (if form == DateOnly then 0 else st.hour)
             && MinutesOf(o.value) == (if form == DateOnly then 0 else st.minute)
             && SecondsOf(o.value) == (if form == HourMinuteSecond then st.second else 0)
    ensures var m := DateMatch(Pad(st.year, 4), Pad(st.month, 2), Pad(st.day, 2), MatchTimeTail(tail).value);
            MatchShape(m) && ToUtcArgs(m) == Expected(st, form)
  {
    PadFourValue(st.year);
    PadTwoValue(st.month);
    PadTwoValue(st.day);
    var t := MatchTimeTail(tail).value;
    var m := DateMatch(Pad(st.year, 4), Pad(st.month, 2), Pad(st.day, 2), t);
    assert MatchShape(m);
    assert ToUtcArgs(m) == UtcArgs(st.year, st.month - 1, st.day, HoursOf(t), MinutesOf(t), SecondsOf(t));
  }

  /** The year-first pattern reads back exactly the fields a year-first
      text was written from; the hour, minute and second that are not
      written come out as 0. */
  lemma YearFirstRoundTrip(st: Stamp, sep: char, timeSep: char, form: TimeForm)
    requires StampFits(st) && IsDateSep(sep) && IsTimeSep(timeSep)
    ensures var o := MatchYearFirst(YearFirstText(st, sep, timeSep, form));
            o.Some? && ToUtcArgs(o.value) == Expected(st, form)
  {
    var y, mo, d, tail := Pad(st.year, 4), Pad(st.month, 2), Pad(st.day, 2), TailText(st, timeSep, form);
    TailTextMatches(st, timeSep, form);
    YearFirstAccepts(y, sep, mo, sep, d, tail);
    StampRead(st, form, tail);
  }

  /** The day-first pattern reads back exactly the fields a day-first text
      was written from. */
  lemma DayFirstRoundTrip(st: Stamp, sep: char, timeSep: char, form: TimeForm)
    requires StampFits(st) && IsDateSep(sep) && IsTimeSep(timeSep)
    ensures var o := MatchDayFirst(DayFirstText(st, sep, timeSep, form));
            o.Some? && ToUtcArgs(o.value) == Expected(st, form)
  {
    var y, mo, d, tail := Pad(st.year, 4), Pad(st.month, 2), Pad(st.day, 2), TailText(st, timeSep, form);
    TailTextMatches(st, timeSep, form);
    DayFirstAccepts(d, sep, mo, sep, y, tail);
    StampRead(st, form, tail);
  }

  /** A text with no surrounding white space is parsed as it stands. */
  lemma TextTrimmed(s: string)
    requires s != [] && IsDigit(s[0]) && IsDigit(s[|s| - 1])
    ensures Trim(ToStr(Text(s))) == s
  {
  }

  lemma LastCharIsDigit(st: Stamp, timeSep: char, form: TimeForm, prefix: string, last: string)
    requires last != [] && AllDigits(last)
    requires prefix + last + TailText(st, timeSep, form) != []
    ensures var s := prefix + last + TailText(st, timeSep, form); IsDigit(s[|s| - 1])
  {
  }

  /** A value the engine rejects and the year-first pattern matches is
      read by that pattern. */
  lemma YearFirstFallback(v: Cell, engine: string -> Option<int>, utc: UtcArgs -> int)
    requires !IsNullish(v) && engine(Trim(ToStr(v))).None?
    requires MatchYearFirst(Trim(ToStr(v))).Some?
    ensures ParseDateMaybe(v, engine, utc) == Some(utc(ToUtcArgs(MatchYearFirst(Trim(ToStr(v))).value)))
  {
  }

  /** A value the engine rejects and the day-first pattern matches is read
      by that pattern. */
  lemma DayFirstFallback(v: Cell, engine: string -> Option<int>, utc: UtcArgs -> int)
    requires !IsNullish(v) && engine(Trim(ToStr(v))).None?
    requires MatchDayFirst(Trim(ToStr(v))).Some?
    ensures ParseDateMaybe(v, engine, utc) == Some(utc(ToUtcArgs(MatchDayFirst(Trim(ToStr(v))).value)))
  {
  }

  /** When the engine's parser rejects a year-first text, `parseDateMaybe`
      hands `Date.UTC` the fields written in it, with 0 for the absent hour,
      minute and second. */
  lemma ParseYearFirstText(st: Stamp, sep: char, timeSep: char, form: TimeForm,
                           engine: string -> Option<int>, utc: UtcArgs -> int)
    requires StampFits(st) && IsDateSep(sep) && IsTimeSep(timeSep)
    requires engine(YearFirstText(st, sep, timeSep, form)).None?
    ensures ParseDateMaybe(Text(YearFirstText(st, sep, timeSep, form)), engine, utc) == Some(utc(Expected(st, form)))
  {
    var s := YearFirstText(st, sep, timeSep, form);
    YearFirstRoundTrip(st, sep, timeSep, form);
    LastCharIsDigit(st, timeSep, form, Pad(st.year, 4) + [sep] + Pad(st.month, 2) + [sep], Pad(st.day, 2));
    TextTrimmed(s);
    YearFirstFallback(Text(s), engine, utc);
  }

  /** When the engine's parser rejects a day-first text, `parseDateMaybe`
      hands `Date.UTC` the fields written in it. */
  lemma ParseDayFirstText(st: Stamp, sep: char, timeSep: char, form: TimeForm,
                          engine: string -> Option<int>, utc: UtcArgs -> int)
    requires StampFits(st) && IsDateSep(sep) && IsTimeSep(timeSep)
    requires engine(DayFirstText(st, sep, timeSep, form)).None?
    ensures ParseDateMaybe(Text(DayFirstText(st, sep, timeSep, form)), engine, utc) == Some(utc(Expected(st, form)))
  {
    var s := DayFirstText(st, sep, timeSep, form);
    DayFirstRoundTrip(st, sep, timeSep, form);
    LastCharIsDigit(st, timeSep, form, Pad(st.day, 2) + [sep] + Pad(st.month, 2) + [sep], Pad(st.year, 4));
    TextTrimmed(s);
    DayFirstFallback(Text(s), engine, utc);
  }

  /** Whatever the engine accepts wins over both fallback patterns. */
  lemma EngineFirst(v: Cell, engine: string -> Option<int>, utc: UtcArgs -> int)
    requires !IsNullish(v) && Trim(ToStr(v)) != []
    requires engine(Trim(ToStr(v))).Some?
    ensures ParseDateMaybe(v, engine, utc) == engine(Trim(ToStr(v)))
  {
  }

  /** A text the engine rejects and neither pattern matches gives nothing. */
  lemma UnmatchedIsNothing(v: Cell, engine: string -> Option<int>, utc: UtcArgs -> int)
    requires !IsNullish(v)
    requires engine(Trim(ToStr(v))).None?
    requires MatchYearFirst(Trim(ToStr(v))).None? && MatchDayFirst(Trim(ToStr(v))).None?
    ensures ParseDateMaybe(v, engine, utc).None?
  {
  }
}
