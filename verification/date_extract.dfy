/** `extractDateFromText` (script.js lines 394-400): the first
    `dd/mm/yyyy[ hh:mm]` inside a text, rewritten as an ISO 8601 text in
    UTC; and the deadline highlight of one table row (lines 379-391),
    which reads the cell text directly and, failing that, through this
    extraction.

    The search pattern is not anchored at the start, so the match is the
    one at the leftmost position where the pattern fits. At a given
    position each digit group of the day and month must be followed by a
    separator, so it is the maximal digit run there; the year is the first
    four digits of the run after the second separator. */
module DateExtract {
  import opened Strings
  import opened Values
  import opened DateParse
  import opened DayOffset

  /** The capture groups of
      `(\d{1,2})[\/\-.](\d{1,2})[\/\-.](\d{4})(?:\s+(\d{1,2}):(\d{2}))?`;
      `time` is None when the optional group matched nothing. */
  datatype Found = Found(day: string, month: string, year: string, time: Option<(string, string)>)

  predicate FoundShape(f: Found) {
    && AllDigits(f.day) && 1 <= |f.day| <= 2
    && AllDigits(f.month) && 1 <= |f.month| <= 2
    && AllDigits(f.year) && |f.year| == 4
    && (f.time.Some? ==> AllDigits(f.time.value.0) && 1 <= |f.time.value.0| <= 2
                         && AllDigits(f.time.value.1) && |f.time.value.1| == 2)
  }

  /** Length of the maximal white-space prefix (`\s+`, greedy). */
  function SpaceRun(s: string): (n: nat)
    ensures n <= |s|
    ensures forall i :: 0 <= i < n ==> IsSpace(s[i])
    ensures n < |s| ==> !IsSpace(s[n])
  {
    if s != [] && IsSpace(s[0]) then 1 + SpaceRun(s[1..]) else 0
  }

  /** `(?:\s+(\d{1,2}):(\d{2}))?` right after the year: the hour and the
      minute, or None when the optional group matches nothing. Nothing is
      required after the two minute digits. */
  function MatchSpacedTime(r: string): (o: Option<(string, string)>)
    ensures o.Some? ==> AllDigits(o.value.0) && 1 <= |o.value.0| <= 2
                        && AllDigits(o.value.1) && |o.value.1| == 2
    ensures o.Some? ==> r != [] && IsSpace(r[0])
  {
    var ns := SpaceRun(r);
    if ns == 0 then None
    else
      var a := r[ns..];
      var nh := RunLen(a);
      if nh < 1 || nh > 2 || nh == |a| || a[nh] != ':' then None
      else
        var b := a[nh + 1..];
        if RunLen(b) < 2 then None else Some((a[..nh], b[..2]))
  }

  /** The pattern matched at the start of `s`. */
  function MatchAt(s: string): (o: Option<Found>)
    ensures o.Some? ==> FoundShape(o.value)
    ensures o.Some? ==> 1 <= RunLen(s) <= 2
  {
    match SepGroup(s, 1, 2)
    case None => None
    case Some((d, a)) =>
      match SepGroup(a, 1, 2)
      case None => None
      case Some((mo, b)) =>
        if RunLen(b) < 4 then None
        else Some(Found(d, mo, b[..4], MatchSpacedTime(b[4..])))
  }

  /** The pattern fits at position `q` of `s`. */
  predicate MatchesAt(s: string, q: nat) {
    q <= |s| && MatchAt(s[q..]).Some?
  }

  /** The groups captured at a position where the pattern fits. */
  function FoundAt(s: string, q: nat): (f: Found)
    requires MatchesAt(s, q)
    ensures FoundShape(f)
  {
    MatchAt(s[q..]).value
  }

  /** The pattern never fits at the end of the text. */
  lemma NoMatchAtEnd(s: string)
    ensures !MatchesAt(s, |s|)
  {
    assert s[|s|..] == [];
  }

  /** The leftmost position `q`, `from <= q < n`, that `fits` accepts: the
      order in which an unanchored pattern is tried along the text. */
  function Leftmost(n: nat, from: nat, fits: nat -> bool): (r: Option<nat>)
    requires from <= n
    ensures r.Some? ==> from <= r.value < n && fits(r.value)
    ensures r.Some? ==> forall q :: from <= q < r.value ==> !fits(q)
    ensures r.None? ==> forall q :: from <= q < n ==> !fits(q)
    decreases n - from
  {
    if from == n then None
    else if fits(from) then Some(from)
    else Leftmost(n, from + 1, fits)
  }

  /** `padStart(2, '0')`. */
  function PadStart2(x: string): string {
    if |x| >= 2 then x else if |x| == 1 then "0" + x else "00"
  }

  /** The hour group with its default `'00'`. */
  function HourText(t: Option<(string, string)>): string {
    if t.Some? then t.value.0 else "00"
  }

  /** The minute group with its default `'00'`. */
  function MinuteText(t: Option<(string, string)>): string {
    if t.Some? then t.value.1 else "00"
  }

  /** `${y}-${mo}-${d}T${h}:${mi}:00Z` from its parts. */
  function IsoOf(y: string, mo: string, d: string, h: string, mi: string): string {
    y + "-" + mo + "-" + d + "T" + h + ":" + mi + ":00Z"
  }

  /** The rebuilt text, month, day, hour and minute padded to two digits. */
  function IsoText(f: Found): string {
    IsoOf(f.year, PadStart2(f.month), PadStart2(f.day), PadStart2(HourText(f.time)), PadStart2(MinuteText(f.time)))
  }

  /** `extractDateFromText`: the leftmost match rewritten as ISO text, or
      nothing (`null`) when the text holds no match. */
  function ExtractDateFromText(s: string): (r: Option<string>)
    ensures r.Some? ==> exists p :: 0 <= p < |s| && MatchesAt(s, p) && r.value == IsoText(FoundAt(s, p))
  {
    match Leftmost(|s|, 0, (q: nat) => MatchesAt(s, q))
    case None => None
    case Some(p) => Some(IsoText(FoundAt(s, p)))
  }

  /** The extraction finds nothing exactly when no position of the text
      starts a match, and otherwise rewrites the match at the first position
      that starts one. */
  lemma ExtractIsLeftmost(s: string)
    ensures ExtractDateFromText(s).None? <==> forall q :: 0 <= q <= |s| ==> !MatchesAt(s, q)
    ensures ExtractDateFromText(s).Some? ==>
              exists p :: && 0 <= p < |s| && MatchesAt(s, p)
                          && (forall q :: 0 <= q < p ==> !MatchesAt(s, q))
                          && ExtractDateFromText(s).value == IsoText(FoundAt(s, p))
  {
    var fits := (q: nat) => MatchesAt(s, q);
    var l := Leftmost(|s|, 0, fits);
    if l.None? {
      forall q | 0 <= q <= |s|
        ensures !MatchesAt(s, q)
      {
        if q < |s| {
          assert !fits(q);
        } else {
          NoMatchAtEnd(s);
        }
      }
    } else {
      var p := l.value;
      assert fits(p);
      forall q | 0 <= q < p
        ensures !MatchesAt(s, q)
      {
        assert !fits(q);
      }
      assert ExtractDateFromText(s).value == IsoText(FoundAt(s, p));
    }
  }

  /** What `Date.UTC` would receive for the extracted fields: the month
      zero-based, the missing clock as midnight and the seconds always 0. */
  function FoundArgs(f: Found): UtcArgs
    requires FoundShape(f)
  {
    UtcArgs(Value(f.year), Value(f.month) - 1, Value(f.day),
            if f.time.Some? then Value(f.time.value.0) else 0,
            if f.time.Some? then Value(f.time.value.1) else 0,
            0)
  }

  // ---------- Reading the rebuilt text back ----------

  lemma PadStart2Value(x: string)
    requires AllDigits(x) && 1 <= |x| <= 2
    ensures AllDigits(PadStart2(x)) && |PadStart2(x)| == 2
    ensures Value(PadStart2(x)) == Value(x)
  {
    if |x| == 1 {
      var p := PadStart2(x);
      assert p[..1] == "0" && p[1] == x[0];
      assert x[..0] == [];
    }
  }

  /** The time tail of the fallback patterns rejects the `Z` suffix. */
  lemma TimeTailRejectsZone(h: string, mi: string)
    requires AllDigits(h) && |h| == 2 && AllDigits(mi) && |mi| == 2
    ensures MatchTimeTail("T" + h + ":" + mi + ":00Z").None?
  {
    assert "T" + h + ":" + mi + ":00Z" == ['T'] + h + ":" + (mi + ":00Z");
    HourRead('T', h, mi + ":00Z");
    ClockRejectsZone(h, mi);
  }

  lemma ClockRejectsZone(h: string, mi: string)
    requires AllDigits(h) && |h| == 2 && AllDigits(mi) && |mi| == 2
    ensures MatchClock(h, mi + ":00Z").None?
  {
    var c := "00Z";
    var b := mi + (":" + c);
    assert mi + ":00Z" == b;
    RunLenOfDigitsThen(mi, ":" + c);
    assert b[2] == ':' && b[3..] == c && |b| == 6;
    RunLenOfDigitsThen("00", "Z");
    assert "00" + "Z" == c;
  }

  predicate IsoParts(y: string, mo: string, d: string, h: string, mi: string) {
    && AllDigits(y) && |y| == 4 && AllDigits(mo) && |mo| == 2 && AllDigits(d) && |d| == 2
    && AllDigits(h) && |h| == 2 && AllDigits(mi) && |mi| == 2
  }

  lemma IsoRejectedByYearFirst(y: string, mo: string, d: string, h: string, mi: string)
    requires IsoParts(y, mo, d, h, mi)
    ensures MatchYearFirst(IsoOf(y, mo, d, h, mi)).None?
  {
    var tailZ := "T" + h + ":" + mi + ":00Z";
    assert IsoOf(y, mo, d, h, mi) == y + ['-'] + mo + ['-'] + d + tailZ;
    TimeTailRejectsZone(h, mi);
    YearFirstAccepts(y, '-', mo, '-', d, tailZ);
  }

  lemma IsoRejectedByDayFirst(y: string, mo: string, d: string, h: string, mi: string)
    requires IsoParts(y, mo, d, h, mi)
    ensures MatchDayFirst(IsoOf(y, mo, d, h, mi)).None?
  {
    var iso := IsoOf(y, mo, d, h, mi);
    assert iso == y + iso[4..];
    RunLenOfDigitsThen(y, iso[4..]);
  }

  lemma IsoWithoutZoneIsYearFirst(y: string, mo: string, d: string, h: string, mi: string)
    requires IsoParts(y, mo, d, h, mi)
    ensures |IsoOf(y, mo, d, h, mi)| == 20
    ensures MatchYearFirst(IsoOf(y, mo, d, h, mi)[..19]) == Some(DateMatch(y, mo, d, Some(TimeMatch(h, mi, Some("00")))))
  {
    var tail := "T" + h + ":" + mi + ":00";
    assert IsoOf(y, mo, d, h, mi)[..19] == y + ['-'] + mo + ['-'] + d + tail;
    TimeTailAccepts('T', h, mi, Some("00"));
    assert tail == ['T'] + h + ":" + mi + (":" + "00");
    YearFirstAccepts(y, '-', mo, '-', d, tail);
  }

  /** The padded parts of the rebuilt text denote the extracted numbers. */
  lemma PaddedParts(f: Found)
    requires FoundShape(f)
    ensures var h, mi := PadStart2(HourText(f.time)), PadStart2(MinuteText(f.time));
            && IsoParts(f.year, PadStart2(f.month), PadStart2(f.day), h, mi)
            && Value(PadStart2(f.month)) == Value(f.month)
            && Value(PadStart2(f.day)) == Value(f.day)
            && Value(h) == (if f.time.Some? then Value(f.time.value.0) else 0)
            && Value(mi) == (if f.time.Some? then Value(f.time.value.1) else 0)
  {
    PadStart2Value(f.month);
    PadStart2Value(f.day);
    if f.time.Some? {
      PadStart2Value(f.time.value.0);
      PadStart2Value(f.time.value.1);
    } else {
      ZeroZero();
    }
  }

  /** The rebuilt text has twenty characters, starts with a digit and ends
      with the zone suffix `Z`. */
  lemma IsoTextEdges(f: Found)
    requires FoundShape(f)
    ensures |IsoText(f)| == 20 && IsoText(f)[19] == 'Z' && IsDigit(IsoText(f)[0])
  {
    PaddedParts(f);
  }

  /** Neither fallback pattern of `parseDateMaybe` admits the rebuilt text,
      because of its zone suffix. */
  lemma IsoTextRejected(f: Found)
    requires FoundShape(f)
    ensures MatchYearFirst(IsoText(f)).None? && MatchDayFirst(IsoText(f)).None?
  {
    var y, mo2, d2 := f.year, PadStart2(f.month), PadStart2(f.day);
    var h2, mi2 := PadStart2(HourText(f.time)), PadStart2(MinuteText(f.time));
    PaddedParts(f);
    IsoRejectedByYearFirst(y, mo2, d2, h2, mi2);
    IsoRejectedByDayFirst(y, mo2, d2, h2, mi2);
  }

  /** Without the suffix the rebuilt text is a year-first text whose fields
      are the extracted ones, with seconds 0. */
  lemma IsoTextWithoutZone(f: Found)
    requires FoundShape(f)
    ensures var o := MatchYearFirst(IsoText(f)[..19]);
            o.Some? && ToUtcArgs(o.value) == FoundArgs(f)
  {
    var y, mo2, d2 := f.year, PadStart2(f.month), PadStart2(f.day);
    var h2, mi2 := PadStart2(HourText(f.time)), PadStart2(MinuteText(f.time));
    PaddedParts(f);
    IsoWithoutZoneIsYearFirst(y, mo2, d2, h2, mi2);
    IsoArgs(f);
  }

  /** The groups of the rebuilt text, seconds `00` included, denote the
      extracted fields. */
  lemma IsoArgs(f: Found)
    requires FoundShape(f)
    ensures var m := DateMatch(f.year, PadStart2(f.month), PadStart2(f.day),
                               Some(TimeMatch(PadStart2(HourText(f.time)), PadStart2(MinuteText(f.time)), Some("00"))));
            MatchShape(m) && ToUtcArgs(m) == FoundArgs(f)
  {
    PaddedParts(f);
    ZeroZero();
  }

  lemma ZeroZero()
    ensures AllDigits("00") && Value("00") == 0
  {
    assert "00"[..1] == "0" && "0"[..0] == [];
  }

  /** A text without surrounding white space that neither fallback pattern
      admits is read by the engine's parser or not at all. */
  lemma OnlyEngineReads(s: string, engine: string -> Option<int>, utc: UtcArgs -> int)
    requires s != [] && !IsSpace(s[0]) && !IsSpace(s[|s| - 1])
    requires MatchYearFirst(s).None? && MatchDayFirst(s).None?
    ensures ParseDateMaybe(Text(s), engine, utc) == engine(s)
  {
    assert Trim(ToStr(Text(s))) == s;
  }

  /** The rebuilt text is therefore read by the engine's parser alone:
      `parseDateMaybe` returns whatever the engine makes of it. */
  lemma IsoTextReadByEngineOnly(f: Found, engine: string -> Option<int>, utc: UtcArgs -> int)
    requires FoundShape(f)
    ensures ParseDateMaybe(Text(IsoText(f)), engine, utc) == engine(IsoText(f))
  {
    IsoTextEdges(f);
    IsoTextRejected(f);
    var iso := IsoText(f);
    assert !IsSpace(iso[0]) && !IsSpace(iso[|iso| - 1]);
    OnlyEngineReads(iso, engine, utc);
  }

  // ---------- The day-first texts inside a cell ----------

  /** A run of digits followed by anything starts a digit run at least as
      long. */
  lemma {:induction false} RunLenAtLeast(d: string, rest: string)
    requires AllDigits(d)
    ensures RunLen(d + rest) >= |d|
    decreases |d|
  {
    if d != [] {
      assert (d + rest)[1..] == d[1..] + rest;
      RunLenAtLeast(d[1..], rest);
    }
  }

  /** The pattern at the start of a day, a month and a year, each a digit
      group of the right length, with separators between them. */
  lemma MatchAtOf(d: string, s1: char, mo: string, s2: char, y: string, tail: string)
    requires AllDigits(d) && 1 <= |d| <= 2 && AllDigits(mo) && 1 <= |mo| <= 2
    requires AllDigits(y) && |y| == 4 && IsDateSep(s1) && IsDateSep(s2)
    ensures MatchAt(d + [s1] + mo + [s2] + y + tail) == Some(Found(d, mo, y, MatchSpacedTime(tail)))
  {
    var b := y + tail;
    var a := mo + ([s2] + b);
    assert d + [s1] + mo + [s2] + y + tail == d + ([s1] + a);
    SepGroupOf(d, s1, a, 1, 2);
    SepGroupOf(mo, s2, b, 1, 2);
    YearGroupOf(y, tail);
  }

  lemma YearGroupOf(y: string, tail: string)
    requires AllDigits(y) && |y| == 4
    ensures RunLen(y + tail) >= 4 && (y + tail)[..4] == y && (y + tail)[4..] == tail
  {
    RunLenAtLeast(y, tail);
  }

  /** A space, a two-digit hour, a colon and two minute digits, whatever
      follows. */
  lemma SpacedTimeOf(h: string, mi: string, more: string)
    requires AllDigits(h) && |h| == 2 && AllDigits(mi) && |mi| == 2
    ensures MatchSpacedTime(" " + h + ":" + mi + more) == Some((h, mi))
  {
    var bb := mi + more;
    var aa := h + (":" + bb);
    var r := " " + aa;
    assert " " + h + ":" + mi + more == r;
    assert r[1..] == aa;
    assert SpaceRun(aa) == 0;
    assert SpaceRun(r) == 1;
    RunLenOfDigitsThen(h, ":" + bb);
    assert aa[..2] == h && aa[2] == ':' && aa[3..] == bb;
    RunLenAtLeast(mi, more);
    assert bb[..2] == mi;
  }

  /** The pattern reads the clock of a day-first text with a space before
      it, and no clock from one without a clock that is followed by text
      not starting with white space. */
  lemma SpacedTimeOfTail(st: Stamp, form: TimeForm, rest: string)
    requires StampFits(st)
    requires form == DateOnly ==> rest == [] || !IsSpace(rest[0])
    ensures MatchSpacedTime(TailText(st, ' ', form) + rest)
            == if form == DateOnly then None else Some((Pad(st.hour, 2), Pad(st.minute, 2)))
  {
    var h, mi := Pad(st.hour, 2), Pad(st.minute, 2);
    if form == HourMinute {
      assert TailText(st, ' ', form) + rest == " " + h + ":" + mi + rest;
      SpacedTimeOf(h, mi, rest);
    } else if form == HourMinuteSecond {
      assert TailText(st, ' ', form) + rest == " " + h + ":" + mi + (":" + Pad(st.second, 2) + rest);
      SpacedTimeOf(h, mi, ":" + Pad(st.second, 2) + rest);
    } else {
      assert TailText(st, ' ', form) + rest == rest;
      assert SpaceRun(rest) == 0;
    }
  }

  /** The groups the pattern captures at the start of a day-first text
      with a space before the clock, followed by any text that does not
      itself start a spaced clock. */
  function DayFirstFound(st: Stamp, form: TimeForm): Found {
    Found(Pad(st.day, 2), Pad(st.month, 2), Pad(st.year, 4),
          if form == DateOnly then None else Some((Pad(st.hour, 2), Pad(st.minute, 2))))
  }

  lemma MatchesDayFirstText(st: Stamp, sep: char, form: TimeForm, rest: string)
    requires StampFits(st) && IsDateSep(sep)
    requires form == DateOnly ==> rest == [] || !IsSpace(rest[0])
    ensures MatchAt(DayFirstText(st, sep, ' ', form) + rest) == Some(DayFirstFound(st, form))
  {
    var y, mo, d := Pad(st.year, 4), Pad(st.month, 2), Pad(st.day, 2);
    var tail := TailText(st, ' ', form) + rest;
    assert DayFirstText(st, sep, ' ', form) + rest == d + [sep] + mo + [sep] + y + tail;
    MatchAtOf(d, sep, mo, sep, y, tail);
    SpacedTimeOfTail(st, form, rest);
  }

  /** Such a text is matched at its start with its own fields; seconds,
      which the pattern does not capture, are dropped. */
  lemma FindsDayFirstText(st: Stamp, sep: char, form: TimeForm, rest: string)
    requires StampFits(st) && IsDateSep(sep)
    requires form == DateOnly ==> rest == [] || !IsSpace(rest[0])
    ensures var o := MatchAt(DayFirstText(st, sep, ' ', form) + rest);
            && o.Some?
            && FoundArgs(o.value) == Expected(st, if form == HourMinuteSecond then HourMinute else form)
  {
    MatchesDayFirstText(st, sep, form, rest);
    DayFirstFoundArgs(st, form);
  }

  /** The captured groups read back as the fields written, seconds
      dropped. */
  lemma DayFirstFoundArgs(st: Stamp, form: TimeForm)
    requires StampFits(st)
    ensures FoundShape(DayFirstFound(st, form))
    ensures FoundArgs(DayFirstFound(st, form)) == Expected(st, if form == HourMinuteSecond then HourMinute else form)
  {
    PadFourValue(st.year);
    PadTwoValue(st.month);
    PadTwoValue(st.day);
    PadTwoValue(st.hour);
    PadTwoValue(st.minute);
  }

  // ---------- The row highlight ----------

  /** The instant a deadline cell stands for (line 383): its text read
      directly, or else the text rebuilt from the first `dd/mm/yyyy` in it. */
  function DeadlineInstant(text: string, engine: string -> Option<int>, utc: UtcArgs -> int): (r: Option<int>)
    ensures ParseDateMaybe(Text(text), engine, utc).Some? ==> r == ParseDateMaybe(Text(text), engine, utc)
    ensures ParseDateMaybe(Text(text), engine, utc).None? && ExtractDateFromText(text).None? ==> r.None?
  {
    match ParseDateMaybe(Text(text), engine, utc)
    case Some(t) => Some(t)
    case None =>
      match ExtractDateFromText(text)
      case None => ParseDateMaybe(Null, engine, utc)
      case Some(iso) => ParseDateMaybe(Text(iso), engine, utc)
  }

  /** When the direct reading fails, the instant is what the engine's own
      parser makes of the rebuilt text; the fallback patterns play no part. */
  lemma DeadlineByEngine(text: string, engine: string -> Option<int>, utc: UtcArgs -> int)
    requires ParseDateMaybe(Text(text), engine, utc).None?
    requires ExtractDateFromText(text).Some?
    ensures DeadlineInstant(text, engine, utc) == engine(ExtractDateFromText(text).value)
  {
    var p :| 0 <= p < |text| && MatchesAt(text, p) && ExtractDateFromText(text).value == IsoText(FoundAt(text, p));
    IsoTextReadByEngineOnly(FoundAt(text, p), engine, utc);
  }

  /** The class a row gets (lines 385-391), `Unmarked` when its deadline
      cell yields no instant; `t0` and `t1` are the start and the end of
      today. */
  function RowHighlight(text: string, engine: string -> Option<int>, utc: UtcArgs -> int, t0: int, t1: int): (r: Highlight)
    ensures DeadlineInstant(text, engine, utc).None? ==> r == Unmarked
    ensures DeadlineInstant(text, engine, utc).Some? && t0 <= t1 ==>
              (r == Overdue <==> DeadlineInstant(text, engine, utc).value <= t0 - DayMs)
  {
    match DeadlineInstant(text, engine, utc)
    case None => Unmarked
    case Some(t) =>
      var c := HighlightClass(DiffDays(t0, t1, t));
      assert t0 <= t1 ==> (c == Overdue <==> t <= t0 - DayMs) by {
        if t0 <= t1 { HighlightByInstant(t0, t1, t); }
      }
      c
  }

  /** A cell holding a day-first date that the direct parse rejects, with
      any text after it, is highlighted by the instant the engine gives for
      the rebuilt ISO text, whose fields are those of the date. */
  lemma HighlightFromEmbeddedDate(st: Stamp, sep: char, form: TimeForm, rest: string,
                                  engine: string -> Option<int>, utc: UtcArgs -> int, t0: int, t1: int)
    requires StampFits(st) && IsDateSep(sep)
    requires form == DateOnly ==> rest == [] || !IsSpace(rest[0])
    requires ParseDateMaybe(Text(DayFirstText(st, sep, ' ', form) + rest), engine, utc).None?
    ensures var s := DayFirstText(st, sep, ' ', form) + rest;
            && MatchAt(s).Some?
            && ExtractDateFromText(s) == Some(IsoText(MatchAt(s).value))
            && FoundArgs(MatchAt(s).value) == Expected(st, if form == HourMinuteSecond then HourMinute else form)
            && RowHighlight(s, engine, utc, t0, t1)
               == (match engine(IsoText(MatchAt(s).value))
                   case None => Unmarked
                   case Some(t) => HighlightClass(DiffDays(t0, t1, t)))
  {
    var s := DayFirstText(st, sep, ' ', form) + rest;
    FindsDayFirstText(st, sep, form, rest);
    assert s[0..] == s;
    assert MatchesAt(s, 0);
    assert ExtractDateFromText(s) == Some(IsoText(MatchAt(s).value));
    DeadlineByEngine(s, engine, utc);
  }
}
