/** `decorateCell` (script.js lines 201-227): the markup of one table cell,
    chosen by the normalised name of its column. Urgency cells become a
    coloured badge, date cells a formatted date with a relative label,
    document cells get their links, every other cell is escaped text.

    Besides the date parsing oracles of `DateParse`, decoration needs the
    `Intl` date formatter and today's bounds; they travel together in a
    `DateEnv`. */
module Decorate {
  import opened Strings
  import opened Values
  import opened Normalize
  import opened Markup
  import opened DateParse
  import opened DayOffset
  import opened Links
  import opened Columns

  /** The date oracles, the formatter `fmtDate` and today's start and end. */
  datatype DateEnv = DateEnv(engine: string -> Option<int>, utc: UtcArgs -> int, fmt: int -> string, t0: int, t1: int)

  // ---------- Urgency ----------

  /** The badge class for a normalised urgency value (line 206). */
  function UrgencyClass(v: string): (cls: string)
    ensures cls == [] <==> v == []
    ensures cls == "alta" <==> Contains(v, "alta")
    ensures cls == "media" <==> !Contains(v, "alta") && Contains(v, "media")
    ensures cls == "baja" <==> v != [] && !Contains(v, "alta") && !Contains(v, "media")
  {
    if Contains(v, "alta") then "alta"
    else if Contains(v, "media") then "media"
    else if v != [] then "baja"
    else ""
  }

  /** An element: the opening tag, the content and the closing tag. */
  function Wrap(open: string, body: string, close: string): string {
    "<" + open + ">" + body + "<" + close + ">"
  }

  /** The opening tag of an urgency badge of class `cls`. */
  function UrgencyOpen(cls: string): string {
    "span class=\"badge-urg " + cls + "\""
  }

  /** Line 207: the escaped value in a badge of its urgency class. */
  function UrgencyCell(value: Cell): string {
    Wrap(UrgencyOpen(UrgencyClass(Norm(StrOr(value)))), Esc(StrNullish(value)), "/span")
  }

  // ---------- Dates ----------

  /** The names of the date columns (lines 210-213). */
  const DateColumnNames: seq<string> :=
    ["fecha", "fecha limite", "fecha límite", "vence", "plazo", "entrega",
     "fecha de entrega", "fecha de creacion", "fecha de creación", "creado", "actualizado", "fin", "inicio"]

  /** A date cell (lines 215-219): escaped as it is when it does not parse,
      otherwise the formatted instant and its relative label. */
  function DateCell(value: Cell, env: DateEnv): string {
    match ParseDateMaybe(value, env.engine, env.utc)
    case None => Esc(StrNullish(value))
    case Some(t) =>
      Esc(env.fmt(t)) + " " + Wrap(DeadlineOpen, Esc(LabelRelative(DiffDays(env.t0, env.t1, t))), "/span")
  }

  /** The opening tag of the relative label's badge. */
  const DeadlineOpen: string := "span class=\"badge badge-deadline\""

  /** The two accented names in the list can never equal a normalised
      header: `norm` has removed the accent already. */
  lemma AccentedDateNamesUnreachable(h: Cell)
    ensures HeaderKey(h) != "fecha límite"
    ensures HeaderKey(h) != "fecha de creación"
  {
    NotAccentedName(h, "fecha límite", 7);
    NotAccentedName(h, "fecha de creación", 15);
  }

  /** No header normalises to a name holding an accented letter. */
  lemma NotAccentedName(h: Cell, name: string, i: nat)
    requires i < |name| && BaseLetter(name[i]) != name[i]
    ensures HeaderKey(h) != name
  {
    if HeaderKey(h) == name {
      KeyWithoutAccent(h, i, name[i]);
    }
  }

  /** A normalised header holds no letter that decomposition changes. */
  lemma KeyWithoutAccent(h: Cell, i: nat, c: char)
    requires i < |HeaderKey(h)|
    requires BaseLetter(c) != c
    ensures HeaderKey(h)[i] != c
  {
    NormHasNoAccentedLetter(StrOr(h), i);
  }

  // ---------- Documents ----------

  /** `norm('Documento y Herramientas')`. */
  const DocsKey: string := "documento y herramientas"

  lemma DocsKeyNormalised()
    ensures Norm("Documento y Herramientas") == DocsKey
  {
    LowerWord("Documento y Herramientas", DocsKey);
  }

  /** Lines 222-224: the linked text, or the escaped value when that is
      empty. */
  function DocsCell(value: Cell): string {
    var out := Linkify(value);
    if out != [] then out else Esc(StrNullish(value))
  }

  /** The fallback never applies: `linkify` returns `''` only for an empty
      value, whose escaped form is `''` as well. */
  lemma DocsCellIsLinkify(value: Cell)
    ensures DocsCell(value) == Linkify(value)
  {
  }

  // ---------- The cell ----------

  /** The documents column is neither the urgency column nor a date
      column, so its branch is reached. */
  lemma DocsKeyDistinct()
    ensures DocsKey != UrgencyKey && DocsKey !in DateColumnNames
  {
    assert |DocsKey| == 24;
    forall n | 0 <= n < |DateColumnNames| ensures DateColumnNames[n] != DocsKey {
      assert |DateColumnNames[n]| < 24;
    }
  }

  /** `decorateCell`, given the cell's header and value. */
  function DecorateCell(header: Cell, value: Cell, env: DateEnv): (html: string)
    ensures HeaderKey(header) == UrgencyKey ==> html == UrgencyCell(value)
    ensures HeaderKey(header) != UrgencyKey && HeaderKey(header) in DateColumnNames ==> html == DateCell(value, env)
    ensures HeaderKey(header) != UrgencyKey && HeaderKey(header) !in DateColumnNames && HeaderKey(header) != DocsKey ==>
              html == Esc(StrNullish(value))
    ensures HeaderKey(header) == DocsKey ==> html == Linkify(value)
  {
    DocsKeyDistinct();
    var name := HeaderKey(header);
    if name == UrgencyKey then UrgencyCell(value)
    else if name in DateColumnNames then DateCell(value, env)
    else if name == DocsKey then DocsCell(value)
    else Esc(StrNullish(value))
  }

  /** A cell of a date column is decorated as a date. */
  lemma DateColumnDecorated(header: Cell, value: Cell, env: DateEnv)
    requires HeaderKey(header) in DateColumnNames
    ensures DecorateCell(header, value, env) == DateCell(value, env)
  {
    assert UrgencyKey !in DateColumnNames;
  }

  // ---------- The text a decorated cell shows ----------

  /** The rest of the markup after the `>` that closes a tag. */
  function AfterTag(s: string): (r: string)
    ensures |r| <= |s|
  {
    if s == [] then []
    else if s[0] == '>' then s[1..]
    else AfterTag(s[1..])
  }

  /** The markup without its tags (tags here hold no `>` in their
      attributes). */
  function StripTags(s: string): string
    decreases |s|
  {
    if s == [] then []
    else if s[0] == '<' then StripTags(AfterTag(s[1..]))
    else [s[0]] + StripTags(s[1..])
  }

  /** `textContent` of a cell: the markup without tags, entities decoded. */
  function TextContent(html: string): string {
    Unesc(StripTags(html))
  }

  lemma {:induction false} StripPlain(x: string, y: string)
    requires '<' !in x
    ensures StripTags(x + y) == x + StripTags(y)
  {
    if x != [] {
      assert (x + y)[1..] == x[1..] + y;
      StripPlain(x[1..], y);
      assert x == [x[0]] + x[1..];
    } else {
      assert x + y == y;
    }
  }

  lemma {:induction false} AfterTagOf(tag: string, y: string)
    requires '>' !in tag
    ensures AfterTag(tag + ">" + y) == y
  {
    if tag != [] {
      assert (tag + ">" + y)[1..] == tag[1..] + ">" + y;
      AfterTagOf(tag[1..], y);
    }
  }

  /** A tag leaves no text. */
  lemma StripTag(tag: string, y: string)
    requires '>' !in tag
    ensures StripTags("<" + tag + ">" + y) == StripTags(y)
  {
    assert ("<" + tag + ">" + y)[1..] == tag + ">" + y;
    AfterTagOf(tag, y);
  }

  lemma EscHasNoTag(s: string)
    ensures '<' !in Esc(s)
  {
    assert forall i :: 0 <= i < |Esc(s)| ==> Esc(s)[i] != '<';
  }

  /** Decoding an escaped text followed by more markup gives the text back,
      followed by the decoding of the rest. */
  lemma {:induction false} UnescEscThen(a: string, y: string)
    ensures Unesc(Esc(a) + y) == a + Unesc(y)
  {
    if a != [] {
      var c, r := a[0], a[1..];
      var e := Esc(r) + y;
      assert Esc(a) == EscChar(c) + Esc(r);
      ConcatAssoc(EscChar(c), Esc(r), y);
      calc {
        Unesc(Esc(a) + y);
        Unesc(EscChar(c) + e);
        { UnescEscChar(c, e); }
        [c] + Unesc(e);
        { UnescEscThen(r, y); }
        [c] + (r + Unesc(y));
        { ConcatAssoc([c], r, Unesc(y)); assert [c] + r == a; }
        a + Unesc(y);
      }
    } else {
      assert Esc(a) + y == y;
    }
  }

  /** An escaped value shows as the value. */
  lemma EscapedText(s: string)
    ensures TextContent(Esc(s)) == s
  {
    EscHasNoTag(s);
    StripPlain(Esc(s), []);
    assert Esc(s) + [] == Esc(s);
    UnescEsc(s);
  }

  /** An element whose tags hold no `>` and whose content holds no tag
      keeps only its content. */
  lemma StripWrap(open: string, body: string, close: string)
    requires '>' !in open && '>' !in close && '<' !in body
    ensures StripTags(Wrap(open, body, close)) == body
  {
    var end := "<" + close + ">";
    assert Wrap(open, body, close) == "<" + open + ">" + (body + end);
    StripTag(open, body + end);
    StripPlain(body, end);
    assert end == "<" + close + ">" + [];
    StripTag(close, []);
    assert body + [] == body;
  }

  /** The text of an escaped value wrapped in one element. */
  lemma WrappedText(open: string, s: string, close: string)
    requires '>' !in open && '>' !in close
    ensures TextContent(Wrap(open, Esc(s), close)) == s
  {
    EscHasNoTag(s);
    StripWrap(open, Esc(s), close);
    UnescEsc(s);
  }

  lemma UrgencyOpenHasNoClose(v: string)
    ensures '>' !in UrgencyOpen(UrgencyClass(v))
  {
    var cls := UrgencyClass(v);
    assert cls == "alta" || cls == "media" || cls == "baja" || cls == "";
    assert forall i :: 0 <= i < |cls| ==> 'a' <= cls[i] <= 'z';
  }

  /** An urgency badge shows the value. */
  lemma UrgencyCellText(value: Cell)
    ensures TextContent(UrgencyCell(value)) == StrNullish(value)
  {
    UrgencyOpenHasNoClose(Norm(StrOr(value)));
    WrappedText(UrgencyOpen(UrgencyClass(Norm(StrOr(value)))), StrNullish(value), "/span");
  }

  lemma EscSpaceHasNoTag(p: string)
    ensures '<' !in Esc(p) + " "
  {
    var x := Esc(p) + " ";
    EscHasNoTag(p);
    forall i | 0 <= i < |x| ensures x[i] != '<' {
      if i < |Esc(p)| { assert x[i] == Esc(p)[i]; }
    }
  }

  /** Text without tags followed by an element keeps the text and the
      element's content. */
  lemma PlainThenElement(x: string, open: string, body: string, close: string)
    requires '<' !in x && '<' !in body
    requires '>' !in open && '>' !in close
    ensures StripTags(x + Wrap(open, body, close)) == x + body
  {
    StripPlain(x, Wrap(open, body, close));
    StripWrap(open, body, close);
  }

  /** An escaped value, a space and an element around another escaped
      value keep the two values, escaped, and the space. */
  lemma ValueAndBadgeStripped(p: string, open: string, l: string)
    requires '>' !in open
    ensures StripTags(Esc(p) + " " + Wrap(open, Esc(l), "/span")) == (Esc(p) + " ") + Esc(l)
  {
    EscSpaceHasNoTag(p);
    EscHasNoTag(l);
    PlainThenElement(Esc(p) + " ", open, Esc(l), "/span");
  }

  lemma ValueAndBadgeDecoded(p: string, l: string)
    ensures Unesc(Esc(p) + (" " + Esc(l))) == p + " " + l
  {
    UnescEscThen(p, " " + Esc(l));
    UnescPlain(' ', Esc(l));
    UnescEsc(l);
  }

  /** The text of an escaped value, a space and a badge. */
  lemma ValueAndBadgeText(p: string, l: string)
    ensures TextContent(Esc(p) + " " + Wrap(DeadlineOpen, Esc(l), "/span")) == p + " " + l
  {
    ValueAndBadgeStripped(p, DeadlineOpen, l);
    ConcatAssoc(Esc(p), " ", Esc(l));
    ValueAndBadgeDecoded(p, l);
  }

  /** A date cell that parses shows the formatted instant, a space and the
      relative label: the text the deadline highlighting reads back. */
  lemma DateCellText(value: Cell, env: DateEnv)
    requires ParseDateMaybe(value, env.engine, env.utc).Some?
    ensures var t := ParseDateMaybe(value, env.engine, env.utc).value;
            TextContent(DateCell(value, env)) == env.fmt(t) + " " + LabelRelative(DiffDays(env.t0, env.t1, t))
  {
    var t := ParseDateMaybe(value, env.engine, env.utc).value;
    ValueAndBadgeText(env.fmt(t), LabelRelative(DiffDays(env.t0, env.t1, t)));
  }

  /** A date cell that does not parse shows the value. */
  lemma UnparsedDateCellText(value: Cell, env: DateEnv)
    requires ParseDateMaybe(value, env.engine, env.utc).None?
    ensures TextContent(DateCell(value, env)) == StrNullish(value)
  {
    EscapedText(StrNullish(value));
  }

  /** Outside the document column and the parsed dates, decoration keeps
      the text of the value: what the cell shows is `String(value ?? '')`. */
  lemma DecoratedText(header: Cell, value: Cell, env: DateEnv)
    requires HeaderKey(header) != DocsKey
    requires HeaderKey(header) in DateColumnNames ==> ParseDateMaybe(value, env.engine, env.utc).None?
    ensures TextContent(DecorateCell(header, value, env)) == StrNullish(value)
  {
    var name := HeaderKey(header);
    if name == UrgencyKey {
      UrgencyCellText(value);
    } else if name in DateColumnNames {
      UnparsedDateCellText(value, env);
    } else {
      EscapedText(StrNullish(value));
    }
  }
}
