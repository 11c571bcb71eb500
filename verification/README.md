# Bitácora dashboard: the row pipeline, modelled and verified

The dashboard (`script.js`) loads a table of academic assignments (*tareas*) (a list of
header names and a list of rows) from a spreadsheet web app. It lets the
user narrow the rows with three drop-downs (person in charge, status,
urgency) and a search box. It sorts them by a clicked column and counts
them by status in three badges (*Pendientes*, *En curso*, *Cumplidas*).
Each cell is decorated by its column: an urgency badge, a formatted date
with a Spanish relative label (*hoy*, *mañana*, *hace 3 días*), clickable
links in the "Documento y Herramientas" column, escaped text elsewhere.
Each shown row is highlighted as overdue, due today or due soon, using the
date in its deadline column.

This project models the in-memory part of that pipeline in Dafny and
proves what it promises.

| module (file) | models |
|---|---|
| `Strings` (strings.dfy) | `trim`, `startsWith`, `includes`, `\s`, `\d`, `padStart`, number to text |
| `Values` (values.dfy) | cells as JSON values and the three conversions `String(v)`, `String(v \|\| '')`, `String(v ?? '')` |
| `Normalize` (normalize.dfy) | `norm`: decomposition and mark removal for Latin-1 letters, lower case, trim |
| `Markup` (markup.dfy) | `esc` and its inverse (entity decoding) |
| `Columns` (columns.dfy) | the header index `IDX` and the column lookups made in it |
| `Filters` (filters.dfy) | the row filter of `applyFilters` |
| `Badges` (badges.dfy) | the status counting of `updateBadges` |
| `Sorting` (sorting.dfy) | the `SORT` toggle and the branch choice of `compareCells` |
| `DateParse` (date_parse.dfy) | `parseDateMaybe` and its two textual patterns |
| `DayOffset` (day_offset.dfy) | `diffDaysTZ`, `labelRelative`, the highlight class |
| `DateExtract` (date_extract.dfy) | `extractDateFromText` and the deadline reading of one row |
| `Links` (linkify.dfy) | `linkify` |
| `Decorate` (decorate.dfy) | `decorateCell` and the text a decorated cell shows |
| `Dashboard` (dashboard.dfy) | the page state (`RAW_HEADERS`, `RAW_ROWS`, `IDX`, `SORT`, `LAST_RENDER_ROWS`) as the class `Board`, and its handlers |

The page's globals are the fields of `Dashboard.Board`. Its methods are the
handlers that change them: loading the data, applying the filters, clicking
a header, the clear button, and the date highlighting. Loops of the source
are methods with loop invariants: the index-building `forEach`
(`BuildIndex`), the badge counting `forEach` (`UpdateBadges`) and the
per-row highlighting (`MarkRows`). Each method is proved against a
specification function (`IndexOf`, `Count`, `RowHighlight`), and the
lemmas state what the source promises about those functions.

Parts the page takes from the browser are parameters of the model:

- `engine` stands for `new Date(s)`: an instant, or nothing for an
  invalid date.
- `utc` stands for `Date.UTC`.
- `fmt` stands for `Intl.DateTimeFormat(...).format`.
- `t0` and `t1` stand for the start and the end of today from
  `todayAtTZ`.
- `sorter` stands for `Array.prototype.sort` with `compareCells`. Of the
  sorter the model asks only that it returns a permutation of its input.

Instants are integer milliseconds.

Where the code and its documentation differ, the model follows the code:

- **Day offsets near today.** `diffDaysTZ` rounds up before today and down
  after it. So every instant less than a full day before the start of
  today, or less than a full day after its end, has offset 0 ("hoy"). It
  is not the calendar-day difference. See
  `DayOffset.DiffDaysWithinADayIsToday` and
  `DayOffset.YesterdayEveningIsToday`.
- **`linkify` escapes only the URLs.** The text around them is copied
  raw, so markup in a documents cell reaches the page unescaped. See
  `Links.LinkifyKeepsMarkup`: `<br>` comes out as `<br>`.
- **The `esc` fallback never applies.** The fallback `out || esc(value)`
  in the documents branch is never taken: `linkify` returns `''` only for
  the empty text. See `Decorate.DocsCellIsLinkify`.
- **Two accented date names are never matched.** The names
  `'fecha límite'` and `'fecha de creación'` in the date-column list can
  never equal a normalised header, because `norm` removes the accents.
  See `Decorate.AccentedDateNamesUnreachable`.
- **The rebuilt ISO text drops the seconds.** `extractDateFromText` writes
  `:00` in their place. Because the text ends in `Z`, neither fallback
  pattern accepts it, so only the engine's parser can read it. See
  `DateExtract.IsoTextReadByEngineOnly`.
- **A header click does not filter again.** It sorts the rows last shown
  and keeps the filter result as it was. See `Dashboard.Board.ClickHeader`.

## Model

| member | source | states |
|---|---|---|
| Values.At | script.js:344 | indexing a row outside its bounds gives `undefined` |
| Values.StrOr | script.js:303 | `String(v \|\| '')` is empty exactly for the falsy values, the number 0 included |
| Values.StrNullish | script.js:23 | `String(v ?? '')` is empty exactly for null, undefined and the empty text |
| Strings.Trim | script.js:121 | the result has no white space at either end, is the input itself when that has none, and is a contiguous slice of the input with only white space cut off on either side |
| Strings.TrimEndOfStart | script.js:121 | trimming the start and then the end cuts only white space, from the two ends |
| Strings.TrimSpaces | script.js:121 | white space added around a text does not change its trimmed form |
| Strings.TrimStartIsSuffix | script.js:121 | trimming the start leaves a suffix of the text |
| Strings.TrimEndIsPrefix | script.js:121 | trimming the end leaves a prefix of the text |
| Strings.PadValue | script.js:399 | a number padded with zeros to a width it fits reads back as the number |
| Strings.NatToStringValue | script.js:179 | the decimal text of a number reads back as the number |
| Normalize.Norm | script.js:22 | a normalised text has no white space at either end |
| Normalize.FoldLowerAppend | script.js:22 | accent removal and lower-casing work character by character, so they distribute over concatenation |
| Normalize.NormIgnoresSurroundingSpace | script.js:22 | white space around a text does not change its normal form |
| Normalize.NormOneLetter | script.js:22 | a single character that is neither white space nor a combining mark normalises to its lower-case base letter |
| Normalize.NormNormal | script.js:22 | every character of a normalised text is lower case, unaccented and not a combining mark |
| Normalize.NormIdempotent | script.js:22 | normalising twice is normalising once |
| Normalize.NormalFixed | script.js:22 | a trimmed text of lower-case ASCII letters and spaces is its own normal form |
| Normalize.LowerWord | script.js:22 | a trimmed ASCII word normalises to its lower-case form |
| Normalize.NormHasNoAccentedLetter | script.js:22 | no character of a normalised text is an accented letter |
| Markup.Esc | script.js:23 | the output holds no raw `<`, `>`, `"` or `'` and is no shorter than the input |
| Markup.EscPlain | script.js:23 | text without `&` and the four markup characters is copied unchanged |
| Markup.UnescEsc | script.js:23 | decoding the entities of escaped text gives back the text |
| Markup.EscInjective | script.js:23 | two texts with the same escaping are equal |
| Columns.HeaderKeys | script.js:113 | one normalised name per header, in header order |
| Columns.IndexOf | script.js:112-113 | every position in the index is a header position |
| Columns.IndexOfStep | script.js:113 | one step of the loop sets the entry of the current header's name to its position |
| Columns.IndexOfLastWins | script.js:112-113 | a name is in the index iff some header has it, and maps to the last header that has it |
| Columns.IndexOfFacts | script.js:112-113 | every header's name is in the index, at a position no earlier than that header's, holding the same name |
| Columns.Lookup | script.js:299 | a lookup finds a column iff the name is in the index |
| Columns.FirstPresent | script.js:298 | the first candidate name in the index is used, and nothing is found iff no candidate is in it |
| Columns.NamesNormalised | script.js:298-300 | the names looked up are already in normal form, so they match normalised headers |
| Columns.PersonColumnPrefersFirst | script.js:298 | 'persona encargada' wins over 'responsable' when both columns exist |
| Columns.FirstPresentMissing | script.js:375-376 | no deadline column is found iff no header has any of the candidate names |
| Columns.FirstPresentInIndex | script.js:375 | the column found is the last header with the first candidate name that some header has |
| Filters.SomeCell | script.js:306 | `some` holds iff one cell satisfies the test |
| Filters.AnyCellContains | script.js:306 | the search matches a row iff some cell's normalised text contains the query |
| Filters.Keep | script.js:302-308 | `filter` returns an order-preserving subsequence holding exactly the accepted rows, each as often as the input holds it |
| Filters.KeepStep | script.js:302-308 | one step of `filter`: deciding the first row and keeping the selection of the rest keeps the selection of the whole |
| Filters.FilterRows | script.js:302-308 | the filtered rows are an order-preserving subsequence of the rows, every one passing, and every passing row kept as often as it occurs |
| Filters.KeptRowMatchesQuery | script.js:306 | with a non-blank query, each kept row has a cell whose normalised text contains the normalised query |
| Filters.NoSelectionKeepsAll | script.js:302-308 | with no selection and a blank query every row is kept, in order |
| Filters.AbsentColumnIgnored | script.js:303-305 | a person, status or urgency selection whose column does not exist changes nothing |
| Filters.SameFilter | script.js:302-308 | two selections that pass the same rows filter every table alike |
| Filters.AbsentFieldPasses | script.js:303-305 | a selection on a missing column lets every row through |
| Filters.NarrowerSelection | script.js:302-308 | a stricter selection keeps a subsequence of what a looser one keeps |
| Filters.AddingPersonNarrows | script.js:303 | choosing a person narrows the result to a subsequence |
| Filters.FilterIdempotent | script.js:302-308 | filtering the filtered rows again changes nothing |
| Filters.SubsequenceMultiset | script.js:302 | a subsequence takes each row at most as often as the input has it |
| Badges.Classify | script.js:328-333 | in progress iff the status is non-empty, fails the pending test and passes the in-progress test; done iff non-empty, neither pending nor in progress, and passes the done test; pending otherwise (the tests apply in order) |
| Badges.CountIf | script.js:327-334 | a count never exceeds the number of rows |
| Badges.InBucket | script.js:327-333 | a row is in a bucket iff its classified status is that bucket |
| Badges.Count | script.js:325-334 | a badge counts at most the number of rows |
| Badges.CountsPartition | script.js:325-334 | the three badges add up to the number of rows |
| Badges.NoStatusAllPending | script.js:328-329 | without a status column every row is pending |
| Badges.CountIfPermutation | script.js:311 | a count does not depend on the order of the rows |
| Badges.CountPermutation | script.js:311 | sorting the rows leaves the three badges unchanged |
| Badges.CountStep | script.js:327-333 | a row adds one to its own bucket's count and nothing to the others |
| Badges.Tally | script.js:327-333 | the callback increments exactly the counter of the row's bucket |
| Badges.UpdateBadges | script.js:319-340 | the loop yields the three bucket counts of the rows, which add up to the number of rows |
| Sorting.Clicked | script.js:572-576 | the new sort is on the clicked column with direction 1 or -1 |
| Sorting.ClickedDirection | script.js:572-576 | a new column, or no sort, gives ascending; the same column flips the direction |
| Sorting.ClickTwiceRestores | script.js:575 | two clicks on the sorted column restore its direction |
| Sorting.NumberTextIsNumeric | script.js:347 | every signed decimal with an optional `.` or `,` fraction is accepted by the numeric pattern |
| Sorting.PartsOf | script.js:347 | every text the numeric pattern accepts is such a decimal |
| Sorting.IntegerTextIsNumeric | script.js:347-348 | the text of every integer cell is numeric |
| Sorting.ReplaceFirstComma | script.js:349 | `replace(',', '.')` changes the first comma to a point and keeps every other character |
| Sorting.NumericReplaced | script.js:347-350 | a numeric text, its comma replaced, is numeric and comma-free |
| Sorting.CompareCells | script.js:343-354 | dates are compared by instant when both cells parse; otherwise both numeric compare as numbers; otherwise as text |
| Sorting.CompareSwapped | script.js:343-354 | swapping the rows mirrors the comparison |
| Sorting.IntegersCompareAsNumbers | script.js:345-351 | two integer cells that are not dates are compared as numbers |
| DateParse.MatchTimeTail | script.js:129 | the optional time suffix matches nothing iff it is empty, and a match has the groups' lengths |
| DateParse.MatchClock | script.js:129 | a clock match keeps the hour group and has the groups' lengths |
| DateParse.MatchYearFirst | script.js:129 | a year-first match has a 4-digit year and 1-2 digit month and day |
| DateParse.MatchDayFirst | script.js:137 | a day-first match has the groups' lengths, and only texts the year-first pattern rejects reach it |
| DateParse.ParseDateMaybe | script.js:119-145 | null, undefined or blank text give nothing; a result not from the engine comes from a pattern match through `Date.UTC` |
| DateParse.YearFirstAccepts | script.js:129 | a year-first date with any separators is matched, with the time suffix as its tail |
| DateParse.DayFirstAccepts | script.js:137 | the same for a day-first date |
| DateParse.TimeTailAccepts | script.js:129 | an `hh:mm[:ss]` suffix after a space or `T` is matched group by group |
| DateParse.TailTextMatches | script.js:129-131 | a written time suffix reads back its hour, minute and second, absent ones as 0 |
| DateParse.YearFirstRoundTrip | script.js:128-132 | the year-first pattern reads back the fields a year-first text was written from |
| DateParse.DayFirstRoundTrip | script.js:136-140 | the day-first pattern reads back the fields a day-first text was written from |
| DateParse.ParseYearFirstText | script.js:119-133 | when the engine rejects a year-first text, it parses to `Date.UTC` of its fields, missing time fields 0 |
| DateParse.ParseDayFirstText | script.js:119-141 | when the engine rejects a day-first text, it parses to `Date.UTC` of its fields, missing time fields 0 |
| DateParse.YearFirstFallback | script.js:128-133 | after the engine fails, a year-first match decides the result |
| DateParse.DayFirstFallback | script.js:136-141 | after the engine fails and the year-first pattern does too, a day-first match decides the result |
| DateParse.EngineFirst | script.js:125-126 | an instant the engine finds is the result, whatever the patterns say |
| DateParse.UnmatchedIsNothing | script.js:144 | a text the engine and both patterns reject gives nothing |
| DayOffset.DiffDays | script.js:164-172 | 0 within today; before today a non-positive ceiling of the days, after it a non-negative floor |
| DayOffset.DiffDaysMonotone | script.js:164-172 | the offset never decreases as the instant grows |
| DayOffset.DiffDaysWithinADayIsToday | script.js:169-171 | every instant less than a day before today or after it has offset 0 |
| DayOffset.YesterdayEveningIsToday | script.js:169 | an hour before midnight yesterday counts as today |
| DayOffset.ReadPastLabel | script.js:179 | the label of an offset of two or more days back reads back as that offset |
| DayOffset.ReadFutureLabel | script.js:180 | the label of an offset of two or more days ahead reads back as that offset |
| DayOffset.ReadLabelRelative | script.js:174-180 | every label reads back as its offset |
| DayOffset.LabelRelativeInjective | script.js:174-180 | different offsets have different labels |
| DayOffset.HighlightByInstant | script.js:389-391 | overdue iff a full day before today; today iff within a day of it; soon in the three days after that |
| DateExtract.SpaceRun | script.js:396 | `\s+` takes the longest run of white space |
| DateExtract.MatchSpacedTime | script.js:396 | the optional time needs leading white space and has a 1-2 digit hour and a 2-digit minute |
| DateExtract.MatchAt | script.js:396 | a match at a position has the groups' lengths and starts on a 1-2 digit run |
| DateExtract.FoundAt | script.js:396 | the match found at a matching position has the groups' lengths |
| DateExtract.NoMatchAtEnd | script.js:396 | nothing matches at the end of the text |
| DateExtract.Leftmost | script.js:396 | the search yields the first position that fits, or nothing when none does |
| DateExtract.ExtractDateFromText | script.js:394-400 | a result is the ISO text of a match at some position of the text |
| DateExtract.ExtractIsLeftmost | script.js:396-397 | nothing iff no position matches; otherwise the ISO text of the leftmost match |
| DateExtract.PadStart2Value | script.js:399 | `padStart(2,'0')` gives two digits of the same value |
| DateExtract.IsoTextRejected | script.js:399 | the rebuilt text, ending in `Z`, is rejected by both fallback patterns |
| DateExtract.IsoTextWithoutZone | script.js:399 | without its `Z`, the rebuilt text is a year-first date with the extracted fields, seconds 0 |
| DateExtract.IsoTextReadByEngineOnly | script.js:384 | the rebuilt text's instant is whatever the engine's parser makes of it |
| DateExtract.MatchAtOf | script.js:396 | a day-first date at the start of a text is matched with its groups |
| DateExtract.FindsDayFirstText | script.js:396-398 | a written day-first date is found with its day, month, year, hour and minute (seconds dropped) |
| DateExtract.DayFirstFoundArgs | script.js:398-399 | the found groups denote the fields the date was written from |
| DateExtract.DeadlineInstant | script.js:384 | the direct parse wins; without it and without an embedded date there is nothing |
| DateExtract.DeadlineByEngine | script.js:384 | when the direct parse fails, the instant is the engine's reading of the extracted text |
| DateExtract.RowHighlight | script.js:384-391 | no instant gives no class; otherwise overdue iff the instant is a full day before today |
| DateExtract.HighlightFromEmbeddedDate | script.js:381-391 | a day-first date in a cell the direct parse rejects is extracted with its fields and highlights the row by the engine's instant for it |
| Links.SchemeLen | script.js:187 | the scheme is `http://`, `https://` or absent |
| Links.BodyRunMaximal | script.js:187 | the body run takes every allowed character up to the first forbidden one |
| Links.LastEnd | script.js:187 | the chosen end is a character allowed last |
| Links.LastEndIsLast | script.js:187 | no later position of the body may end a URL |
| Links.UrlLen | script.js:187 | a match at the start of a text has the URL shape |
| Links.UrlLenLongest | script.js:187 | no longer prefix has the URL shape (the match is greedy) |
| Links.UrlThenStop | script.js:187 | a URL followed by a character that stops it is matched whole |
| Links.FirstPieceLen | script.js:188 | each step of the scan consumes at least one character |
| Links.FirstPiece | script.js:188 | a step yields a link iff a URL starts there, and covers exactly the text consumed |
| Links.PiecesAreUrls | script.js:187-188 | every link piece has the URL shape |
| Links.JoinPieces | script.js:188-191 | the pieces, put back together, are the text |
| Links.Render | script.js:188-191 | rendering never shortens the text |
| Links.Linkify | script.js:184-192 | the result is empty iff the input text is empty |
| Links.LinkAtStart | script.js:188-191 | a URL at the start becomes an anchor, followed by the rendering of the rest |
| Links.LinkifyUrl | script.js:189-190 | a bare URL becomes one anchor on its escaped text |
| Links.NoUrlIdentity | script.js:188 | text where no URL starts is copied unchanged |
| Links.LinkifyWithoutScheme | script.js:188 | a text without `http://` or `https://` is returned unchanged |
| Links.LinkifyKeepsMarkup | script.js:188 | markup outside URLs is not escaped |
| Decorate.UrgencyClass | script.js:206 | 'alta' iff the text contains `alta`; 'media' iff it has `media` and not `alta`; 'baja' for other non-empty text; '' iff empty |
| Decorate.AccentedDateNamesUnreachable | script.js:210-213 | no header normalises to the two accented names of the list |
| Decorate.NotAccentedName | script.js:210-213 | no header normalises to a name holding an accented letter |
| Decorate.KeyWithoutAccent | script.js:202 | a normalised header holds no accented letter |
| Decorate.DocsKeyNormalised | script.js:222 | the documents column name normalises to 'documento y herramientas' |
| Decorate.DocsCellIsLinkify | script.js:222-224 | the documents cell is always the linkified value |
| Decorate.DecorateCell | script.js:201-227 | urgency, then date names, then the documents column choose the markup; the documents column shows the linkified value; any other cell is its escaped text |
| Decorate.DateColumnDecorated | script.js:214 | a date-named column gets the date decoration |
| Decorate.EscapedText | script.js:226 | the text shown for an escaped value is the value |
| Decorate.UrgencyCellText | script.js:207 | an urgency badge shows the value's text |
| Decorate.ValueAndBadgeText | script.js:219 | a date and its badge show as the date, a space and the label |
| Decorate.DateCellText | script.js:215-219 | a parsed date cell shows the formatted date, a space and the relative label |
| Decorate.UnparsedDateCellText | script.js:216 | an unparsed date cell shows its value's text |
| Decorate.DecoratedText | script.js:201-227 | outside the documents column and parsed dates, a cell shows its value's text |
| Dashboard.RowMark | script.js:379-391 | a row's class is the highlight read from the text of its deadline cell |
| Dashboard.BuildIndex | script.js:112-113 | the loop builds the index of the headers' normalised names |
| Dashboard.MarkRows | script.js:379-392 | one class per shown row, in order, each the row's own |
| Dashboard.Board.constructor | script.js:48-53 | no headers, rows or sort, nothing shown |
| Dashboard.Board.Load | script.js:109-113 | headers and rows replaced, the index rebuilt from the headers, sort and shown rows kept |
| Dashboard.Board.ApplyFilters | script.js:292-317 | shown rows are the filtered rows, sorted when a sort is set, a permutation of the filter result; badges count them |
| Dashboard.Board.ClickHeader | script.js:567-583 | the sort toggles and the last shown rows, not filtered again, are re-sorted; the badges keep their counts |
| Dashboard.Board.Clear | script.js:544-552 | sort dropped and every loaded row shown in loaded order; badges count all rows |
| Dashboard.Board.DateHighlights | script.js:373-392 | nothing without a deadline column; otherwise the class of every shown row, from the text of its deadline cell |
| Dashboard.DeadlineCellShowsDate | script.js:381-382 | a parsed deadline cell reads, trimmed, as the formatted date and its label, which is what the highlight parses |

## Left out

- Loading: `loadConfig`, and in `fetchData` the request and the JSON parsing. They are network calls to a web app. `Board.Load` takes the payload's headers and rows as given.
- The log dialog (`openDetailById`, `loadLogs`, `submitLog`, the modal): network calls and markup only.
- Rendering: `buildHeaderHTML`, `renderTable`'s `innerHTML`, `fillSelect`, `markHeaderSort` and `setStatus`. This is DOM output. The model produces each cell's markup (`DecorateCell`) and the text it shows.
- The cell text the highlighting reads: `textContent` of the decorated markup is modelled as the markup without its tags and with the five entities decoded. It is not a general HTML parser: the browser's parser also turns CR and CR LF into LF and drops U+0000, which the model does not, so for values holding those characters `TextContent` (and `Decorate.EscapedText`, `Decorate.UrgencyCellText`) differs from the page's `textContent`; raw markup that `linkify` copies from a documents cell is read naively.
- `fillFilters` and `uniqueSorted`: they fill the drop-downs from the rows with `localeCompare`, whose collation is not modelled.
- `setupChips`: it selects the first drop-down option containing a status word, then applies the filters. It is DOM glue.
- `saveUI` and `loadUI`: local storage of the selections and of `SORT`.
- `debounce`: timers.
- Time zone and clock: `fmtDate` and `todayAtTZ` use `Intl.DateTimeFormat` in America/Bogota. They are the parameters `fmt`, `t0` and `t1`.
- The engine's date parser `new Date(s)` and `Date.UTC` with its field roll-over. They are the parameters `engine` and `utc`, and `utc` is total, so the `isNaN` branches after the patterns are never taken.
- Sorting: the order `compareCells` yields rests on `parseFloat` and `localeCompare`, both out of scope. `Sorting.CompareCells` states which branch is taken and what it compares. `Board.ApplyFilters` and `Board.ClickHeader` take the sort as a parameter and ask only that it permutes the rows.
- Sorting.CompareCells: the numeric and text branches give the compared texts, not a sign, because `parseFloat` and `localeCompare` are not modelled.
- Cell values: cells are undefined, null, text or integers. Fractional numbers and booleans from the JSON payload are not modelled.
- Normalize.Norm: decomposition and lower case cover ASCII and the Latin-1 letters (U+00C0 to U+00FF). Other scripts are left as they are.
- Object keys: `IDX` is a plain object. A header normalising to `__proto__` behaves differently in JavaScript than in a map.
- `applyDateHighlights` walks the rendered rows. It is modelled over the shown rows, so the "no results" placeholder row corresponds to an empty list of shown rows.
- DateExtract.RowHighlight: its contract states the overdue case only. The today and soon cases are stated over instants by `DayOffset.HighlightByInstant`.
- Dashboard.Board.Load: its contract gives the new index as `IndexOf(HeaderKeys(hs))`. What that index holds is stated by `Columns.IndexOfFacts` and `Columns.IndexOfLastWins`, not repeated here.
