# Ionikos feed logic in Dafny

The Ionikos club site loads two published spreadsheets as CSV: the game schedule and the list of
halls. It turns their rows into game and hall cards. This project models the part of that code
which shapes the feeds:

- the CSV reader: delimiter detection, the quote-aware field splitter, and rows turned into
  header-keyed records;
- the lenient `day/month[/year] [hh:mm]` date reader, with its year rule, and the
  `DD/MM/YYYY HH:MM` display format;
- the mapping of rows to games and halls through lists of accepted header spellings;
- the choice of the next game, and the split of the dated games into upcoming (soonest first)
  and past (latest first);
- the HTML text and attribute escaping applied to card values.

Modules:

- `Text`: the runtime primitives the code relies on: `trim`, `\s`, one-character `split`,
  and `Number`/`String` on decimal numbers.
- `Csv`: `splitCsvLine`, `detectDelimiter`, `parseCsv`.
- `Dates`: `parseDMY`, `parseDMYTime`, `tryParseDate`, `formatDateTime`, `pad2`.
- `Records`: the `r[k1] || r[k2] || ... || ''` chains.
- `Schedule`: the schedule row mapping, `gameDate`, `findNextGame`, `segmentGames`.
- `Halls`: the halls row mapping.
- `Html`: `escapeHtml` and `escapeAttr`.
- `Options`: the optional-value type.

Loops that change variables step by step are methods. `Csv.SplitCsvLine`, `Csv.DetectDelimiter`
and `Dates.TryParseDate` are each proved equal to a specification function. `Csv.ParseCsv` with
`Csv.BuildRecord` is proved to return one record per data line, each record relating the
headers to that line's fields (`Csv.RecordsOf`). The map/filter/sort pipelines and the single `replace` calls are
functions, with lemmas about them.

A point in time is the tuple of arguments handed to the `Date` constructor: year, zero-based
month, day, hour and minute. Points in time are ordered lexicographically. The model takes its
surroundings as parameters:

- the current moment `now`, whose year also serves as the current year of the date patterns;
- the runtime's own `new Date(s)` string parser, as a function that may fail.

`escapeHtml` appears in both `assets/js/schedule.js` and `assets/js/halls.js` with the same body.
It is modelled once, as `Html.EscapeHtml`, and the table cites each copy for the lemma that
states the property.

## Model

| member | source | states |
|---|---|---|
| Text.TrimStartShape | assets/js/utils.js:67 | Removing leading white space cuts a prefix made only of white space, and what is left does not start with white space. |
| Text.TrimEndShape | assets/js/utils.js:68 | Removing trailing white space cuts a suffix made only of white space, and what is left does not end with white space. |
| Text.TrimShape | assets/js/utils.js:20 | `trim()` returns the infix left after both white-space ends are cut; it neither starts nor ends with white space, and it is empty exactly when the text is all white space. |
| Text.Trim | assets/js/utils.js:20 | `trim()` never lengthens the text, and its result is empty or starts and ends with a character that is not white space. |
| Text.TrimIdempotent | assets/js/utils.js:67 | Trimming an already trimmed value changes nothing, as when `tryParseDate` trims a date cell that the CSV reader already trimmed (utils.js:27). |
| Text.JoinSplit | assets/js/utils.js:36 | Splitting on one character and joining the pieces back with that character gives the original string. |
| Text.SplitPiecesHaveNoSeparator | assets/js/utils.js:20 | No piece of a split holds the separator, so no line of the text holds a line feed. |
| Text.SplitCount | assets/js/utils.js:36 | `s.split(d).length - 1` is exactly the number of occurrences of `d` in `s`. |
| Text.NatToString | assets/js/utils.js:120 | `String(n)` for a natural number is a digit string with no leading zero that reads back as `n`, of length 1 exactly when `n < 10`. |
| Text.IntToString | assets/js/utils.js:120 | `String(n)` of a number from 0 up is its digits, which read back as `n`; of a negative number, a `-` followed by the digits of `-n`. |
| Text.NatToStringLength | assets/js/utils.js:113 | Numbers below 100 print in at most two digits; years 100 to 999 print in three and 1000 to 9999 in four. |
| Csv.SplitCsvLine | assets/js/utils.js:42-64 | The character loop, with its `""` skip, returns exactly the fields of the quote-aware splitting function `Fields`. |
| Csv.Fields | assets/js/utils.js:46-63 | The splitter always yields at least one field. |
| Csv.FieldCount | assets/js/utils.js:46-63 | The number of fields is the number of delimiters met outside quotes, plus one. |
| Csv.UnquotedFieldsAreSplit | assets/js/utils.js:55-59 | On a line without double quotes, the splitter is the plain split on the delimiter. |
| Csv.QuotedRegion | assets/js/utils.js:48-57 | Inside quotes, every character, the delimiter included, joins the field. A doubled quote gives one `"`. The closing quote ends the quoted region without being emitted. |
| Csv.FieldsQuotedPair | assets/js/utils.js:49-51 | Inside quotes, a doubled quote adds one `"` to the current field and skips both characters. |
| Csv.FieldsQuotedChar | assets/js/utils.js:55-60 | Inside quotes, any other character, the delimiter included, joins the current field. |
| Csv.FieldsClosingQuote | assets/js/utils.js:52-54 | A quote inside quotes that is not doubled leaves the quoted region and adds nothing to the field. |
| Csv.EncodeRowRoundTrip | assets/js/utils.js:46-63 | A row written with every field quoted and its quotes doubled, in the style of RFC 4180, reads back as exactly its fields, whatever delimiters and quotes they hold. |
| Csv.QuotedDelimiterDoesNotSplit | assets/js/utils.js:48-57 | `"Smith, Jr."` with `,` is the single field `Smith, Jr.`. |
| Csv.DoubledQuoteIsLiteral | assets/js/utils.js:48-54 | `"a""b"` is the single field `a"b`. |
| Csv.PlainQuotedField | assets/js/utils.js:48-57 | A field without quotes, wrapped in quotes, reads back as the one field, whatever delimiters it holds. |
| Csv.NaiveCount | assets/js/utils.js:36 | A candidate's count is its number of occurrences in the header line, with quotes ignored. |
| Csv.WinnerIndexWins | assets/js/utils.js:33-39 | There is always a winning candidate, and it is the one the comparisons settle on: its count is strictly above every earlier candidate's and at least every later one's. |
| Csv.WinnerIsUnique | assets/js/utils.js:33-39 | At most one candidate wins. |
| Csv.DelimiterIsMostFrequent | assets/js/utils.js:35-37 | No candidate occurs in the header line more often than the chosen delimiter. |
| Csv.DelimiterDefault | assets/js/utils.js:34-39 | A header line with none of `,` `;` tab `\|` gets `,`. |
| Csv.DetectDelimiter | assets/js/utils.js:32-40 | The loop returns the winning candidate. No candidate occurs more often than the result, ties go to the earlier candidate, and a header with none of `,` `;` tab `\|` gives `,`. |
| Csv.Lines | assets/js/utils.js:20 | The trimmed text always has at least one line. |
| Csv.LinesShape | assets/js/utils.js:20 | There is one line per line feed of the trimmed text, plus one, and no line holds a line feed. The pieces joined back with line feeds give the trimmed text, and each line is its piece with the carriage return before the line feed removed; the last piece is kept as it is. |
| Csv.NonBlank | assets/js/utils.js:24 | A line is kept exactly when it is an input line that is not blank, and the filter never adds lines. |
| Csv.ParseCsv | assets/js/utils.js:19-30 | There is one record per non-blank line after the header line, in order. Each record has exactly the trimmed header cells as keys and holds the trimmed cell of the last column with that header, `''` for a missing column. Surplus columns are dropped. Blank or empty text gives no records. |
| Csv.RecordsOfSnoc | assets/js/utils.js:24-29 | Appending the record of one more line keeps the records matched to their lines one by one. |
| Csv.BlankTextHasNoData | assets/js/utils.js:20-24 | Empty or all-white-space text has no data lines. |
| Csv.BuildRecord | assets/js/utils.js:26-28 | The `forEach` fills a record whose keys are the headers. Each key holds the trimmed cell of its last column, or `''` past the end of the row. |
| Csv.FilledIsRecord | assets/js/utils.js:26-28 | Once every header is assigned, the object is the record of the row. |
| Csv.FilledKeys | assets/js/utils.js:27 | After the first n assignments, the record's keys are exactly the first n headers. |
| Csv.FilledValues | assets/js/utils.js:27 | After the first n assignments, each of the first n headers holds the trimmed cell of its last column among them. |
| Csv.RecordsOfLines | assets/js/utils.js:24-29 | The filter and map give one record per non-blank line, in order, each the record of its line's cells. |
| Csv.NonBlankStep | assets/js/utils.js:24 | The filter keeps one more line exactly when that line is not blank. |
| Dates.NotAfterIsTotalOrder | assets/js/schedule.js:24-25 | The order used to compare points in time is reflexive, antisymmetric, transitive and total. |
| Dates.SplitDigits | assets/js/utils.js:92 | A digit group `\d` takes the whole leading run of digits, and what follows is not a digit. |
| Dates.SplitSpaces | assets/js/utils.js:102 | `\s+` takes the whole leading run of white space, and what follows is not white space. |
| Dates.MatchDate | assets/js/utils.js:92 | The day and month groups have 1 or 2 digits, and the year group has 2 to 4 digits. |
| Dates.MatchTime | assets/js/utils.js:102 | The hour group has 1 or 2 digits and the minute group exactly 2. |
| Dates.YearOf | assets/js/utils.js:96 | No year gives the current year; a 2-digit year is in 2000..2099; a 3- or 4-digit year is in 0..9999. |
| Dates.YearRule | assets/js/utils.js:96 | The year rule itself: no year gives the current year, a 2-digit year `yy` gives 2000 + yy, and a 3- or 4-digit year is taken as written. |
| Dates.ParseDMY | assets/js/utils.js:90-98 | A match is midnight of the day, with day below 100, the month taken zero-based (-1..98), and the year either the current one or in 0..9999. |
| Dates.ParseDMYTime | assets/js/utils.js:100-108 | A match has day, hour and minute below 100, a zero-based month, and the year either the current one or in 0..9999. |
| Dates.NumberBelowPow10 | assets/js/utils.js:92 | A string of k digits denotes a number below 10^k. |
| Dates.DigitsBound | assets/js/utils.js:96 | Up to two digits are below 100, and up to four below 10000. |
| Dates.SplitDigitsOf | assets/js/utils.js:92 | The cut after the digit run is the only cut that leaves no digit behind it, so greedy matching agrees with the regular expression. |
| Dates.SplitSpacesOf | assets/js/utils.js:102 | The same holds for the white-space run. |
| Dates.MatchDateOf | assets/js/utils.js:92 | Every written `d[d]{/.-}m[m][{/.-}yy..yyyy]` is matched with exactly its digit groups, whatever text follows it, provided that text does not start with a digit and, when no year is written, does not start with `/`, `.` or `-`. |
| Dates.MatchTimeOf | assets/js/utils.js:102 | Every written `ws h[h]{:.}mm` is matched as that hour and minute. |
| Dates.MatchDateShape | assets/js/utils.js:92 | Conversely, every match is the written date of its own digit groups with two separators from `/.-`, followed by a rest that does not start with a digit. |
| Dates.MatchTimeShape | assets/js/utils.js:102 | Every match of the time part is white space, 1 or 2 hour digits, `:` or `.`, and 2 minute digits, and nothing more. |
| Dates.MatchDateWithYear | assets/js/utils.js:92 | A day, separator, month, separator and 2 to 4 year digits are matched as a date with that year. |
| Dates.MatchDateWithoutYear | assets/js/utils.js:92 | A day, separator and month not followed by a separator and 2 to 4 digits are matched as a date without year. |
| Dates.DateTextWithYear | assets/js/utils.js:92 | The text cut at the groups of a match with year is the written date with those groups and its two separators. |
| Dates.DateTextWithoutYear | assets/js/utils.js:92 | The same for a match without year. |
| Dates.ParseDMYOf | assets/js/utils.js:92-97 | Every written `d[d]{/.-}m[m][{/.-}yy..yyyy]` reads as midnight of that day, with the month used zero-based as mo-1 and the year by the rule: `d/m/yy` in 2000+yy, `d/m/yyy[y]` in the year as written, `d/m` in the current year. |
| Dates.ParseDMYTimeOf | assets/js/utils.js:102-107 | Every written date followed by white space and `h[h]{:.}mm` reads as that day, hour and minute, with the same month and year rules. |
| Dates.ReadDateText | assets/js/utils.js:92-97 | A written date reads as its day, zero-based month and year. |
| Dates.ReadDateTimeText | assets/js/utils.js:102-107 | A written date and time reads as its day, zero-based month, year, hour and minute. |
| Dates.ParseDMYAccepts | assets/js/utils.js:92-93 | Conversely, every text `parseDMY` accepts is a written `d[d]{/.-}m[m][{/.-}yy..yyyy]` and nothing more. |
| Dates.ParseDMYTimeAccepts | assets/js/utils.js:102-103 | Every text `parseDMYTime` accepts is a written date, white space and `h[h]{:.}mm`, and nothing more. |
| Dates.ParseDMYTimeOfMatches | assets/js/utils.js:102-107 | The date-and-time reading is built from what the two matchers capture. |
| Dates.Pad2 | assets/js/utils.js:119-121 | The result has at least two characters. A number from 0 to 99 becomes two digits that read back as it. |
| Dates.FormatParseRoundTrip | assets/js/utils.js:100-121 | Reading back a formatted point in time with the date-and-time pattern gives it unchanged, for every year from 100 to 9999 and fields that print as two digits. |
| Dates.FormatPieces | assets/js/utils.js:116 | The display format is a date text followed by a time text. |
| Dates.FormatDateTime | assets/js/utils.js:110-117 | The display text has at least 13 characters: two-digit day and month, a year, and two-digit hour and minute with their separators. |
| Dates.Candidates | assets/js/utils.js:67-73 | There is no candidate exactly when the trimmed date is empty. |
| Dates.FirstInterpretation | assets/js/utils.js:82-85 | The interpreters yield nothing exactly when every one of them fails on the candidate. |
| Dates.FirstInterpretationIsFirst | assets/js/utils.js:82-85 | A result is what some interpreter returns, and every interpreter before it fails. |
| Dates.FirstParse | assets/js/utils.js:81-87 | There is no point in time exactly when every interpreter fails on every candidate. |
| Dates.FirstParseIsFirst | assets/js/utils.js:81-86 | A result is the first interpretation of some candidate, and every candidate before it yields nothing. |
| Dates.TryParseDate | assets/js/utils.js:66-88 | The nested loops with early return compute the first success, candidate by candidate and interpreter by interpreter. An empty trimmed date gives null. |
| Dates.CombinedCandidateFirst | assets/js/utils.js:70-76 | When "date time" reads with the date-and-time pattern, that reading is the result, ahead of the date alone and of every other interpreter. |
| Dates.DateOnlyCandidate | assets/js/utils.js:73-84 | With an empty time, the date alone is tried with `parseDMYTime`, then `parseDMY`, then the runtime parser, and the first success wins. |
| Dates.FormattedCellsRoundTrip | assets/js/utils.js:66-121 | A date cell and a time cell in the display format read back as the point in time they show, whatever the runtime parser does. |
| Dates.CellsAreTrimmed | assets/js/utils.js:67-68 | The display cells have no surrounding white space. |
| Dates.DateCellIsTrimmed | assets/js/utils.js:67 | The date cell is its own trim. |
| Dates.DigitsAroundAreTrimmed | assets/js/utils.js:67-68 | A text that starts and ends with a digit is its own trim. |
| Dates.TrimUnchanged | assets/js/utils.js:67-68 | A text that neither starts nor ends with white space is its own trim. |
| Records.FirstFilled | assets/js/schedule.js:8-12 | The chain yields the value under the first key holding a non-empty value, or `''` when there is none. |
| Records.FirstFilledIsUnique | assets/js/schedule.js:8-12 | The first-filled description pins down a single value. |
| Records.FirstFilledEmpty | assets/js/halls.js:8-10 | The chain yields `''` exactly when none of its keys holds a non-empty value. |
| Records.FirstFilledFromRecord | assets/js/halls.js:8-10 | The chain yields either one of the record's own values or `''`, never anything else. |
| Records.FirstFilledOfTwo | assets/js/halls.js:8-9 | A chain of two spellings is the first non-empty one, else `''`. |
| Records.FirstFilledOfThree | assets/js/halls.js:10 | A chain of three spellings is the first non-empty one, in order, else `''`. |
| Schedule.MapGame | assets/js/schedule.js:7-13 | Each game field is the first non-empty value among its accepted headers, else `''`. |
| Schedule.MapGames | assets/js/schedule.js:7 | There is one game per record, in record order. |
| Schedule.GameDate | assets/js/schedule.js:16-18 | No contract of its own: `gameDate` is `tryParseDate` on the game's date and time cells, through `Dates.ParseDate`, which `Dates.TryParseDate` computes. Its meaning is stated by `Schedule.GameDateNeedsDate`, `Dates.FirstParse` and `Dates.FirstParseIsFirst`. |
| Schedule.GameDateNeedsDate | assets/js/schedule.js:16-18 | `gameDate` of a game whose date cell is blank is null. |
| Schedule.GameFields | assets/js/schedule.js:8-12 | Each game field is `Key`, else `key`, else the Greek header, else `''`. |
| Schedule.WithDates | assets/js/schedule.js:31 | Every dated entry is an input game with its parsed point in time. |
| Schedule.WithDatesMembers | assets/js/schedule.js:31 | An entry is dated exactly when its game is an input game whose date reads as that point in time. |
| Schedule.Keep | assets/js/schedule.js:33 | The filter keeps only entries on its side of now, and adds none. |
| Schedule.KeepPartition | assets/js/schedule.js:33-37 | The `>= now` and `< now` filters together hold every dated entry exactly as often as it occurs. |
| Schedule.PrecedesOrder | assets/js/schedule.js:34-38 | Both comparators are strict weak orders. |
| Schedule.Insert | assets/js/schedule.js:34 | No contract of its own: one step of the stable sort with the `a.d - b.d` or `b.d - a.d` comparator. Its meaning is stated by `Schedule.InsertPermutation` and `Schedule.InsertSorted`. |
| Schedule.Sort | assets/js/schedule.js:34 | No contract of its own: the stable `sort` with the `a.d - b.d` (schedule.js:34) or `b.d - a.d` (schedule.js:38) comparator. Its meaning is stated by `Schedule.SortFacts` and `Schedule.SortHead`. |
| Schedule.InsertPermutation | assets/js/schedule.js:34-38 | Inserting adds exactly the one entry. |
| Schedule.InsertSorted | assets/js/schedule.js:34-38 | Inserting keeps a sorted list sorted. |
| Schedule.SortedCons | assets/js/schedule.js:34-38 | An entry that no entry of a sorted list precedes can go in front and keep it sorted. |
| Schedule.SortFacts | assets/js/schedule.js:34-38 | Sorting gives a sorted permutation of its input. |
| Schedule.SortHead | assets/js/schedule.js:25 | The sort is stable at the head: the first entry of the result is the first least entry of the input. |
| Schedule.UpcomingEntries | assets/js/schedule.js:23-24 | Before sorting, the upcoming entries follow the games one by one. |
| Schedule.FindNextGameIsFirstEarliest | assets/js/schedule.js:20-27 | `findNextGame` returns null exactly when no game has a readable date at or after now. Otherwise it returns an upcoming game no later than any other, the first in input order among equally early ones, with `_dt` its point in time. |
| Schedule.FindNextGame | assets/js/schedule.js:20-27 | A returned entry is an input game whose point in time is at or after now. |
| Schedule.Upcoming | assets/js/schedule.js:32-34 | No contract of its own: the `>= now` filter and ascending sort. Its meaning is stated by `Schedule.UpcomingOrdered`, `Schedule.UpcomingEntries` and `Schedule.SegmentsPermutation`. |
| Schedule.Past | assets/js/schedule.js:36-38 | No contract of its own: the `< now` filter and descending sort. Its meaning is stated by `Schedule.PastOrdered` and `Schedule.SegmentsPermutation`. |
| Schedule.SegmentGames | assets/js/schedule.js:29-41 | No contract of its own: the pair of the upcoming and past lists. Its meaning is stated by `Schedule.SegmentsPermutation`, `Schedule.SegmentsEntries`, `Schedule.UpcomingOrdered`, `Schedule.PastOrdered` and `Schedule.NextGameHeadsUpcoming`. |
| Schedule.NextGameUpcomingHead | assets/js/schedule.js:22-26 | The induction step for a first game that is upcoming. |
| Schedule.NextGameOtherHead | assets/js/schedule.js:22-26 | The induction step for a first game that is not upcoming. |
| Schedule.HeadIsNextGame | assets/js/schedule.js:22-26 | A lone upcoming game is the next game. |
| Schedule.HeadBeatsNextGame | assets/js/schedule.js:22-26 | An upcoming first game no later than the rest's next game is the next game. |
| Schedule.NextGameBeatsHead | assets/js/schedule.js:22-26 | The rest's next game, when strictly earlier than the upcoming first game, stays the next game. |
| Schedule.ShiftNextGame | assets/js/schedule.js:22-26 | A first game that is not upcoming does not change which game is next. |
| Schedule.UpcomingOrdered | assets/js/schedule.js:32-35 | Every upcoming entry is at or after now, and the list is ascending. |
| Schedule.PastOrdered | assets/js/schedule.js:36-39 | Every past entry is before now, and the list is descending. |
| Schedule.SegmentsPermutation | assets/js/schedule.js:31-39 | Upcoming and past together are a permutation of the games with a readable date; a game whose date cannot be read is in neither. |
| Schedule.SegmentsEntries | assets/js/schedule.js:35-39 | Every entry of either list keeps an input game's fields unchanged, with `_dt` its point in time. |
| Schedule.NextGameHeadsUpcoming | assets/js/schedule.js:26 | `findNextGame` returns the first entry of the upcoming list, or null when that list is empty. |
| Halls.MapHall | assets/js/halls.js:7-11 | Each hall field is the first non-empty value among its accepted headers, else `''`. |
| Halls.MapHalls | assets/js/halls.js:7 | There is one hall per record, in record order. |
| Halls.HallFields | assets/js/halls.js:8-10 | `Name` is `Name`, else `Όνομα`, else `''`. `Address` is `Address`, else `Διεύθυνση`, else `''`. `MapLink` tries `MapLink`, `Map`, `Χάρτης` in order, else `''`. |
| Html.Entity | assets/js/schedule.js:61 | `&` becomes `&amp;`, `<` becomes `&lt;`, `>` becomes `&gt;`, `"` becomes `&quot;`, and every other character is unchanged. |
| Html.EscapeHtml | assets/js/schedule.js:60-62 | An absent value gives `''`. |
| Html.EscapeTextConcat | assets/js/schedule.js:61 | The global replace works character by character: the escape of a concatenation is the concatenation of the escapes. |
| Html.EscapeTextPlain | assets/js/schedule.js:61 | Text without `&`, `<`, `>` and `"` passes through unchanged. |
| Html.EscapeTextNoMarkup | assets/js/halls.js:27-29 | The output holds no raw `<`, `>` or `"`. |
| Html.UnescapeEntity | assets/js/halls.js:28 | Each replacement decodes back to its own character, whatever follows it. |
| Html.UnescapePrefix | assets/js/halls.js:28 | Each of the four entities at the front decodes to its character. |
| Html.UnescapePlain | assets/js/halls.js:28 | A character other than the four special ones decodes as itself. |
| Html.EscapeTextRoundTrip | assets/js/halls.js:27-29 | Nothing is lost: decoding the four entities gives the input back. |
| Html.EscapeAttr | assets/js/halls.js:30-32 | An absent value gives `''`. |
| Html.QuoteTextIsSplitJoin | assets/js/halls.js:31 | The global replace of `"` equals splitting at every `"` and joining with `&quot;`. |
| Html.QuoteTextShape | assets/js/halls.js:30-32 | The output holds no `"`, and a text without `"` is unchanged, `&`, `<` and `>` included. |
| Html.QuoteTextConcat | assets/js/halls.js:31 | The escape of a concatenation is the concatenation of the escapes. |

## Left out

- `fetchCsv`, `withCacheBuster` and the `fetch` calls of `fetchSchedule`/`fetchHalls` (assets/js/utils.js:1-17): network I/O. The model starts from the response text and from the parsed rows.
- `renderGameCard` and `renderHallCard`: DOM construction. Only the escaping they apply is modelled.
- The wall clock. `now` is a parameter of the schedule operations. Its year is used as the current year of the date patterns, where the original reads the clock again.
- `now` with seconds and milliseconds: points in time are compared to the minute.
- The runtime's `new Date(s)` string parser, the third interpreter of `tryParseDate`. It is an opaque parameter that may fail; the model says nothing about what it accepts.
- The calendar arithmetic of the `Date` constructor:
  - rollover of out-of-range days, months, hours and minutes (`31/02` is kept as day 31 of month 1);
  - the mapping of years 0 to 99 to 1900 to 1999, reachable only through a 3- or 4-digit year below 100 such as `0099`;
  - the local time zone.

  The model orders the constructor's arguments lexicographically. That agrees with the runtime only for valid dates with years from 100 up.
- Dates.FormatParseRoundTrip: stated for years from 100 to 9999 with fields below 100. Years 10 to 99 print as two digits and are read back as 20yy by the year rule. Years below 10 or above 9999 print with a digit count the pattern rejects.
- Dates.TryParseDate: `(dateStr || '').trim()` on an input that is not a string is not modelled. A cell is always a string, and an absent cell is `''`.
- Html.EscapeHtml: `String(s || '')` is modelled for an absent value and for strings only, not for numbers or objects.
- Html.EscapeAttr: the same.
- Csv.ParseCsv: for a header named `__proto__`, the assignment of a string cell goes to the inherited `__proto__` setter, which ignores it, so the JavaScript record has no `__proto__` key, while the model's map holds one.
- Csv.ParseCsv: the text is split into lines before fields, as the original does, so a quoted field cannot span lines. The model keeps that behaviour; it does not model RFC 4180's multi-line fields.
- Schedule.SortHead: the built-in sort is modelled as a stable insertion sort. Its stability is proved only for the head of the list, which is all `findNextGame` uses; the lists are proved sorted and a permutation of their input.
- The `{ ...g, _dt: d }` spread is a pair of the game and its point in time, not a merged record.
