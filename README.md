# ReportesSM core in Dafny

ReportesSM is a browser dashboard for a grain-drying plant. It downloads two Google Sheets
exports as CSV and shows them as cards, a metrics table and KPIs. Under its DOM and `fetch`
plumbing in `script.js` there is a small, sequential core, which this project models and
proves properties of:

- **CSV tokenizer.** `splitCsvLine`, `parseCSV` and `csvToJson`. Quote characters toggle a
  quoted state and are dropped, an unquoted comma ends a cell, blank lines are skipped, and
  header-keyed records are built. The modules are `Csv` and `Text`.
- **Header and column resolution.** This covers `cleanHeader`, `cleanDate` and the metrics
  feed's date column: the first header mentioning "fecha", else column 12. It also covers
  the main feed's alias lists and `getValue`. The module is `Columns`.
- **Value coercers.** These are `fmt` in its two-decimal and "secadoras" modes,
  `formatPercent` and `formatHoras` (module `Coercers`), and `parseFecha` with the date
  list's sort key (module `Dates`). They rest on `Number`, `parseFloat`, `parseInt`,
  `Math.round` and `toFixed(2)`, modelled on decimal numerals with exact `real` arithmetic
  (module `Numbers`).
- **Main feed.** `updateDashboard` picks the last record for `"latest"`, otherwise the first
  record whose `Fecha` matches. It fills twelve cards. `loadData` replaces `allData`. This
  is class `MainFeed.Dashboard`.
- **Metrics feed.** This is class `MetricsFeed.Dataset`, whose fields are the `headers` and
  `allRows` globals.
  - `Load` is the validation and the wholesale assignment of `loadDataMetrics`. A refused
    text leaves both fields untouched.
  - `FillDateSelector` is a collection loop that keeps the distinct dates in first-seen
    order, then an in-place insertion sort that puts them newest first.
  - `LoadByDate` hands the first-match scan, which stops at the first hit as the source's
    `break` does, to the method `FindRow`. `LoadLatestDate` picks the first listed date.

The tokenizer loops, the date collection loop, the sort and the row scan are methods with
loop invariants. Each is proved against a function or predicate of its inputs:
`Csv.Cells`, `Csv.ParsedRows`, `MetricsFeed.DistinctDates`, `MetricsFeed.SortedBy` or,
for the row scan, `MetricsFeed.DateCell`. The properties the
dashboard relies on are then proved about those functions.

`Cells` is an independent reference definition of the tokenizer. It states the quote rule
as "an even number of quotes before this character", which is not the loop's toggle.

Three behaviours of the code a reader might not expect:

- `fmt` returns `"0.00"` for any value that is not a number (`script.js:36`). It does not
  return a caller-supplied default. Only `getValue` takes a default.
- In the metrics feed, "latest" is the newest date of the sorted list, and the row shown is
  the first row with that date (`script.js:429-433`). It is not the last row. The main
  feed's "latest" is the last record (`script.js:96-98`).
- The main feed has no date column index. It reads the record's `Fecha` key.

## Model

| member | source | states |
|---|---|---|
| Text.Trim | script.js:16 | `trim()` cuts a run of whitespace from each end and keeps the rest: the result is a slice of the input with only whitespace before and after it, and it is trimmed |
| Text.TrimIdempotent | script.js:16 | trimming a trimmed string changes nothing |
| Text.TrimKeepsVisible | script.js:16 | trimming keeps every non-whitespace character, in order |
| Text.TrimEmptyIffBlank | script.js:193 | `text.trim().length === 0` holds exactly when every character is whitespace |
| Text.TrimFrom | script.js:237 | every character of a trimmed string comes from the original |
| Text.RemoveAll | script.js:234-236 | `replace(/c/g, "")` leaves no `c`, keeps a string without `c` unchanged, and shortens by the number of `c` |
| Text.RemoveAllFrom | script.js:234-236 | every character left by a global deletion comes from the original |
| Text.RemoveAllAppend | script.js:234-236 | a global deletion of one character distributes over concatenation |
| Text.Without | script.js:234-236 | deleting a set of characters leaves none of them, invents no character, and keeps a string without them unchanged |
| Text.WithoutAppend | script.js:234-236 | deleting a set of characters distributes over concatenation |
| Text.RemoveAllIsWithout | script.js:234-236 | `replace(/c/g, "")` is the deletion of the set `{c}` |
| Text.WithoutWithout | script.js:234-236 | two deletions in a row delete the union of the two sets |
| Text.VisibleWithout | script.js:296-297 | deleting characters and keeping the non-whitespace ones commute |
| Text.IndexOf | script.js:35 | the position found is the first occurrence of the character, or the end exactly when it does not occur |
| Text.ReplaceFirst | script.js:35 | `replace(",", ".")` replaces only the first occurrence, keeping the text before and after it, and a string without it is unchanged |
| Text.LowerAscii | script.js:361 | `toLowerCase` on ASCII: no capital is left, each capital becomes its lower-case letter, and every other character is kept |
| Text.ContainsIffOccurs | script.js:361 | `includes(sub)` holds exactly when `sub` occurs at some position of the text |
| Text.Split | script.js:18 | `split(sep)` gives one more piece than separators, and no piece contains the separator |
| Text.JoinSplit | script.js:241 | joining the pieces back with the separator restores the string |
| Text.SplitThree | script.js:18 | three separator-free parts joined by the separator split back into those three |
| Text.NatToString | script.js:33 | `String(n)` of a natural number is non-empty digits, with a leading zero only for 0 |
| Text.DigitsOfNat | script.js:33 | the decimal digits of `n` are non-empty digits worth `n` |
| Text.IntToString | script.js:33 | `String(i)` is a minus sign for negatives and then digits, and the digits read back as the magnitude of `i` |
| Text.PadStart2 | script.js:321 | `padStart(2,"0")` puts one or two `0`s in front of a string shorter than two and returns a longer string unchanged |
| Numbers.Round | script.js:33 | `Math.round(x)` is within one half of `x`, halves going up |
| Numbers.Rounded2 | script.js:36 | the value `toFixed(2)` prints is within 0.005 of `x`, and a value of at most 100 stays at most 100 |
| Numbers.ToFixed2 | script.js:36 | `toFixed(2)` prints an optional minus, digits, a point and two digits |
| Numbers.ParseToFixed2 | script.js:36 | `Number` reads back what `toFixed(2)` prints as the value rounded to hundredths |
| Numbers.ParseIntToString | script.js:33 | `Number` reads back the decimal string of an integer as that integer |
| Numbers.ParseNumberBlank | script.js:31 | `Number` of a blank text is 0 |
| Numbers.ParseNumberTrailing | script.js:31 | `Number` of a text ending in anything other than a digit or a point is `NaN`: the whole text must be a numeral |
| Numbers.ParseFloatBlank | script.js:304 | `parseFloat` of a blank text is `NaN`, unlike `Number` |
| Numbers.ParseFloatPrefix | script.js:304 | `parseFloat` reads the longest numeral prefix: digits followed by something other than a digit or a point read as those digits |
| Numbers.ParseIntTruncatesParseFloat | script.js:21-23 | whenever `parseInt` reads a number, `parseFloat` reads one too, and `parseInt` is that value truncated toward zero |
| Numbers.LeadingDigitsAppend | script.js:326 | the digit run that starts `a + b`, for a digit string `a`, is all of `a` followed by the digit run that starts `b` |
| Csv.Cells | script.js:53-72 | reference tokenizer: always at least one cell |
| Csv.CellCount | script.js:53-72 | the number of cells is one plus the number of commas outside quotes |
| Csv.CellsHaveNoQuotes | script.js:58-61 | no cell contains a quote character |
| Csv.JoinCells | script.js:53-72 | for a line without quotes, the cells joined with `,` restore the line |
| Csv.CellsWithoutQuotes | script.js:53-72 | for a line without quotes, the cells are the pieces of `split(",")` |
| Csv.SplitCsvLine | script.js:53-72 | the quote-toggling loop computes exactly the reference cells |
| Csv.ParseRow | script.js:244-265 | `parseCSV`'s per-line loop computes the reference cells, each trimmed |
| Csv.NonBlank | script.js:241 | the kept lines are exactly the lines whose trim is not empty, in order |
| Csv.NonBlankAppend | script.js:241 | the filter distributes over concatenation, so it keeps the order of the lines |
| Csv.NonBlankOne | script.js:241 | a single line is kept exactly when its trim is not empty |
| Csv.ParseCsv | script.js:240-268 | the rows are one tokenized, trimmed row per non-blank `\n` line |
| Csv.ParsedRowsTrimmed | script.js:262 | every parsed row has at least one cell and every cell is trimmed |
| Csv.BlankTextNoRows | script.js:193-200 | a text parses to no rows exactly when it is empty or whitespace only |
| Csv.JsonLines | script.js:41 | `csv.trim().split(/\r?\n/)` gives one line more than the trimmed text has line feeds |
| Csv.Assign | script.js:47 | assigning values to names gives a record whose keys are exactly the names |
| Csv.AssignValue | script.js:47 | a name that no later name repeats gets its own value: the last assignment wins |
| Csv.BuildRecord | script.js:44-47 | the keys of a record are exactly the trimmed headers |
| Csv.RecordValue | script.js:46-47 | the value under a header is the trimmed cell below its last occurrence, or `""` past the end of the line |
| Csv.CsvToJson | script.js:40-50 | there is one record per line after the header, that is, one per line break of the trimmed text |
| Columns.CleanHeader | script.js:230-238 | a cleaned header is the header with every quote, CR and LF deleted and then trimmed, so it holds none of them and is trimmed; an empty header stays empty |
| Columns.StripJunk | script.js:234-236 | the three successive deletions delete exactly the quote, CR and LF |
| Columns.CleanHeaderIdempotent | script.js:230-238 | cleaning a cleaned header changes nothing |
| Columns.CleanHeaderOfClean | script.js:230-238 | a header already free of quotes and line breaks and trimmed is kept as it is |
| Columns.CollapseSpaces | script.js:296 | `replace(/\s+/g, " ")` leaves no two spaces side by side and only plain spaces, keeps every non-whitespace character in order, and ends in a space exactly when the input ends in whitespace |
| Columns.CollapseBlank | script.js:296 | a non-empty run of whitespace becomes one space |
| Columns.CollapseAround | script.js:296 | a non-whitespace character splits the collapse: each side collapses on its own |
| Columns.CollapseSnoc | script.js:296 | one more character is kept if visible, and a whitespace character adds a space only when no run is open |
| Columns.CleanDate | script.js:291-299 | a cleaned date has no quote, CR or LF, is trimmed, and holds only plain spaces |
| Columns.CleanDateOfUnquoted | script.js:291-299 | a cell without quotes, CR or LF is cleaned by collapsing its whitespace and trimming |
| Columns.CleanDateKeepsVisible | script.js:291-299 | cleaning keeps every non-whitespace character other than the quote, in order |
| Columns.CleanDatePlain | script.js:291-299 | a cell with no whitespace and no quote, such as `05/03/2024`, is its own cleaned date |
| Columns.FindFecha | script.js:361 | `findIndex` returns the first position that mentions "fecha", or the end |
| Columns.FechaIndex | script.js:361-364 | the date column is the first header mentioning "fecha" in any case, else 12 |
| Columns.FirstKey | script.js:110-113 | `find(k => k in row)` gives None exactly when no alias is a key, otherwise the first alias that is a key |
| Columns.FirstKeyAt | script.js:110-113 | when alias `i` is the first one the row has, `find` returns it |
| Columns.GetValue | script.js:490-495 | past the end of the row the default, otherwise the cell trimmed (`Trim(row[index])`), which is empty exactly when the cell is blank |
| Columns.GetValueOfParsedRow | script.js:490-495 | on a row from `parseCSV`, `getValue` returns the cell as it is |
| Coercers.Fmt | script.js:35-36 | the default mode always prints two decimals. A non-number gives `"0.00"`, and a number is shown rounded to hundredths |
| Coercers.FmtText | script.js:35 | a missing or empty value reads as `"0"`, a value without a comma is read as it is, and otherwise the text is the part before the first comma, a point, and the rest unchanged |
| Coercers.FmtMissing | script.js:35 | a missing or empty value shows as `0.00` |
| Coercers.FmtDecimalComma | script.js:35 | a decimal comma reads as a decimal point |
| Coercers.FmtSecadoras | script.js:29-34 | secadoras mode gives `""` for a missing value and the trimmed text for a non-number. A number gives the rounded integer with no point |
| Coercers.PercentOf | script.js:305-307 | values in (0, 1] are multiplied by 100, values above 100 become 100, and others stay as they are |
| Coercers.PercentValueDecimal | script.js:303-304 | a percentage with a decimal comma such as `85,5%` reads as its decimal value |
| Coercers.CommaToPoint | script.js:303 | replacing the first comma of `w,f` gives `w.f` |
| Coercers.DropTrailing | script.js:303 | deleting the first `%` of a text ending in its only `%` gives the text before it |
| Coercers.FormatPercent | script.js:301-309 | `"--%"` for an empty or unreadable value. Otherwise a two-decimal number followed by `%`, reading back as the scaled value, which is at most 100 |
| Coercers.HoursMinutes | script.js:337-339 | the hours are `Math.floor` of the value and the rounded minutes (0 to 60) make up the value to the nearest minute, so a leftover that rounds up gives 60 minutes, not the next hour |
| Coercers.RawHoras | script.js:319-340 | as written: `H:M` gives the values of its two digit groups, a day fraction gives `Math.floor` of 24 times it as hours and any other number its own floor, each with the rounded minutes (up to 60) to the nearest minute. None exactly when the value is neither `H:M` nor a number |
| Coercers.FormatHorasAsWritten | script.js:311-343 | `formatHoras` exactly as written, including the minute that rounds to 60 |
| Coercers.Carry | script.js:328-330 | sixty rounded minutes become one more hour, keeping the total minutes |
| Coercers.Horas | script.js:319-340 | the numeric branches give the value to the nearest minute, with fewer than 60 minutes past the hour |
| Coercers.FormatHoras | script.js:311-343 | `"00:00:00"` for an empty value or one that is neither `H:M` nor a number. An `H:MM:SS` value is trimmed and unchanged, an `H:M` value is the clock of its hour and minute groups, and every branch but `H:MM:SS` ends in `:00` |
| Coercers.HmsShapeOf | script.js:316 | digit groups of widths 1-2, 2 and 2 joined by colons match `/^\d{1,2}:\d{2}:\d{2}$/` and split back into those groups |
| Coercers.HmsShapeParts | script.js:316 | a value matching `/^\d{1,2}:\d{2}:\d{2}$/` is its three groups joined by colons |
| Coercers.HmShapeOf | script.js:319 | digit groups of widths 1-2 joined by a colon match `/^\d{1,2}:\d{1,2}$/` and split back into those groups |
| Coercers.HmShapeParts | script.js:319 | a value matching `/^\d{1,2}:\d{1,2}$/` is its two groups joined by a colon |
| Coercers.DayFractionOf | script.js:325 | two digit groups around a point match `/^\d+\.\d+$/` |
| Coercers.DayFractionParts | script.js:325-326 | a value matching `/^\d+\.\d+$/` is its two groups around the point, and `parseFloat` reads it exactly |
| Coercers.ClockReadBack | script.js:321 | a printed clock splits at its colons into the hour, the minute and `00`, whose digits read back as the hour and minute |
| Coercers.DayFractionToNearestMinute | script.js:325-331 | a `d+.d+` value is shown as that fraction of a day in hours and minutes, to the nearest minute |
| Coercers.HmNormalised | script.js:319-322 | an `H:M` value is zero-padded to `HH:MM:00` with the same hour and minute values, which `formatHoras` then keeps as it is |
| Coercers.ClockIsHms | script.js:321 | hours and minutes below 100 print in the `H:MM:SS` shape |
| Coercers.MinuteSixtyAsWritten | script.js:328-330 | the day fraction `0.9999` prints as `23:60:00` as written, and as `24:00:00` with the carry |
| Coercers.MinuteSixtyAsWrittenAny | script.js:328-330 | as written, every day fraction whose leftover minutes round up to 60 prints `Clock(h, 60)`, whose minute group is `60` |
| Coercers.MinuteSixtyCarried | script.js:328-330 | the corrected reading of such a value prints the next hour with `00` minutes |
| Coercers.MinuteSixtyRaw | script.js:325-330 | such a value has neither clock shape, and its as-written hours and minutes are its whole hours and 60 |
| Coercers.CarriedHoras | script.js:328-330 | 60 raw minutes become the next hour with 0 minutes in the corrected reading |
| Coercers.AsWrittenClock | script.js:311-343 | as written, a readable value without the `H:MM:SS` shape prints its raw hours and minutes |
| Coercers.CorrectedClock | script.js:311-343 | corrected, a readable value without the `H:MM:SS` shape prints its carried hours and minutes |
| Coercers.MinuteGroup | script.js:330 | the printed clock `Clock(h, 60)` splits into the padded hour, `60` and `00` |
| Dates.FullYear | script.js:20-24 | `new Date(y, …)` reads a year from 0 to 99 as 1900 to 1999 |
| Dates.ParseFecha | script.js:14-25 | null exactly for a falsy value, or for a non-ISO value without exactly three `/` parts. An ISO value gives an existing day |
| Dates.ParseFechaIso | script.js:16-17 | a trimmed ISO value that names an existing day is read as that day |
| Dates.ParseFechaSlashes | script.js:18-24 | a trimmed non-ISO value of three `/` parts whose parts all read with `parseInt` is day, month and year from the first, second and third part |
| Dates.DayFirst | script.js:20-24 | `d/m/y` with digit parts is day `d` of month `m` of year `y` |
| Dates.IsoAgreesWithDayFirst | script.js:17-24 | the ISO and day-first forms of the same day give the same date |
| Dates.SortKeyDayFirst | script.js:392-394 | the date list's comparator reads `d/m/y` day-first too |
| Dates.SortKey | script.js:392-394 | a key exists exactly when there are at least three `/` parts and `Number` reads the first three; its year is the third part truncated and mapped by `FullYear`, and its month and day are the second and first part truncated |
| Dates.BeforeTotal | script.js:390-398 | any two dates are ordered one way or the other, with unreadable dates last |
| Dates.BeforeTransitive | script.js:390-398 | the newest-first order is transitive |
| Dates.UnreadableLast | script.js:390-398 | a readable date comes before an unreadable one and not after it |
| Dates.LaterYearFirst | script.js:390-398 | of two readable dates, the one in the later year comes first and the other does not |
| MainFeed.Field | script.js:116-131 | `row[key]` is the cell when the key is present, and `undefined` otherwise |
| MainFeed.FindFechaFrom | script.js:98 | `find(r => r.Fecha === f)` gives the first record with that `Fecha`, or None exactly when there is none |
| MainFeed.SelectRow | script.js:95-100 | `"latest"` selects the last record, or nothing for no data. Any other filter selects the first record whose `Fecha` equals it, or nothing when none does |
| MainFeed.AliasKey | script.js:110-117 | a quantity is read under the alias `find` returns, the first present, or under the key `"undefined"` when none is |
| MainFeed.AliasOrZero | script.js:112-119 | the wet and humid quantities fall back to `0` exactly when no alias is present, and otherwise read the cell under the alias `find` returns |
| MainFeed.ViewOf | script.js:116-131 | every quantity card prints two decimals. Each fixed-key card formats its own column, a missing quantity column prints `0.00` and a missing drier count prints `""` |
| MainFeed.Quantity | script.js:123-131 | `fmt(row[key])` prints two decimals: the column formatted, or `0.00` when the column is missing |
| MainFeed.DrierCount | script.js:122-130 | `fmt(row[key], true)` is the secadoras format of the column, or `""` when the column is missing |
| MainFeed.AliasIsFirst | script.js:110-119 | with alias `i` the first one the row has, the key is that alias and the fallback form reads its cell |
| MainFeed.TotalUsesFirstAlias | script.js:110-116 | the total card reads the first of its aliases that the record has |
| MainFeed.PresecoUsesFirstAlias | script.js:111-117 | the pre-dried card reads the first of its aliases that the record has |
| MainFeed.MojadoUsesFirstAlias | script.js:112-118 | the wet card reads the first of its aliases that the record has |
| MainFeed.HumedoUsesFirstAlias | script.js:113-119 | the humid card reads the first of its aliases that the record has |
| MainFeed.MojadoMissingIsZero | script.js:112-118 | without any wet-quantity alias the card shows `0.00` |
| MainFeed.HumedoMissingIsZero | script.js:113-119 | without any humid-quantity alias the card shows `0.00` |
| MainFeed.TotalMissingIsZero | script.js:110-116 | without any total alias, and without an `undefined` column, the card shows `0.00` |
| MainFeed.UpdateDashboard | script.js:94-134 | no update exactly when no row is selected, otherwise the cards of the selected row |
| MainFeed.LatestShowsLastLine | script.js:143-145 | the initial load shows the last line of the sheet |
| MainFeed.Dashboard.LoadData | script.js:138-150 | `allData` is replaced by the records of the text, and the latest is shown. Nothing is shown exactly when the text has no data line |
| MainFeed.Dashboard.Select | script.js:163-165 | the selector's change handler shows the first record with the selected date, or nothing when none has it |
| MetricsFeed.CleanHeaders | script.js:205 | the headers are cleaned one by one, keeping their number |
| MetricsFeed.DateCell | script.js:372-374 | a row too short to reach the date column has no date |
| MetricsFeed.FirstSeen | script.js:369-381 | the keys of a `Map` set in turn occur once each and are non-empty |
| MetricsFeed.FirstSeenMembers | script.js:369-381 | the `Map` keys are exactly the non-empty keys set |
| MetricsFeed.DistinctDates | script.js:369-381 | the unsorted date list holds each non-empty cleaned date cell exactly once, and nothing else |
| MetricsFeed.InsertSwap | script.js:390-398 | one swap of the insertion sort keeps the prefix ordered except at the moving element |
| MetricsFeed.InsertDone | script.js:390-398 | when the moving element stops, the prefix is ordered |
| MetricsFeed.InsertLast | script.js:390-398 | one insertion step sorts the prefix and permutes the array |
| MetricsFeed.SortBy | script.js:390-398 | `sort` with a total, transitive comparator leaves the array ordered and a permutation of itself |
| MetricsFeed.CardText | script.js:549-553 | the card reads the entered quantity, else the processed one, else `'0'`. A number prints two decimals and reads back rounded to hundredths, and a non-number prints `NaN` |
| MetricsFeed.ViewOfRow | script.js:498-553 | every text of the table, KPIs and card, field by field: `turnos`, `qqsMojadoProcesados`, `procesados` and `rechazados` are the trimmed cells 0, 5, 6 and 7, or `24:00:00`, `0`, `N/A` and `N/A` past the end of the row. The four durations are `FormatHoras` of cells 1-4, or `00:00:00`. The four KPIs are `FormatPercent` of cells 8-11, or `--%`. The card is `CardText` of cell 13 (else `"0"`) and cell 5 (else `"0"`) |
| MetricsFeed.ShortRowDefaults | script.js:498-512 | a one-cell row shows the defaults: `00:00:00`, `0`, `N/A` and `--%` |
| MetricsFeed.KpisAtMostHundred | script.js:533-545 | every KPI shows `--%` or a two-decimal percentage of at most 100 |
| MetricsFeed.Dataset.Load | script.js:193-212 | a blank text is refused as empty and fewer than two rows as too few, both leaving the state as it was. Otherwise the headers are the cleaned first row and the data rows are the rest |
| MetricsFeed.Dataset.CollectDates | script.js:369-381 | the collection loop computes the distinct dates in first-seen order |
| MetricsFeed.Dataset.FillDateSelector | script.js:345-398 | the list holds each non-empty cleaned date cell exactly once, sorted newest first |
| MetricsFeed.Dataset.LoadByDate | script.js:436-466 | nothing for an empty selection. Otherwise the lowest-index row reaching the date column whose cleaned date is the selection, shown with its texts, or not-found exactly when there is none |
| MetricsFeed.FindRow | script.js:449-458 | the scan over `allRows` stops at the lowest-index row whose cleaned date cell, for a row reaching the date column, is the selection, and gives -1 exactly when there is none |
| MetricsFeed.Dataset.LoadLatestDate | script.js:421-433 | nothing for an empty list. Otherwise the first listed date, which always has a row |
| MetricsFeed.Dataset.LoadDataMetrics | script.js:180-228 | a failed load changes nothing. A good one lists the dates newest first; nothing is shown exactly when the list is empty; otherwise it shows the lowest-index row of the first date, which is at least as new as every other listed date, with that row's `ViewOfRow` |

## Left out

- The DOM and the UI are left out: element lookups, `innerHTML`, option creation, badge
  markup, `hideLoading`, `showError` and event listener wiring. This includes the extra
  change listener that every `fillDateSelector` call adds, and the duplicate
  `refreshAllData`, of which the later declaration wins.
- `populateDateSelector` (`script.js:76-91`) fills the main feed's date selector. It
  deduplicates the records' `Fecha` values, drops falsy ones and sorts them newest first by
  `parseFecha`, then adds one option per date with a locale-formatted label. Its only output
  is DOM options, so it is left out; the order it relies on is modelled as `Dates.ParseFecha`.
- I/O is left out: `fetch`, the `response.ok` check, `async`/`await`, cache-busting with
  `Date.now` and `console` logging. `Load`, `LoadData` and `LoadDataMetrics` take the
  downloaded text as a parameter.
- Racing refreshes are concurrency and are not modelled. Each load is one atomic step.
- Locale rendering (`toLocaleDateString("es-ES")`, `toLocaleString`) depends on the host,
  and the "Datos de:" title is left out with it.
- JavaScript `Date` internals are left out:
  - ISO strings are read as UTC and the numeric constructor uses local time;
  - an out-of-range day or month rolls over;
  - timestamps are not modelled.
  Dates are (year, month, day) triples.
- Dates.ParseFecha: an ISO value naming a day that does not exist is modelled as an Invalid
  Date. A day-first value is returned without rolling over out-of-range parts.
- Dates.Before: the comparator's result for dates it cannot read (`NaN`) is left to the
  engine. The model puts unreadable dates last so that the order is total. Days that roll
  over are compared as written.
- MetricsFeed.SortBy: stability is not stated, so the order among dates with the same key is
  not fixed by the contract.
- IEEE-754 doubles and the full JavaScript number grammar are left out. Numbers are decimal
  numerals (optional sign, digits, optional fraction) read exactly as `real`. Exponents,
  `Infinity`, hex, binary rounding and the exponent form of `toFixed` are not modelled.
- `fechasMap.set(fecha, i)` stores a row index that is never read. The model keeps only the
  keys, in insertion order.
- `loadDataMetrics`'s "No se encontraron datos" branch (`script.js:218-222`) cannot be
  reached, since a good load keeps at least one data row. It is not modelled.
- `toLowerCase` is modelled on ASCII letters only. Only ASCII letters lower-case to the
  letters of "fecha", so the date column is still found as in the source.
- `__proto__` and other special object keys are left out. Records are plain maps from
  header to cell.
- MetricsFeed.ViewOfRow: the four durations use the corrected `Coercers.FormatHoras`, so a
  `0.9999` cell shows `24:00:00` where `script.js:521-524` as written shows `23:60:00`. The
  as-written behaviour is `Coercers.FormatHorasAsWritten`; the same holds for
  `MetricsFeed.Dataset.LoadByDate`, which shows `ViewOfRow`.
- Columns.CleanDate: no idempotence is claimed. Deleting quotes after collapsing whitespace
  can bring two spaces together, as in `a " b`.

## Findings

| source | as written | input that shows it | evidently intended | confidence | as-written member | corrected member |
|---|---|---|---|---|---|---|
| script.js:328-330 | the day-fraction branch rounds the leftover minutes with `Math.round` and never carries 60 minutes into the hour | `formatHoras("0.9999")` gives `23:60:00` (0.9999 days are 23 h 59.856 min) | `24:00:00`, a clock time with fewer than 60 minutes | not executed | Coercers.MinuteSixtyAsWritten | Coercers.FormatHoras |

The same rounding appears in the plain-hours branch (`script.js:337-339`). `Coercers.Horas`
carries there too. The rest of the model uses the corrected `Coercers.FormatHoras`.
