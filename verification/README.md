# Re-verification page: a Dafny model of its logic

The re-verification page loads task rows from a spreadsheet-backed endpoint. It keeps
the rows assigned to the signed-in user (an admin sees every row) and sorts them into
two lists:

- **pending**: planned date (column K) and second marker (column L) present, no
  verification date (column S);
- **history**: all three present.

On the pending list the user checks rows, types a remark for each, and submits. The
page then moves the checked rows into history locally, each stamped with today's
date and its remark, and sends the same data to the spreadsheet in the background.
Both lists can be searched. Pending is ordered by planned date, oldest first, and
history by verification date, newest first.

This project models the pure logic inside that page, as immutable data and total
functions:

| module | file | what it holds |
|---|---|---|
| `Optional` | optional.dfy | `Option` |
| `JsText` | js_text.dfy | the JavaScript string operations the page relies on: `trim` over the JavaScript whitespace set, `toLowerCase` (ASCII), `includes`, `padStart(2, "0")`, integer `toString` and `parseInt` |
| `Cells` | cells.dfy | a spreadsheet value (`Str`, `Num` or `Null`), JavaScript truthiness, the fallback to "" for falsy values, and the page's `isEmpty` |
| `Dates` | dates.dfy | `formatDateToDDMMYYYY`, the `DD/MM/YYYY` test, the serialised `Date(Y,M,D)` form, `parseGoogleSheetsDate`, `split("/")`, and the day number `new Date(y, m - 1, d)` denotes (the day arithmetic of section 21.4.1 of ECMA-262) |
| `Response` | response.dfy | the `{`…`}` fallback extraction, the three payload shapes, and per-row cell extraction |
| `Rows` | rows.dfy | the `rows.forEach` classifier: header skip, assignee gating, `isEmpty` flags, row index and id, the 20 columns, the pending/history/dropped split, and the whole load |
| `Views` | views.dfy | the search filter and the two date orderings of the displayed lists |
| `Session` | session.dfy | the page state as one `ViewState` record, and one transition per handler: load, check/uncheck, remark edit, select-all, and the submission reconciler |

A few modelling choices:

- **Selection.** The selection is a JavaScript `Set`. Its iteration order decides the
  order of the promoted history records and of the write rows. So it is modelled as a
  duplicate-free `seq<string>` in insertion order, not as a `set`.
- **Columns.** A record keeps its 20 columns as `Cell`s, because a numeric cell stays
  a number in the record. The date columns G, K and S always become strings.
- **No remark invariant.** Remarks are not tied to the selection. Unchecking one row
  drops that row's remark (lines 272-278). Select-all keeps every remark, though, even
  for rows it deselects (line 304). So "every remark belongs to a selected row" is not
  an invariant of the code, and the model does not claim it. `Wf` (ids unique, only
  pending rows selected, no repeats) is what every handler keeps.
- **Numeric assignee.** When a row's column E holds a non-zero number and the user is
  not an admin, `assignedTo.toLowerCase()` throws. That aborts the whole load (the
  `catch` at lines 251-254). The model reproduces this as `LoadFailed(AssigneeNotText)`.
- **Zero in a date column.** Columns K, L and S decide the bucket through `isEmpty`, so
  a numeric 0 counts as present. The record's date columns use truthiness, so the same
  0 is stored as `""` (lines 200-202 against 222-234). The model keeps both readings.

## Model

| member | source | states |
|---|---|---|
| JsText.Trim | src/pages/Re-verification.jsx:47-49 | trimming yields "" exactly when every character is JavaScript whitespace |
| JsText.TrimStart | src/pages/Re-verification.jsx:48 | the result is a suffix of the input after a whitespace-only prefix and does not start with whitespace |
| JsText.TrimEnd | src/pages/Re-verification.jsx:48 | the result is a prefix of the input before a whitespace-only suffix and does not end with whitespace |
| JsText.Lower | src/pages/Re-verification.jsx:192 | lower-casing keeps the length and maps each character by itself (ASCII letters shift, the rest stay) |
| JsText.LowerIdempotent | src/pages/Re-verification.jsx:109 | lower-casing twice is lower-casing once, so comparing lowered texts is stable |
| JsText.NatToString | src/pages/Re-verification.jsx:41-42 | the numeral is non-empty, all digits, and exactly as long as the magnitude needs (no leading zero) |
| JsText.DigitsValueOfNatToString | src/pages/Re-verification.jsx:68-71 | reading back the numeral of n gives n (parseInt inverts toString) |
| JsText.NatToStringInjective | src/pages/Re-verification.jsx:208 | different numbers have different numerals |
| JsText.DigitsValueLeadingZero | src/pages/Re-verification.jsx:91 | a leading zero does not change the value of a digit run |
| JsText.PadStart2 | src/pages/Re-verification.jsx:41-42 | padding yields max(2, length) characters: zeros followed by the original text |
| JsText.PadStart2Value | src/pages/Re-verification.jsx:41-42 | padding a numeral keeps it all digits and keeps its value |
| Cells.OrEmpty | src/pages/Re-verification.jsx:216-221 | the fallback is never null and is truthy exactly when its input is; a truthy value is kept and a falsy one becomes "" |
| Cells.IsEmptyCharacterised | src/pages/Re-verification.jsx:47-49 | `isEmpty` holds exactly for null and whitespace-only strings |
| Cells.TruthyVersusEmpty | src/pages/Re-verification.jsx:200-226 | falsy but not empty holds only for the number 0; truthy and empty holds exactly for a non-empty whitespace-only string |
| Dates.FormatDateSplits | src/pages/Re-verification.jsx:40-45 | splitting a formatted date at "/" gives exactly three parts: the padded day, the padded one-based month and the year's numeral |
| Dates.FormatDateCanonical | src/pages/Re-verification.jsx:40-45 | a day and month below 100 with a four-digit year format to text that passes the `DD/MM/YYYY` test |
| Dates.FormatDateExample | src/pages/Re-verification.jsx:40-45 | 5 March 2024 (month index 2) formats as "05/03/2024" |
| Dates.NumeralOfLength | src/pages/Re-verification.jsx:41-43 | a number between 10^(k-1) and 10^k has a k-digit numeral |
| Dates.PaddedNumeralShape | src/pages/Re-verification.jsx:41-42 | a number below 100 pads to exactly two digits |
| Dates.DigitRun | src/pages/Re-verification.jsx:66 | the matched `\d+` run is all digits and maximal (stops at the end or at a non-digit) |
| Dates.LeftmostFirst | src/pages/Re-verification.jsx:66 | a leftmost search finds nothing exactly when no position finds anything, and otherwise returns what the first successful position finds, every earlier position failing |
| Dates.FindDateCallLeftmost | src/pages/Re-verification.jsx:66 | the unanchored search finds nothing exactly when no position holds `Date(d,d,d)`, and otherwise returns the match at the first position that holds one |
| Dates.DateCallExample | src/pages/Re-verification.jsx:66-71 | `Date(2024,2,5)` matched at the start captures year 2024, month index 2 and day 5 |
| Dates.NormalizeDate | src/pages/Re-verification.jsx:58-85 | empty stays empty; a `DD/MM/YYYY` text is returned unchanged; a text starting `Date(` that contains a match is formatted from the leftmost match; anything else is the host parser's formatted date, or the text itself when that fails |
| Dates.NormalizeSerialisedExample | src/pages/Re-verification.jsx:65-72 | "Date(2024,2,5)" normalises to "05/03/2024", whatever the host parser does |
| Dates.SerialisedDateNormalisesOnce | src/pages/Re-verification.jsx:61-72 | a serialised date whose parts fit normalises to canonical text, and normalising that again changes nothing |
| Dates.NormalizeIdempotent | src/pages/Re-verification.jsx:58-85 | whenever every date reached fits the canonical shape, normalisation is idempotent |
| Dates.SplitSlashPieces | src/pages/Re-verification.jsx:89 | no part produced by `split("/")` contains "/" |
| Dates.SplitSlashJoins | src/pages/Re-verification.jsx:89 | joining the parts of `split("/")` with "/" gives back the input |
| Dates.SplitJoinRoundTrip | src/pages/Re-verification.jsx:89 | splitting the "/"-join of slash-free parts gives back those parts |
| Dates.SplitSlashAppend | src/pages/Re-verification.jsx:89 | splitting `x + "/" + y`, with y slash-free, is splitting x and appending y |
| Dates.SplitThree | src/pages/Re-verification.jsx:89-90 | three slash-free parts joined by "/" split back into exactly those three |
| Dates.ReadDayMonthYear | src/pages/Re-verification.jsx:87-91 | a date is read exactly when the text is non-empty and splits into three runs of digits, and then its day, month and year are the values of those runs |
| Dates.NegativeYearUnread | src/pages/Re-verification.jsx:40-91 | a date of a negative year formats to text that does not read back as a date |
| Dates.ReadFormattedDate | src/pages/Re-verification.jsx:87-92 | reading a formatted date back gives its day, one-based month and year |
| Dates.DaysBeforeMonthStep | src/pages/Re-verification.jsx:91 | the days before a month plus its length are the days before the next month (or the year length after December) |
| Dates.DayFromYearStep | src/pages/Re-verification.jsx:91 | consecutive years start 365 days apart, or 366 after a leap year |
| Dates.DayFromYearMonotone | src/pages/Re-verification.jsx:91 | a later year starts no earlier than the end of an earlier one |
| Dates.DaysBeforeMonthMonotone | src/pages/Re-verification.jsx:91 | a later month starts no earlier than the end of an earlier one |
| Dates.MakeDayOfValid | src/pages/Re-verification.jsx:91 | for a valid month no year carry happens: the day number is year start plus days before the month plus day minus one |
| Dates.MakeDayWithinYear | src/pages/Re-verification.jsx:91 | a valid date's day number lies within its own year |
| Dates.EarlierHasSmallerDay | src/pages/Re-verification.jsx:91-101 | a calendar-earlier valid date has a smaller day number |
| Dates.MakeDayChronological | src/pages/Re-verification.jsx:94-102 | for valid dates, comparing day numbers is comparing the dates (both directions), and equal day numbers mean equal dates |
| Dates.DateKey | src/pages/Re-verification.jsx:87-92 | a text has a sort key exactly when it reads as day, month and year, and the key is the day number of that date (month counted from zero) |
| Dates.DateKeyOfFormattedDate | src/pages/Re-verification.jsx:87-92 | the sort key of a formatted date (year at least 100) is that date's day number |
| Response.IndexOfChar | src/pages/Re-verification.jsx:156 | `indexOf` returns -1 exactly when the character is absent, else its first position |
| Response.LastIndexOfChar | src/pages/Re-verification.jsx:157 | `lastIndexOf` returns -1 exactly when the character is absent, else its last position |
| Response.ExtractJsonObject | src/pages/Re-verification.jsx:156-163 | extraction fails exactly when a brace is missing |
| Response.ExtractJsonObjectSpan | src/pages/Re-verification.jsx:156-163 | with both braces present, the result is the widest span from the first "{" to the last "}"; `substring` swaps its bounds when the "}" comes first |
| Response.RowValues | src/pages/Re-verification.jsx:181-189 | a `c` row yields one value per cell, each the cell's `v` or "" when the cell or its `v` is missing; an array row yields itself; exactly the rows of other shapes are skipped |
| Response.PayloadRows | src/pages/Re-verification.jsx:169-176 | `table.rows` and a bare array are taken as they are, a `values` grid gives one row per line, and anything else gives no rows |
| Response.GridRowsReadBack | src/pages/Re-verification.jsx:174-175 | a wrapped grid line reads back as the original line of values |
| Rows.ColumnValue | src/pages/Re-verification.jsx:211-236 | a column is never null and a date column (G, K, S) is always text; a falsy cell becomes "", a canonical date is stored unchanged, a truthy date cell is normalised from its text, and any other truthy cell is kept as it is |
| Rows.Assignee | src/pages/Re-verification.jsx:191 | the assignee is always truthy, and "Unassigned" when column E is falsy |
| Rows.GateRowCharacterised | src/pages/Re-verification.jsx:191-193 | an admin is admitted to every row; anyone else exactly when the assignee lower-cased equals their name lower-cased, with a fault exactly for a numeric assignee; an empty assignee admits exactly the user named "unassigned" |
| Rows.BucketsPartition | src/pages/Re-verification.jsx:238-245 | a row is dropped exactly when K or L is empty; otherwise it goes to history exactly when S is present, so the buckets are disjoint |
| Rows.MakeIdDeterminesRow | src/pages/Re-verification.jsx:204-209 | two equal ids come from the same sheet row, so rows at different positions get different ids |
| Rows.IdInitial | src/pages/Re-verification.jsx:207-209 | an id starts with "t" exactly when the task id is truthy, and with "r" otherwise |
| Rows.BuildTask | src/pages/Re-verification.jsx:204-236 | the record's sheet row is the position plus one, its task id is column B or "", its id is built from those, and every column follows the column rule |
| Rows.ClassifyRow | src/pages/Re-verification.jsx:178-179 | the header row never yields a record or a fault, a fault only happens for a non-admin, and a record carries its position plus one and the matching id |
| Rows.ClassifyRowDecides | src/pages/Re-verification.jsx:178-245 | a row of unknown shape is skipped; a record comes only from an admitted non-header row and goes to the bucket its K, L and S decide; a fault happens exactly when gating faults |
| Rows.Gather | src/pages/Re-verification.jsx:178-246 | folding the verdicts fails exactly when one of them is a fault |
| Rows.GatherSound | src/pages/Re-verification.jsx:178-246 | when each record verdict carries its position plus one, every gathered record is the record of the verdict for its own sheet row, in the list that verdict names |
| Rows.GatherComplete | src/pages/Re-verification.jsx:178-246 | every pending or history verdict's record is gathered into the matching list |
| Rows.Collect | src/pages/Re-verification.jsx:178-246 | collecting fails exactly when some row faults |
| Rows.CollectSound | src/pages/Re-verification.jsx:178-246 | every collected record is the record its own row's verdict produced, in the bucket that verdict names |
| Rows.CollectComplete | src/pages/Re-verification.jsx:178-246 | every pending or history verdict's record is in the matching list |
| Rows.CollectStep | src/pages/Re-verification.jsx:178-246 | each row appends its record, if any, to the end of its bucket |
| Rows.CollectShape | src/pages/Re-verification.jsx:178-246 | every collected record comes from a sheet row at least 2 with the id built from that row; both lists are in strictly increasing sheet-row order, and no sheet row appears in both |
| Rows.AppendLaterRow | src/pages/Re-verification.jsx:241-244 | pushing the record of a later row keeps a list in sheet-row order |
| Rows.Ingest | src/pages/Re-verification.jsx:169-254 | the load fails exactly when some row faults, and never fails for an admin; a successful load holds exactly the pending and history lists collected from all rows of the payload |
| Rows.DistinctRowsDistinctIds | src/pages/Re-verification.jsx:204-209 | records built from distinct sheet rows have distinct ids across both lists |
| Rows.CollectIdsDistinct | src/pages/Re-verification.jsx:204-246 | ids are unique across the collected pending and history lists |
| Rows.IngestIdsDistinct | src/pages/Re-verification.jsx:204-249 | ids are unique across both loaded lists |
| Rows.IngestSkipsHeader | src/pages/Re-verification.jsx:179-204 | no loaded record comes from the header: every sheet row is at least 2 |
| Views.SearchValues | src/pages/Re-verification.jsx:108 | the values searched are exactly the id, the sheet row, the task id and the twenty columns |
| Views.Matches | src/pages/Re-verification.jsx:107-110 | a record whose non-empty id contains the term, ignoring case, matches |
| Views.MatchesIgnoresCase | src/pages/Re-verification.jsx:107-110 | only the lower-cased term matters: a term and its lower-cased form match the same records |
| Views.FilterTasks | src/pages/Re-verification.jsx:105-112 | the filtered list holds exactly the matching records, in their original order |
| Views.FilterEmptyTerm | src/pages/Re-verification.jsx:106-112 | an empty search term keeps the list as it is |
| Views.FilterIdempotent | src/pages/Re-verification.jsx:117-126 | filtering twice by the same term is filtering once |
| Views.BeforeTotal | src/pages/Re-verification.jsx:94-102 | any two keys can be ordered one way or the other |
| Views.BeforeTransitive | src/pages/Re-verification.jsx:94-102 | the order is transitive, so a sorted list is ordered pairwise |
| Views.Insert | src/pages/Re-verification.jsx:114 | inserting into a sorted list adds exactly that record and keeps the list sorted |
| Views.InsertWithKey | src/pages/Re-verification.jsx:114 | inserting a record into a sorted list puts it after every record with the same key, leaving their order alone |
| Views.SortByStable | src/pages/Re-verification.jsx:114 | the sort is stable: the records sharing any key appear in their input order |
| Views.SortByDate | src/pages/Re-verification.jsx:114 | the sorted list is a permutation of the input, and every pair is in comparator order: dated before undated, dated by the direction |
| Views.PendingView | src/pages/Re-verification.jsx:104-115 | the pending view is a permutation of the matching pending records; every dated record comes before every undated one, oldest planned date first |
| Views.HistoryView | src/pages/Re-verification.jsx:117-136 | the history view is a permutation of the matching history records; every dated record comes before every undated one, newest verification date first |
| Views.PendingViewKeepsSameDayOrder | src/pages/Re-verification.jsx:104-115 | records planned for the same day keep their pending order in the view |
| Views.HistoryViewKeepsSameDayOrder | src/pages/Re-verification.jsx:117-136 | records verified on the same day, such as one submitted batch, keep their history order in the view |
| Session.Load | src/pages/Re-verification.jsx:248-254 | the page becomes ready exactly when ingestion succeeds; its pending and history lists are then the ingested ones, the invariant holds, and nothing is selected or remarked |
| Session.RemoveId | src/pages/Re-verification.jsx:272 | deleting an id removes exactly that id and keeps the others in order, still without repeats |
| Session.SelectItem | src/pages/Re-verification.jsx:263-284 | checking adds the id once at the end and leaves the remarks alone; unchecking removes the id and its remark and nothing else; the lists never change |
| Session.SetRemark | src/pages/Re-verification.jsx:672 | typing sets that row's remark and changes nothing else |
| Session.Dedup | src/pages/Re-verification.jsx:304 | building a Set keeps exactly the listed ids, without repeats, and a list already without repeats is kept as it is |
| Session.DedupFirstOccurrenceOrder | src/pages/Re-verification.jsx:304 | the Set keeps the ids in the order of their first occurrence |
| Session.SelectAll | src/pages/Re-verification.jsx:296-313 | select-all on makes the selection exactly the ids of the currently shown pending records and keeps the remarks, and with unique pending ids the selection is those ids in the order shown; off empties selection and remarks; the lists never change |
| Session.FindTask | src/pages/Re-verification.jsx:347 | the lookup finds nothing exactly when no record has the id, else a record of the list with that id |
| Session.FindTaskFirst | src/pages/Re-verification.jsx:347 | the lookup returns the earliest record carrying the id |
| Session.IdsMissingRemark | src/pages/Re-verification.jsx:329-332 | the ids flagged are exactly the selected ids whose remark is missing or whitespace-only |
| Session.MissingRemarkCount | src/pages/Re-verification.jsx:329-335 | with no repeats in the selection, the count is the number of selected ids lacking a remark |
| Session.Verified | src/pages/Re-verification.jsx:348-352 | the history copy has today's date in S and the remark in T, and every other field of the record |
| Session.PromoteReadBack | src/pages/Re-verification.jsx:346-353 | when every id names a pending record, there is one verified copy per selected id, in selection order |
| Session.WriteRowsReadBack | src/pages/Re-verification.jsx:374-389 | when every id names a pending record, there is one write row per selected id, with that record's column B, sheet row, the date and the remark |
| Session.Without | src/pages/Re-verification.jsx:356 | a record is kept exactly when it is in the list and its id is not selected |
| Session.WithoutKeepsOrder | src/pages/Re-verification.jsx:356 | the kept records are in their original order |
| Session.WithoutIds | src/pages/Re-verification.jsx:356 | an id survives exactly when the list had it and it is not selected |
| Session.WithoutKeepsDistinct | src/pages/Re-verification.jsx:356 | filtering a list with unique ids keeps the ids unique |
| Session.WithoutCount | src/pages/Re-verification.jsx:356 | removing a set of ids from a list with unique ids drops one record per id the list holds |
| Session.Submit | src/pages/Re-verification.jsx:321-363 | an empty selection is refused; a selection with a missing remark is refused with the exact count of offending ids; a refusal changes nothing; success clears selection and remarks |
| Session.SubmitRemovesSelected | src/pages/Re-verification.jsx:355-356 | after success, pending holds exactly the unselected records in their old order, shorter by the selection's size |
| Session.SubmitPromotesSelected | src/pages/Re-verification.jsx:345-359 | after success, history starts with the verified copy of each selected record (today's date, its remark), in selection order, followed by the old history |
| Session.WritesMatchPromoted | src/pages/Re-verification.jsx:346-389 | write rows and promoted copies agree position by position on column B, sheet row, date and remark |
| Session.SubmitWritesHistory | src/pages/Re-verification.jsx:374-389 | the write has one row per selected id, and each row carries exactly what the matching new history record shows |
| Session.SubmitKeepsWf | src/pages/Re-verification.jsx:342-363 | submission keeps ids unique across both lists and the selection within pending |
| Session.SelectItemKeepsWf | src/pages/Re-verification.jsx:263-284 | checking a pending row or unchecking any row keeps the invariant |
| Session.SelectAllKeepsWf | src/pages/Re-verification.jsx:302-310 | select-all, on or off, keeps the invariant |
| Session.SetRemarkKeepsWf | src/pages/Re-verification.jsx:672 | editing a remark keeps the invariant |

## Left out

- Network I/O. The fetch and the background POST, with `FormData`, `response.json` and
  the handling of the write's result, are left out. Local state is committed before
  the write and the write's result never changes it, so `Submit` returns the new state
  and the write rows.
- `JSON.parse` is left out. A decoded response is given as a `Payload`. Only the
  `{`…`}` substring fallback is modelled, on plain strings.
- `sessionStorage`, `alert`, `console`, `setTimeout`, the success message, the
  `isSubmitting` and `loading` flags, React's batching, `toggleHistory` and all JSX.
  The user, role and search term are plain parameters, and each handler is one atomic
  transition.
- The engine's date parser. The general `new Date(str)` fallback is a parameter
  (`HostDateParser`), because its behaviour is implementation-defined. "Today" is a
  `CalendarDate` parameter of `Submit`.
- The random id suffix. The `Math.random` suffix of a row without a task id is a
  parameter (`Requester.salts`, one string per row position).
- A null username. The model takes the username as a string, so the crash
  `currentUsername.toLowerCase()` raises when it is null is not modelled.
- Dates.DateKey: the local-time offset and the time value in milliseconds are left
  out. The key is the ECMA-262 day number, which orders dates the same way.
- Dates.ReadDayMonthYear, Dates.DateKey: only three runs of decimal digits are read
  as a date. The source returns a `Date` for any non-empty text with three parts and
  hands each part to `Number`, which also accepts surrounding whitespace, a sign, a
  fraction, an exponent and hexadecimal (" 5", "+5", "-5", "5.5", "1e1", "0x1F"). So
  "01/01/-5" is a date there but undated here; `NegativeYearUnread` shows that every
  negative-year date the page formats falls in this gap.
- Dates.DateKey: the time-value range limit (the TimeClip operation of ECMA-262)
  is not modelled. A year beyond 275760 either way makes an invalid date in the source,
  so "01/01/300000" compares as `NaN` there but gets a key here.
- Dates.ReadDayMonthYear, Dates.DateKey: parts that `Number` rejects ("ab/cd/ef")
  give an invalid but truthy `Date` in the source, whose time is `NaN`, so the
  comparator returns `NaN` and the sort treats the pair as equal. The model reads such
  a text as undated. Day and month overflow (day 40) is carried as the source does,
  but no property is claimed for it.
- Views.SortByDate: the engine's sort algorithm and its in-place mutation of the
  pending array (line 114) are not modelled. Records with equal day numbers compare as
  0 both ways, and the source's sort is stable, so they keep their order; the model's
  insertion sort is stable too (`SortByStable`). The comparator is inconsistent only
  for two undated records, which each compare as 1 against the other (lines 99 and
  132), and for invalid dates, which compare as `NaN`. The order the engine then
  produces is implementation-defined; the model keeps undated records in their input
  order but promises nothing about it.
- Views.PendingView: the ordering contract constrains dated records relative to each
  other and to undated ones, and `PendingViewKeepsSameDayOrder` adds the order among
  same-day records. The order among undated records is not promised, for the reason
  above.
- JsText.Lower: only ASCII letters are case-mapped. The source's full Unicode
  `toLowerCase` is not modelled.
- Cells: JavaScript numbers are modelled as integers. Fractions, floating-point
  rounding of large values and their `toString` are left out, and so are booleans and
  other cell types a spreadsheet may send.
- Response.RowValues: a `c` array entry that is itself `null` reads as "" (a missing
  cell object); a top-level row that is `null` would crash the source and is not a
  representable `RawRow`.
- Session.Submit: a selected id with no pending record cannot arise from the handlers
  while `Wf` holds. For such an id the source would write a partial history object
  and then throw while building the write rows; the model skips the id instead.
