# Partner event statistics synced to a spreadsheet — a verified model

`main.go` collects the app events of one Shopify Partner app and records how many
installs, closes, reopens and uninstalls happened on each local (UTC+7) day in a
Google Sheets tab named after the app. Around the network calls sits a small,
deterministic pipeline, and that pipeline is what this project models:

1. **Pagination** (`pagination.dfy`). The program follows the `events` connection
   cursor by cursor and accumulates every page's edges. The remote query is replaced
   by the finite sequence of results the feed returns, one per request.
2. **Daily tally** (`civil.dfy`, `date_format.dfy`, `statistics.dfy`). Each event's
   `occurredAt` is moved to the fixed UTC+7 zone and rendered with the layout
   `2006-01-02`. The event then adds one to the cell (date, kind) of a nested
   date → kind → count map. Timestamps are Unix seconds. The local day is
   `(t + 25200) / 86400`, rounded down, and it is turned into a calendar date by a
   proleptic Gregorian day-number conversion. That conversion is characterised
   independently: day 0 is 1970-01-01, consecutive day numbers are consecutive
   calendar days, and the two conversions are mutual inverses.
3. **Date sort** (`string_order.dfy`). The distinct date keys are collected from the
   map in whatever order it yields them and sorted with Go's string order.
4. **Sheet reconciliation** (`sheet.dfy`, `store.dfy`). The writes of
   `writeToGoogleSheets` become a plan with four parts:
   - whether the header is rewritten;
   - the row the append block is anchored at;
   - the in-place updates of rows whose column A already holds a date;
   - the block of new rows.

   A small model of the tab executes the plan. It is used to state what one run, and
   a second run, leave behind.

Everything is immutable data and pure functions. The only method, `SortedKeys`, is
a loop over a map's keys.

## Model

| member | source | states |
|---|---|---|
| `Pagination.Paginate` | main.go:115-142 | The loop sends the first request with the start cursor. It stops exactly at the first failed request or the first page without a next page. The edges are the in-order concatenation of the pages fetched up to that point. Each later cursor is the last edge's cursor of the page before it, and stays unchanged after an empty page. |
| `Pagination.PaginateIgnoresLaterResponses` | main.go:130-137 | Once a failed request or a final page has stopped the loop, no later result is ever requested, so extending the feed changes nothing. |
| `Pagination.EmptyPagesStall` | main.go:136-141 | Empty pages that promise more never move the cursor: every request repeats the same cursor and nothing is accumulated. |
| `Civil.CivilFromDays` | main.go:55 | The calendar date of a day number is a valid date whose day number is that number. |
| `Civil.CivilFromDaysOfCivil` | main.go:55 | Every valid date is recovered from its own day number. |
| `Civil.DaysFromCivilEpoch` | main.go:55 | Day number 0 is 1970-01-01, the day of Unix time 0. |
| `Civil.DaysFromCivilNextDay` | main.go:55 | The calendar day after any valid date has the next day number, across month ends, year ends and leap days. |
| `Civil.DaysFromCivilOrdered` | main.go:55 | One date comes before another in (year, month, day) order exactly when its day number is smaller. |
| `Civil.LocalDateWindow` | main.go:83-84 | An instant falls on local date D exactly when it lies between D's UTC+7 midnight, the query's lower bound, and the next day's midnight. |
| `DateFormat.FormatDateFixed` | main.go:56 | For years 0 to 9999 the key is exactly the 4-, 2- and 2-digit zero-padded year, month and day, joined by '-'. |
| `DateFormat.ParseFormatDate` | main.go:56 | Reading a key back gives the date it was made from, for four-digit years. |
| `DateFormat.FormatParseDate` | main.go:56 | Every ten-character string that reads as a valid date is the key of that date. |
| `DateFormat.FormatDateOrder` | main.go:152 | For four-digit years, one key sorts before another in Go's string order exactly when its date comes first in the calendar. |
| `DateFormat.DateKeyOrder` | main.go:152 | The keys of two instants sort as their UTC+7 day numbers do. |
| `Statistics.Record` | main.go:58-61 | Tallying one event creates the date's inner map on first sight and adds one to exactly one cell, leaving every other cell as it was. |
| `Statistics.TallyBy` | main.go:51-63 | After the loop each cell (date, kind) holds the number of edges the bucketing puts in it, missing cells read as 0, and no empty inner map or zero count is stored. |
| `Statistics.Tally` | main.go:51-63 | The same holds for the program's UTC+7 date key. |
| `Statistics.TallyKeys` | main.go:58-60 | A date is a key of the tally exactly when some edge falls on it. |
| `Statistics.RecordAddsOne` | main.go:61 | Tallying one event raises the sum of all counts by exactly one. |
| `Statistics.TallyTotal` | main.go:53-62 | Conservation: the counts of all cells add up to the number of edges. |
| `Statistics.DayTotalPositive` | main.go:58-61 | Every date present in the tally has a positive total. |
| `Statistics.BucketExample` | main.go:55-56 | An event at 2024-05-01T17:30:00Z is tallied under "2024-05-02". |
| `Statistics.TallyDates` | main.go:148-152 | The sorted keys are exactly the dates some edge falls on, each appearing once. |
| `Statistics.DatesInDayOrder` | main.go:152 | In the sorted date list, the date of an earlier local day sits at an earlier position, and conversely. |
| `StringOrder.Insert` | main.go:152 | Inserting into a strictly ascending list keeps it strictly ascending and adds exactly the new element, never twice. |
| `StringOrder.SortedKeys` | main.go:148-152 | The collected and sorted keys are strictly ascending, hold exactly the map's keys, and are as many as the keys. |
| `StringOrder.SortedUnique` | main.go:149-152 | Two strictly ascending lists with the same elements are equal, so the map's iteration order does not affect `dates`. |
| `StringOrder.LessConcat` | main.go:152 | Go's string order on two strings split at the same length compares the first parts, then the rest. |
| `Sheet.HeaderRowMatches` | main.go:307-318 | The first row matches exactly when it has five cells equal to "Date", "Installs", "Closed", "Reopened", "Uninstalls". |
| `Sheet.StatRow` | main.go:264-271 | A written row has the header's width and the date in column A. |
| `Sheet.StatRowColumns` | main.go:264-271 | Each count sits under the column titled with its kind's human-readable name, and a kind absent for the date reads as 0. |
| `Sheet.EveryColumnHasKind` | main.go:70-75 | Each count column is titled with the human-readable name of a documented kind. |
| `Sheet.StatRowIgnoresOtherKinds` | main.go:264-271 | Changing the count of a kind outside the four documented ones leaves the written row unchanged: such kinds are tallied but never written. |
| `Sheet.DateRowMap` | main.go:254-260 | A string is mapped exactly when some row has it in column A. It is mapped to the last such row, 1-based. |
| `Sheet.DateRowMapInjective` | main.go:254-260 | The program's row map never sends two dates to the same row. |
| `Sheet.DataRowMap` | main.go:254-260 | The corrected map: the program's map restricted to rows 2 onwards, so row 1 is left to the header. |
| `Sheet.DataRowMapInjective` | main.go:254-260 | The corrected map never sends two dates to the same row. |
| `Sheet.Upsert` | main.go:263-288 | Each date yields one write: an in-place update of its mapped row with its own row, or its row queued for appending. |
| `Sheet.UpsertCovers` | main.go:273-287 | Every mapped date's update, and every unmapped date's row, appears in the plan. |
| `Sheet.UpsertPartition` | main.go:263-288 | For strictly sorted dates, as main.go:152 produces them, each date lands in exactly one place: one update if mapped, one appended row otherwise, and nowhere else. |
| `Sheet.UpsertAppendsNothing` | main.go:290-291 | Nothing is appended exactly when every date is already mapped. |
| `Sheet.UpsertAppendsInOrder` | main.go:284-287 | With sorted dates, the appended block is strictly ascending in column A. |
| `Sheet.UpsertDistinctRows` | main.go:273-283 | For strictly sorted dates, as main.go:152 produces them, and an injective row map, no two updates write the same row. |
| `Sheet.HeaderStep` | main.go:240-251 | The header is rewritten exactly when the first row read back is missing or not the header. The anchor is then row 2, and otherwise the row after the existing data. |
| `Sheet.StatRows` | main.go:264-271 | The program's row builder puts each date in column A of its row. |
| `Sheet.AsWrittenPlan` | main.go:236-301 | The plan as the program computes it: every update lands on an existing row, which may be row 1. |
| `Sheet.PlanSheetAsWrittenPartition` | main.go:254-288 | In the program's own plan, with sorted dates, each date lands in exactly one place: one update of its last row if column A holds it, one appended row otherwise, and nowhere else. |
| `Sheet.ReservedPlan` | main.go:236-301 | The corrected plan: every update lands on an existing row from row 2 on, never on the header. |
| `Sheet.PlanSheetPartition` | main.go:263-288 | The same partition for the corrected plan, matched against rows 2 onwards. |
| `Store.WithHeader` | main.go:240-244 | The header write puts the header in row 1, creating it on an empty tab, and leaves every other row alone. When the header already matches, nothing is written and the tab is unchanged. |
| `Store.SetRow` | main.go:275-280 | An update replaces the row it names and no other. |
| `Store.ApplyUpdates` | main.go:273-283 | Updates never change the number of rows. |
| `Store.ApplyUpdatesElsewhere` | main.go:273-283 | A row no update names keeps its contents. |
| `Store.ApplyUpdatesAt` | main.go:273-283 | A row named by exactly one update holds that update's values afterwards. |
| `Store.ApplyUpdatesUnchanged` | main.go:273-283 | Updates that write what their rows already hold change nothing. |
| `Store.ApplyPlan` | main.go:290-301 | The appended block ends the tab, after the existing rows. |
| `Store.HeaderOverwrittenAsWritten` | main.go:240-260 | As written, when row 1 is the only row whose column A holds one of the dates, the header is written into row 1 exactly when row 1 is not already the header. That date's counts are then written over row 1 either way. The tab is left without a header, and the next run writes the header again. |
| `Store.HeaderOverwrittenExample` | main.go:240-260 | The one-row tab ["2024-05-01", 1, 0, 0, 0] with dates ["2024-05-01"] gets exactly one update, on row 1, ends as that date's row alone, and gets the header written again on the next run. |
| `Store.RunAsWrittenLeavesLastRow` | main.go:254-301 | As written, after a run the last row whose column A holds one of the dates holds that date's new row. Row 1 counts here too. |
| `Store.RunAsWrittenRowOne` | main.go:240-283 | As written, after a run row 1 holds the header, or else the row of a date whose only row is row 1. |
| `Store.ApplyUpdatesRestoreRowOne` | main.go:242-283 | Updates that write what the rows held, one of them naming row 1, undo a header write over row 1. |
| `Store.SecondPassAsWritten` | main.go:240-301 | As written, on a tab where each date's last row holds its row and row 1 is the header or such a row, a run appends nothing. Its writes, the header rewrite included, leave the tab as it was. |
| `Store.HeaderOverwriteLosesRow` | main.go:240-288 | As written, the next day's run over the tab the header loss left, whose dates miss the date held in row 1, ends as the header above the new date's row. The old date's counts are gone from the tab. |
| `Store.RunAsWrittenWithTwiceUnchanged` | main.go:236-301 | Idempotence of the program as written, for any row builder that labels rows with their date: a second run over sorted dates appends nothing and leaves the tab as the first run left it. |
| `Store.RunAsWrittenTwiceUnchanged` | main.go:236-301 | Idempotence of the program as written over the sorted keys of a statistic. The tab's contents are unchanged by a second run, even when the run rewrites a header it then overwrites again. |
| `Store.RunWithKeepsHeader` | main.go:240-248 | With row 1 reserved, the header is in row 1 after a run, whatever the tab held. |
| `Store.RunWithAppendsAtNextRow` | main.go:290-292 | When the header was already in place, or the tab held at most one row, the appended block starts at the anchor row. |
| `Store.RunWithLeavesLastRow` | main.go:254-301 | After a run, the last row from row 2 on whose column A holds one of the dates holds that date's new row. |
| `Store.RowMapFindsSettled` | main.go:254-260 | A row map of the rows from a given row on finds a date at its last row, when that row is in range. This holds for the program's map (from row 1) and the corrected one (from row 2). |
| `Store.UpsertRewritesInPlace` | main.go:273-283 | Updates of mapped dates write each date's row where the map places it. |
| `Store.SettledRowMap` | main.go:254-260 | When each date's last row from a given row on holds its row, such a row map places every date at that row. |
| `Store.SecondPassChangesNothing` | main.go:263-301 | The corrected plan: when each date's last row from row 2 on already holds its row, planning again with the map of rows 2 onwards appends nothing and rewrites rows with what they hold. |
| `Store.RunWithTwiceUnchanged` | main.go:236-301 | Idempotence: a second run over sorted dates writes no header, appends nothing and leaves the tab as the first run left it, for any row builder that labels rows with their date. |
| `Store.RunKeepsHeader` | main.go:240-248 | The corrected program keeps the header in row 1. |
| `Store.RunTwiceUnchanged` | main.go:236-301 | Idempotence of the corrected program over the sorted keys of a statistic. |

## Left out

- The GraphQL client, the access-token header and the app-name query (main.go:98-113) are network I/O. The event query becomes the finite sequence of results it returns.
- The page size `first: 100` and the server-side `occurredAtMin` filter are properties of the remote feed, not of the program.
- `Pagination.Paginate` does not claim termination for a feed that keeps returning empty pages with a next page. Such a feed makes the program repeat the same request for ever, and the model only runs out of results (`EmptyPagesStall`).
- All Google Sheets calls are modelled only through the plan they would execute and a model of the tab. That covers credentials, looking up and creating the tab, the reads and the writes. A missing tab is an empty tab.
- A failed Sheets call stops `writeToGoogleSheets` with an error after whatever writes preceded it. The store model assumes every write succeeds.
- The store model appends the block after the tab's last row, which is what the Sheets append call does with a table. It also ignores an update naming a row past the end, which the plan never produces.
- Reads are modelled as returning the stored cell values. Three details of the Sheets API are not modelled:
  - the A:E truncation of wider rows;
  - the trimming of trailing empty cells;
  - the formatted rendering of numbers. Column A dates are written RAW as strings and read back unchanged.
- Go's `interface{}` cells are reduced to strings, integers and any other value (`Cell`).
- `time.Now`, `os.Args`, RFC 3339 parsing and formatting, the display-only `occurredAtMax`, and all logging and printing (main.go:57, 79-97, 129) are left out. They depend on the environment or are output only. The lower bound the query uses is modelled as `StartOfLocalDay` with `LocalDateWindow`.
- The commented-out CSV writer (main.go:155-170) is dead code.
- Go compares strings byte by byte. `StringOrder.Less` compares characters, which agrees on the ASCII date keys.
- Go's `2006-01-02` layout is modelled for every year, with a '-' and four-digit padding for negative years. Round trip and order are proved for years 0 to 9999 only, where every key has ten characters.
- `Sheet.PlanSheetAsWritten` and `Sheet.PlanSheet` have no contracts of their own. They instantiate `Sheet.AsWrittenPlan` and `Sheet.ReservedPlan` with the statistic rows, and the lemmas about those carry the properties.
- Several definitions have no contracts of their own. Each is characterised by the lemma rows named here:
  - `Civil.LocalDayNumber` and `Civil.LocalDate` (main.go:55): `Civil.LocalDateWindow`, `Civil.CivilFromDays` and `Statistics.BucketExample`.
  - `Civil.StartOfLocalDay` (main.go:84, 87-92): `Civil.LocalDateWindow`.
  - `DateFormat.FormatDate`, `DateFormat.DateKey` and `Statistics.Bucket` (main.go:55-56): `DateFormat.FormatDateFixed`, `DateFormat.ParseFormatDate`, `DateFormat.FormatParseDate`, `DateFormat.FormatDateOrder`, `DateFormat.DateKeyOrder` and `Statistics.BucketExample`.
  - `Statistics.Count` (main.go:61, 264-270), Go's zero-default map lookup: `Statistics.Record`, `Statistics.TallyBy` and `Sheet.StatRowColumns`.
  - `Pagination.NextCursor` (main.go:138-141): `Pagination.Paginate` and `Pagination.EmptyPagesStall`.
  - `Store.ReadHeader` (main.go:224), the A1:E1 read: `Sheet.HeaderStep`, `Store.HeaderOverwrittenAsWritten` and `Store.RunWithTwiceUnchanged`.
  - `Store.RunAsWrittenWith` and `Store.RunAsWritten` (main.go:236-301): `Store.RunAsWrittenLeavesLastRow`, `Store.RunAsWrittenRowOne`, `Store.RunAsWrittenWithTwiceUnchanged`, `Store.RunAsWrittenTwiceUnchanged`, `Store.HeaderOverwrittenAsWritten` and `Store.HeaderOverwriteLosesRow`.
  - `Store.RunWith` and `Store.Run` (main.go:236-301): `Store.RunWithKeepsHeader`, `Store.RunWithLeavesLastRow`, `Store.RunWithTwiceUnchanged`, `Store.RunKeepsHeader` and `Store.RunTwiceUnchanged`.
- `Store.RunWithAppendsAtNextRow` is weaker than "the block starts at `nextRow`". After a header rewrite on a tab with more than one row, the anchor is row 2 but the block goes after the tab's last row, as the Sheets append call places it.

## Findings

| source | as written | input that shows it | evidently intended | confidence | as-written member | corrected member |
|---|---|---|---|---|---|---|
| main.go:254-260 | The date → row map is built from every row read, including row 1, even when row 1 did not match the header and has just been overwritten with it. | A tab whose only row is ["2024-05-01", 1, 0, 0, 0], with dates ["2024-05-01"]. The header goes into row 1, then the update for "2024-05-01" writes row 1 again. The tab ends without a header. A rerun over the same dates writes the header and overwrites it again, leaving the contents as they were. A run whose dates omit that date, such as the next day's run with dates ["2024-05-02"], writes the header over that date's row, and its counts are lost from the tab. | Row 1 belongs to the header: match dates against rows 2 onwards only, so a date found only in row 1 is appended below the header. | not executed; medium | Store.HeaderOverwrittenAsWritten, Store.HeaderOverwriteLosesRow | Store.RunKeepsHeader |
