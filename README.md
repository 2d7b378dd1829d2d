# Google Sheets score importer — a Dafny model

The dashboard imports hockey scoring data from a Google spreadsheet. On the
client, the sheet connector pulls the spreadsheet id out of the URL the user
pastes. It sends a sync request only when an id is found. On the server, the
`sync-google-sheet` function then reads two grids:

- the **events grid** (one row per goal), whose headers are normalized and
  mapped to the fields date, match, scorer, assist1, assist2, period, time
  and team through lists of synonyms;
- the **calendar grid** (one row per upcoming match), mapped to date, time,
  away team, home team and full match label.

The events reducer walks the data rows. It keeps those with a scorer and a
team, and tallies goals and assists per player, with each player's team
fixed by the first row that names the player. It also collects the teams.
The calendar reducer turns each row with a date, a home team and an away
team into an `upcoming` match. Its date is rewritten from `D/M/YYYY` to
`YYYY-MM-DD`. It counts only the inserts the database accepts, and adds
their teams to the team set. The function answers with four counts: events,
players, teams and matches.

The model is split into modules:

| module | file | what it holds |
|---|---|---|
| `Wrappers` | `wrappers.dfy` | `Option` |
| `JsText` | `js_text.dfy` | `String.prototype.trim` and `toLowerCase`, with JavaScript's whitespace set |
| `Headers` | `headers.dfy` | `normalizeHeader`, `findColumn`, the two column maps |
| `ParseInt` | `parse_int.dfy` | `parseInt` as the period cell uses it, and `parseInt(...) \|\| null` |
| `DateRewrite` | `date_rewrite.dfy` | the calendar's `D/M/YYYY` date rewrite, as the regular-expression engine finds the leftmost match |
| `Events` | `events.dfy` | the events row reducer: a specification by functions, and the loop as a method proved against it |
| `Calendar` | `calendar.dfy` | the calendar row reducer: the same shape, with the database's answer to each insert as a parameter |
| `Sync` | `sync.dfy` | one run: the early exit, both reducers, the calendar guard, the summary |
| `SheetConnector` | `sheet_connector.dfy` | `extractSheetId` and the guard of `handleSync` |
| `ColumnOrder` | `column_order.dfy` | moving the columns of the events grid changes nothing, and the calendar column map moves with its columns |
| `Scenario` | `scenario.dfy` | the worked example of a header row and one data row, end to end |

The two reducers are loops that update a list, a map and a set. Each
is a `method` with a `while` loop (`Events.ReduceEvents`,
`Calendar.ReduceCalendar`) proved against recursive specification functions
(`EventsOf`, `Players`, `Expected`, `TeamsOf`, `Attempted`, `Stored`,
`MatchTeams`). The properties are proved about those functions as lemmas.
`Sync.SyncSheet` runs the steps in the function's order and is proved equal
to the summary function `Sync.SyncSummary`.

The database's answer to the calendar inserts is a parameter. `accepted(i)`
is whether the `i`-th insert attempted in the run succeeds.

## Model

| member | source | states |
|---|---|---|
| `JsText.Trim` | supabase/functions/sync-google-sheet/index.ts:23 | the result neither starts nor ends with JavaScript whitespace, and is no longer than the input |
| `JsText.TrimIsPadded` | supabase/functions/sync-google-sheet/index.ts:23 | `trim` removes only whitespace: the input is the result with whitespace on both sides |
| `JsText.TrimPadded` | supabase/functions/sync-google-sheet/index.ts:123-129 | whitespace added on either side of a cell does not change its trimmed value |
| `JsText.TrimStartDropsWhitespace` | supabase/functions/sync-google-sheet/index.ts:23 | what `trimStart` drops is all whitespace |
| `JsText.TrimEndDropsWhitespace` | supabase/functions/sync-google-sheet/index.ts:23 | what `trimEnd` drops is all whitespace |
| `JsText.ToLowerCase` | supabase/functions/sync-google-sheet/index.ts:23 | the result has the input's length and no upper-case letter; each upper-case letter becomes the letter 32 code points above it, and every other character is kept |
| `JsText.LowerChar` | supabase/functions/sync-google-sheet/index.ts:23 | an upper-case letter maps to its lower-case form 32 code points above it; other characters are unchanged |
| `JsText.ToLowerCaseConcat` | supabase/functions/sync-google-sheet/index.ts:23 | lower-casing works character by character: it distributes over concatenation |
| `JsText.ToLowerCaseOfLower` | supabase/functions/sync-google-sheet/index.ts:23 | lower-casing text without upper-case letters leaves it unchanged |
| `Headers.Decompose` | supabase/functions/sync-google-sheet/index.ts:23 | NFD decomposition never adds an upper-case letter and never shortens the text |
| `Headers.StripMarks` | supabase/functions/sync-google-sheet/index.ts:23 | removing U+0300..U+036F leaves no combining mark and leaves mark-free text unchanged |
| `Headers.NormalizeHeader` | supabase/functions/sync-google-sheet/index.ts:22-23 | a normalized header has no upper-case letter and no combining mark |
| `Headers.NormalizeHeaders` | supabase/functions/sync-google-sheet/index.ts:88 | the header row is normalized cell by cell, keeping its length |
| `Headers.NormalizeIgnoresCase` | supabase/functions/sync-google-sheet/index.ts:22-23 | a header and its lower-cased form normalize alike |
| `Headers.NormalizeIgnoresPadding` | supabase/functions/sync-google-sheet/index.ts:22-23 | whitespace around a header does not change its normalized form |
| `Headers.NormalizeEquipe` | supabase/functions/sync-google-sheet/index.ts:22-23 | `equipe` normalizes to `equipe` |
| `Headers.NormalizeEquipeUpper` | supabase/functions/sync-google-sheet/index.ts:22-23 | ` EQUIPE ` normalizes to `equipe` |
| `Headers.NormalizeEquipeAccented` | supabase/functions/sync-google-sheet/index.ts:22-23 | `Équipe` normalizes to `equipe` |
| `Headers.NormalizeLowerPlain` | supabase/functions/sync-google-sheet/index.ts:22-23 | a lower-case header with no accent and no outer whitespace is its own normal form |
| `Headers.NormalizeIgnoresAccents` | supabase/functions/sync-google-sheet/index.ts:22-23 | accents are ignored: a header without outer whitespace or combining marks normalizes to its lower-case form with each accented letter replaced by its base letter |
| `Headers.TrimBeforeStrip` | supabase/functions/sync-google-sheet/index.ts:23 | `trim` runs before the marks are stripped, so `"but "` followed by a combining accent normalizes to `"but "`, trailing space included |
| `Headers.MarkShieldsTrailingSpace` | supabase/functions/sync-google-sheet/index.ts:23 | the general case: a trailing combining mark shields the text before it from `trim`, then is removed |
| `Headers.IndexOf` | supabase/functions/sync-google-sheet/index.ts:29 | `indexOf` gives -1 exactly when the value is absent; otherwise it gives the first position holding it |
| `Headers.FindColumn` | supabase/functions/sync-google-sheet/index.ts:26-33 | `findColumn` gives -1 exactly when no normalized synonym appears in the headers, and otherwise a column of the header row |
| `Headers.FindColumnResolves` | supabase/functions/sync-google-sheet/index.ts:26-33 | a column found is the first occurrence of some synonym, and every synonym listed before that one is absent |
| `Headers.EarlierSynonymWins` | supabase/functions/sync-google-sheet/index.ts:27-30 | once any synonym is present a column is found, and it holds that synonym or one listed earlier |
| `Headers.EventColumnMap` | supabase/functions/sync-google-sheet/index.ts:92-101 | each of the eight event fields maps to -1 or to a column of the header row |
| `Headers.CalendarColumnMap` | supabase/functions/sync-google-sheet/index.ts:230-236 | each of the five calendar fields maps to -1 or to a column of the header row |
| `ParseInt.ParseInt` | supabase/functions/sync-google-sheet/index.ts:127 | `parseInt` gives NaN exactly when no digit follows the optional sign and `0x` prefix; a leading `-` gives a value of at most 0 and no sign gives one of at least 0 |
| `ParseInt.PeriodOf` | supabase/functions/sync-google-sheet/index.ts:127 | `parseInt(cell) \|\| null` is absent exactly when the parse is NaN or 0, and otherwise it is the parsed value |
| `ParseInt.ValueOfDecimal` | supabase/functions/sync-google-sheet/index.ts:127 | the decimal numeral of a number reads back as that number |
| `ParseInt.ParseDecimal` | supabase/functions/sync-google-sheet/index.ts:127 | a positive numeral followed by a non-digit parses to its value; the rest is ignored |
| `ParseInt.ParseNegativeDecimal` | supabase/functions/sync-google-sheet/index.ts:127 | `-` followed by a positive numeral parses to the negated value |
| `ParseInt.ParseIgnoresLeadingWhitespace` | supabase/functions/sync-google-sheet/index.ts:127 | leading whitespace does not change the parse |
| `ParseInt.PeriodRoundTrip` | supabase/functions/sync-google-sheet/index.ts:127 | a period cell holding a positive numeral (then anything that is not a digit) yields that period |
| `ParseInt.PeriodZero` | supabase/functions/sync-google-sheet/index.ts:127 | the period `0` becomes null, through `\|\| null` |
| `ParseInt.PeriodNegativeZero` | supabase/functions/sync-google-sheet/index.ts:127 | the period `-0` becomes null |
| `ParseInt.PeriodText` | supabase/functions/sync-google-sheet/index.ts:127 | the period `OT` becomes null |
| `ParseInt.ParseHexPrefix` | supabase/functions/sync-google-sheet/index.ts:127 | `parseInt` without a radix reads `0x1A` as hexadecimal 26 |
| `DateRewrite.ShortRun` | supabase/functions/sync-google-sheet/index.ts:257 | `\d{1,2}` takes at most two digits, and stops short of two only before a non-digit or at the end |
| `DateRewrite.MatchAtComplete` | supabase/functions/sync-google-sheet/index.ts:257 | whenever the pattern matches at a position with some group lengths, the greedy match at that position finds it |
| `DateRewrite.MatchAtSound` | supabase/functions/sync-google-sheet/index.ts:257 | whatever the greedy match finds is a match of the pattern, with its three groups |
| `DateRewrite.MatchAt` | supabase/functions/sync-google-sheet/index.ts:257 | a match found at a position captures one or two digits, one or two digits and four digits |
| `DateRewrite.FindDate` | supabase/functions/sync-google-sheet/index.ts:257 | what `match` returns captures groups of the pattern's shape, and a match at the starting position is the one returned |
| `DateRewrite.FindDateNone` | supabase/functions/sync-google-sheet/index.ts:257-258 | `match` finds nothing exactly when no position of the cell starts a match |
| `DateRewrite.FindDateLeftmost` | supabase/functions/sync-google-sheet/index.ts:257 | what `match` finds is the match at the leftmost matching position |
| `DateRewrite.NoSlashNoMatch` | supabase/functions/sync-google-sheet/index.ts:257 | a cell without `/` has no match |
| `DateRewrite.Pad2` | supabase/functions/sync-google-sheet/index.ts:259 | `padStart(2, '0')` gives at least two characters, the input preceded by zeros, and leaves longer input unchanged |
| `DateRewrite.RewriteDate` | supabase/functions/sync-google-sheet/index.ts:254-260 | a cell without a match is stored unchanged; a matched one becomes the year group, `-`, the month group padded to two digits, `-`, the day group padded to two digits |
| `DateRewrite.RewriteShape` | supabase/functions/sync-google-sheet/index.ts:254-260 | a matched date is rewritten to `YYYY-MM-DD`: ten characters, with digits around two dashes |
| `DateRewrite.RewriteChangesIffMatch` | supabase/functions/sync-google-sheet/index.ts:254-260 | the date cell changes exactly when the pattern matches; otherwise it passes through |
| `DateRewrite.RewriteIdempotent` | supabase/functions/sync-google-sheet/index.ts:254-260 | rewriting a rewritten date changes nothing |
| `DateRewrite.RewriteDayMonthYear` | supabase/functions/sync-google-sheet/index.ts:254-260 | a cell starting `D/M/YYYY` becomes year, padded month and padded day, with anything after the year dropped |
| `DateRewrite.RewriteExample` | supabase/functions/sync-google-sheet/index.ts:254-260 | `03/02/2026` becomes `2026-02-03` |
| `DateRewrite.RewritePadsExample` | supabase/functions/sync-google-sheet/index.ts:254-260 | `3/2/2026` becomes `2026-02-03` |
| `DateRewrite.RewriteNoRangeCheck` | supabase/functions/sync-google-sheet/index.ts:254-260 | `99/99/9999` becomes `9999-99-99`, because day and month are not range-checked |
| `DateRewrite.RewriteKeepsIso` | supabase/functions/sync-google-sheet/index.ts:254-260 | an ISO date `2026-02-03` passes through unchanged |
| `Events.DataRows` | supabase/functions/sync-google-sheet/index.ts:119 | the rows walked are those after the header row, in order |
| `Events.Cell` | supabase/functions/sync-google-sheet/index.ts:123-129 | a mapped column inside the row gives the trimmed cell; an unmapped column or a short row gives nothing |
| `Events.Filled` | supabase/functions/sync-google-sheet/index.ts:131-139 | a cell counts as present exactly when it exists and is not empty, since `""` is falsy |
| `Events.PeriodCell` | supabase/functions/sync-google-sheet/index.ts:127 | a mapped column inside the row gives that cell's `parseInt \|\| null`, an unmapped column or missing cell gives null, and a present period is never 0 |
| `Events.Qualifies` | supabase/functions/sync-google-sheet/index.ts:121-131 | a row qualifies exactly when it is non-empty and its scorer and team cells, read and trimmed, are both truthy |
| `Events.RowEvent` | supabase/functions/sync-google-sheet/index.ts:121-140 | a row yields an event exactly when it qualifies; the event's scorer and team are the trimmed cells, its assists, time and date are the trimmed cells with `""` turned into absent, and its period is the period cell |
| `Events.EventsOf` | supabase/functions/sync-google-sheet/index.ts:119-140 | there are never more events than data rows |
| `Events.EventsOfSingle` | supabase/functions/sync-google-sheet/index.ts:131-140 | one row yields its event if it qualifies, else nothing |
| `Events.EventsOfAppend` | supabase/functions/sync-google-sheet/index.ts:119-140 | the events of two blocks of rows are the events of each, in row order |
| `Events.EventsOfSkipsRows` | supabase/functions/sync-google-sheet/index.ts:121-131 | rows that do not qualify contribute no event |
| `Events.EventsCount` | supabase/functions/sync-google-sheet/index.ts:119-141 | there are exactly as many events as data rows with a scorer and a team |
| `Events.Goals` | supabase/functions/sync-google-sheet/index.ts:148 | a player scores at most one goal per event |
| `Events.Assists` | supabase/functions/sync-google-sheet/index.ts:150-162 | a player gets at most two assists per event |
| `Events.PlayersIffInvolved` | supabase/functions/sync-google-sheet/index.ts:144-162 | a name has a stats entry exactly when some event names it as scorer or as a non-empty assist |
| `Events.FirstTeamIsFirst` | supabase/functions/sync-google-sheet/index.ts:145-160 | a player's team is the team of the first event that names them, and no earlier event names them |
| `Events.FirstTeamStable` | supabase/functions/sync-google-sheet/index.ts:145-160 | later rows never change a player's team once it is set |
| `Events.CountsAppend` | supabase/functions/sync-google-sheet/index.ts:148-161 | goal and assist counts add up over blocks of events, so they do not depend on how the rows are split |
| `Events.UncreditedHasNoCounts` | supabase/functions/sync-google-sheet/index.ts:144-162 | a name no event mentions has no goals and no assists |
| `Events.TeamsOfIff` | supabase/functions/sync-google-sheet/index.ts:142 | a team is in the set exactly when some event has it |
| `Events.Credit` | supabase/functions/sync-google-sheet/index.ts:145-161 | crediting a name creates its entry with zero counts and the row's team if it is missing, adds one goal or one assist, and leaves every other entry and an existing team unchanged |
| `Events.CreditEvent` | supabase/functions/sync-google-sheet/index.ts:144-162 | one event's credits give entries to exactly the old players and the names it credits, and leave every other player's entry unchanged |
| `Events.CreditEventAt` | supabase/functions/sync-google-sheet/index.ts:144-162 | after one event a name has an entry exactly when it had one or the event names it |
| `Events.TallyStep` | supabase/functions/sync-google-sheet/index.ts:144-162 | crediting one more event keeps the map equal to the tally of all events so far: goals, assists and first team for each player |
| `Events.ReduceEvents` | supabase/functions/sync-google-sheet/index.ts:116-164 | the loop produces exactly the events of the data rows, in order, a stats map holding one entry per involved player with their goals, assists and first team, and the set of event teams |
| `Calendar.Kept` | supabase/functions/sync-google-sheet/index.ts:245-252 | a row is inserted exactly when it is non-empty and its date, home and away cells, read and trimmed, are all truthy |
| `Calendar.RowMatch` | supabase/functions/sync-google-sheet/index.ts:244-268 | a row yields an insert exactly when it is kept; the insert is `upcoming`, its date is the rewritten trimmed date cell, its home and away teams are the trimmed cells, and its time is the trimmed time cell with `""` turned into null |
| `Calendar.Attempted` | supabase/functions/sync-google-sheet/index.ts:243-268 | every insert the rows attempt is `upcoming` and names a home and an away team |
| `Calendar.AttemptedAppend` | supabase/functions/sync-google-sheet/index.ts:243-268 | the inserts of two blocks of rows are those of each, in row order |
| `Calendar.AttemptedCount` | supabase/functions/sync-google-sheet/index.ts:243-268 | exactly one insert is attempted per calendar row with a date, a home team and an away team |
| `Calendar.StoredAreAccepted` | supabase/functions/sync-google-sheet/index.ts:262-278 | a match is stored exactly when some insert that produced it was accepted |
| `Calendar.Stored` | supabase/functions/sync-google-sheet/index.ts:262-271 | no more matches are stored than inserts are attempted |
| `Calendar.StoredFromAttempts` | supabase/functions/sync-google-sheet/index.ts:262-271 | every stored match is one of the attempted inserts |
| `Calendar.AllInsertsSucceed` | supabase/functions/sync-google-sheet/index.ts:262-275 | when every insert succeeds, every attempted match is stored |
| `Calendar.AllInsertsFail` | supabase/functions/sync-google-sheet/index.ts:270-278 | when every insert fails, nothing is stored |
| `Calendar.StoredCount` | supabase/functions/sync-google-sheet/index.ts:270-271 | the match count is the number of accepted inserts |
| `Calendar.MatchTeamsIff` | supabase/functions/sync-google-sheet/index.ts:273-275 | a team joins through the calendar exactly when a stored match names it as home or away |
| `Calendar.ReduceCalendar` | supabase/functions/sync-google-sheet/index.ts:243-280 | the loop stores exactly the accepted attempts, counts them, and adds their teams to the teams it was given |
| `Sync.SyncSummary` | supabase/functions/sync-google-sheet/index.ts:80-85 | a run reports "no data" exactly when the events grid has fewer than two rows |
| `Sync.SyncSheet` | supabase/functions/sync-google-sheet/index.ts:78-310 | the run (early exit, events reducer, calendar step, counts) answers with the summary of its inputs |
| `Sync.ImportCalendar` | supabase/functions/sync-google-sheet/index.ts:211-290 | the calendar is reduced only when a sheet is named, its fetch succeeded and it has a data row; the team set of the events grows by the stored matches' teams |
| `Sync.RunMatches` | supabase/functions/sync-google-sheet/index.ts:211-290 | no match is stored unless a calendar sheet is named, fetched and has a data row; every stored match is `upcoming` and names both teams |
| `Sync.SummaryOfRun` | supabase/functions/sync-google-sheet/index.ts:305-310 | the four counts are the numbers of events, of players, of teams from events and stored matches, and of stored matches |
| `Sync.CalendarSkipped` | supabase/functions/sync-google-sheet/index.ts:211-224 | without a readable calendar, no match is counted and the teams are those of the events |
| `Sync.CalendarNotFound` | supabase/functions/sync-google-sheet/index.ts:284-286 | a failed calendar fetch, such as a 404, gives a match count of 0 |
| `Sync.MatchesAreAccepted` | supabase/functions/sync-google-sheet/index.ts:270-271 | the reported match count is the number of accepted inserts among those attempted |
| `Sync.TeamsCountEventTeams` | supabase/functions/sync-google-sheet/index.ts:142 | the team count is at least the number of distinct event teams |
| `SheetConnector.IdRun` | src/components/SheetConnector.tsx:23 | `[a-zA-Z0-9-_]+` is greedy: the run extends to the first non-id character |
| `SheetConnector.FindFrom` | src/components/SheetConnector.tsx:23 | the position found is the leftmost where `/spreadsheets/d/` is followed by an id character; nothing means there is no such position |
| `SheetConnector.ExtractSheetId` | src/components/SheetConnector.tsx:22-25 | the id is null exactly when the pattern matches nowhere; an id is one or more id characters |
| `SheetConnector.ExtractIsLeftmostMaximal` | src/components/SheetConnector.tsx:22-25 | at the leftmost match, the id is the whole run of id characters after the marker |
| `SheetConnector.ExtractedComesFromLeftmostMatch` | src/components/SheetConnector.tsx:22-25 | conversely, any id extracted is the full run after the leftmost match |
| `SheetConnector.ExtractFromSharingLink` | src/components/SheetConnector.tsx:22-25 | a link `https://docs.google.com/spreadsheets/d/<id>` followed by nothing or a non-id character (such as `/edit`) gives back `<id>` |
| `SheetConnector.HandleSync` | src/components/SheetConnector.tsx:27-43 | a request is sent only with an extracted id and the chosen sheet name |
| `SheetConnector.InvokesIffMatch` | src/components/SheetConnector.tsx:27-43 | a request is sent exactly when the URL matches the pattern, and it carries the extracted id |
| `SheetConnector.NoMatchIsRejected` | src/components/SheetConnector.tsx:28-36 | a URL without the pattern is rejected with a warning, and nothing is sent |
| `ColumnOrder.IndexOfReordered` | supabase/functions/sync-google-sheet/index.ts:29 | when a name occurs at most once in the header row, `indexOf` in a permuted row finds the permuted position |
| `ColumnOrder.FindColumnReordered` | supabase/functions/sync-google-sheet/index.ts:26-33 | when no synonym of the list occurs twice, `findColumn` in a permuted header row finds the permuted column |
| `ColumnOrder.EventColumnMapReordered` | supabase/functions/sync-google-sheet/index.ts:92-101 | the events column map of a permuted header row is the original map, permuted |
| `ColumnOrder.CalendarColumnMapReordered` | supabase/functions/sync-google-sheet/index.ts:230-236 | the calendar column map of a permuted header row is the original map, permuted, when no calendar synonym occurs twice |
| `ColumnOrder.RowEventReordered` | supabase/functions/sync-google-sheet/index.ts:123-140 | a permuted row read through the permuted columns yields the same event |
| `ColumnOrder.EventsIgnoreColumnOrder` | supabase/functions/sync-google-sheet/index.ts:88-164 | permuting the columns of the whole events grid leaves the events unchanged, when no synonym of an events field occurs twice in the normalized header row |
| `ColumnOrder.SummaryIgnoresColumnOrder` | supabase/functions/sync-google-sheet/index.ts:80-310 | under the same conditions, the whole summary of a run is unchanged |
| `Scenario.ExampleHeaders` | supabase/functions/sync-google-sheet/index.ts:88 | the header row `Date, Buteur, Passeur1, Equipe` normalizes to `date, buteur, passeur1, equipe` |
| `Scenario.ExampleColumnMap` | supabase/functions/sync-google-sheet/index.ts:92-101 | that header row maps date to 0, scorer to 1 (through `buteur`), assist1 to 2 (through `passeur1`) and team to 3 (through `equipe`); every other field is -1 |
| `Scenario.UnmappedColumns` | supabase/functions/sync-google-sheet/index.ts:94-99 | match, assist2, period and time find no column in that header row |
| `Scenario.ExampleEvents` | supabase/functions/sync-google-sheet/index.ts:119-140 | the data row `2026-02-03, A. Matthews, M. Marner, TOR` yields one event: scorer A. Matthews, assist1 M. Marner, team TOR, date 2026-02-03 |
| `Scenario.ExampleTally` | supabase/functions/sync-google-sheet/index.ts:142-162 | A. Matthews has 1 goal, 0 assists and team TOR; M. Marner has 0 goals, 1 assist and team TOR; the team set is {TOR} |
| `Scenario.ExampleSummary` | supabase/functions/sync-google-sheet/index.ts:305-310 | without a calendar, that grid reports 1 event, 2 players, 1 team and 0 matches |

## Left out

- Network and storage: the calls to the Sheets API, the request parsing and its defaults (`Sheet1`, `Calendrier`), the environment variables, CORS, and the server's own check on `sheetId` are not modelled. So are the upserts of teams and players, the delete-then-insert of events and matches, and the `sheet_settings` upsert. The grids arrive as parameters, and the calendar grid is `None` when its fetch is not `ok`.
- Database answers: the outcome of each calendar insert is the parameter `accepted`. The team and player upserts do not affect the summary, so their outcomes are not modelled.
- Exceptions: a JSON or network failure in the events fetch, which gives the 500 answer, is not modelled. Neither is a failure thrown part-way through the calendar loop, which would keep the matches counted so far.
- `Headers.NormalizeHeader`: `toLowerCase` is modelled for ASCII and Latin-1 upper-case letters, and NFD only for the Latin-1 lower-case letters with diacritics. Other characters pass through unchanged, so headers outside Latin-1 are not normalized as JavaScript's `toLowerCase` and `normalize('NFD')` would.
- `ParseInt.ParseInt`: the result is an unbounded integer, not a double. Numerals beyond 2^53 lose no precision here. Only radices 10 and 16 (the `0x` prefix) occur without a radix argument, and both are modelled.
- `ColumnOrder.EventsIgnoreColumnOrder`: this is proved for permutations of whole rows as wide as the header row, and for header rows in which no synonym of an events field occurs twice. Other header cells, blank ones included, may repeat. With a duplicated synonym, `indexOf` picks the first copy, so order can matter.
- The sheet connector's UI state (loading flag, toasts, last-sync time, the sheet-name input) and the answer handling after the request are not modelled. Only the decision to send, and what is sent, are.
- Logging (`console.log`, `console.error`) is left out.

Behaviours of the code a reader may not expect, which the model follows:

- A player's team is the team of the first row that names them (`playerStats.set` only when absent), not the last.
- The date pattern is unanchored and accepts one- or two-digit day and month. So `3/2/2026` and `x 03/02/2026 y` are rewritten too, and anything after the year is dropped.
- A period of `0` becomes null, because of `|| null`, just like an unparsable period.
- An events grid with fewer than two rows ends the run before the calendar is read.
- The event's date is kept in the event, but it is not written to the events table.
- Teams are upserted into `nhl_teams` (index.ts:168-172) before the calendar is read. So a team that only the calendar adds (index.ts:274-275) is counted in the reported team count (index.ts:308) but is never written to `nhl_teams`.
- The synonym `équipe` normalizes to `equipe`, which the list already holds, so it can never be the one that resolves.
