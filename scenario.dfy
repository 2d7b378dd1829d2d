/**
 * A worked run of the importer: an events grid with the header row
 * `Date | Buteur | Passeur1 | Equipe` and the single data row
 * `2026-02-03 | A. Matthews | M. Marner | TOR`, without a readable calendar.
 * It yields one event, two players (a goal for the scorer, an assist for the
 * passer, both on TOR), one team and no match.
 */
module Scenario {
  import opened Wrappers
  import opened JsText
  import opened Headers
  import opened Events
  import opened Calendar
  import opened Sync

  // ---------------------------------------------------------------------------
  // Plain words and how they resolve

  predicate IsWordChar(c: char) {
    ('a' <= c <= 'z') || ('0' <= c <= '9')
  }

  /** A non-empty run of lower-case ASCII letters and digits. */
  predicate IsWord(w: string) {
    w != [] && forall i :: 0 <= i < |w| ==> IsWordChar(w[i])
  }

  /** A word is its own normalized header. */
  lemma NormalizeWord(w: string)
    requires IsWord(w)
    ensures NormalizeHeader(w) == w
  {
    NormalizeLowerPlain(w);
  }

  /** A capitalized word normalizes to the word with its capital lowered. */
  lemma NormalizeCapitalized(w: string, c: char, rest: string)
    requires w == [c] + rest && 'A' <= c <= 'Z' && IsWord(rest)
    ensures NormalizeHeader(w) == [LowerChar(c)] + rest
  {
    assert forall i :: 0 <= i < |w| ==> IsPlainChar(w[i]) by {
      forall i | 0 <= i < |w| ensures IsPlainChar(w[i]) {
        if i > 0 { assert w[i] == rest[i - 1]; }
      }
    }
    assert !IsJsWhitespace(w[|w| - 1]) by { assert w[|w| - 1] == rest[|rest| - 1]; }
    assert forall i :: 0 <= i < |rest| ==> !IsUpper(rest[i]) by {
      forall i | 0 <= i < |rest| ensures !IsUpper(rest[i]) { assert IsWordChar(rest[i]); }
    }
    NormalizePlain(w);
    LowerLead(c, rest);
  }

  /** `indexOf` finds the first cell holding `x`. */
  lemma IndexOfAt(xs: seq<string>, x: string, r: nat)
    requires r < |xs| && xs[r] == x && x !in xs[..r]
    ensures IndexOf(xs, x) == r
  {
    assert xs[r] in xs;
  }

  /** `findColumn` tries the first synonym, and the rest only when it is absent. */
  lemma FindColumnHead(h: seq<string>, names: seq<string>, x: string)
    requires names != [] && NormalizeHeader(names[0]) == x
    ensures x in h ==> FindColumn(h, names) == IndexOf(h, x)
    ensures x !in h ==> FindColumn(h, names) == FindColumn(h, names[1..])
  {
  }

  /** Synonyms that are all absent words leave the column unmapped. */
  lemma SynonymsAbsent(h: seq<string>, names: seq<string>)
    requires forall j :: 0 <= j < |names| ==> IsWord(names[j]) && names[j] !in h
    ensures FindColumn(h, names) == -1
  {
    forall j | 0 <= j < |names|
      ensures NormalizeHeader(names[j]) !in h
    {
      NormalizeWord(names[j]);
    }
  }

  /** A first synonym that is a word and first occurs at column `r` resolves to `r`. */
  lemma FirstSynonym(h: seq<string>, names: seq<string>, r: nat)
    requires names != [] && IsWord(names[0])
    requires r < |h| && h[r] == names[0] && names[0] !in h[..r]
    ensures FindColumn(h, names) == r
  {
    NormalizeWord(names[0]);
    FindColumnHead(h, names, names[0]);
    IndexOfAt(h, names[0], r);
  }

  /** After an absent first synonym, a second synonym that first occurs at column `r` resolves to `r`. */
  lemma SecondSynonym(h: seq<string>, names: seq<string>, r: nat)
    requires |names| >= 2 && IsWord(names[0]) && names[0] !in h && IsWord(names[1])
    requires r < |h| && h[r] == names[1] && names[1] !in h[..r]
    ensures FindColumn(h, names) == r
  {
    NormalizeWord(names[0]);
    FindColumnHead(h, names, names[0]);
    FirstSynonym(h, names[1..], r);
  }

  // ---------------------------------------------------------------------------
  // The header row

  /** The header row of the example. */
  predicate IsExampleHeader(row: seq<string>) {
    |row| == 4 && row[0] == "Date" && row[1] == "Buteur" && row[2] == "Passeur1" && row[3] == "Equipe"
  }

  /** The example's header row, normalized. */
  predicate IsExampleNormalized(h: seq<string>) {
    |h| == 4 && h[0] == "date" && h[1] == "buteur" && h[2] == "passeur1" && h[3] == "equipe"
  }

  /** A capitalized word normalizes to the word with its capital lowered to `lower`. */
  lemma CapitalHeader(w: string, c: char, rest: string, lower: char, r: string)
    requires w == [c] + rest && 'A' <= c <= 'Z' && IsWord(rest)
    requires LowerChar(c) == lower && r == [lower] + rest
    ensures NormalizeHeader(w) == r
  {
    NormalizeCapitalized(w, c, rest);
  }

  lemma HeaderDate(w: string)
    requires w == "Date"
    ensures NormalizeHeader(w) == "date"
  {
    CapitalHeader(w, 'D', "ate", 'd', "date");
  }

  lemma HeaderButeur(w: string)
    requires w == "Buteur"
    ensures NormalizeHeader(w) == "buteur"
  {
    CapitalHeader(w, 'B', "uteur", 'b', "buteur");
  }

  lemma HeaderPasseur1(w: string)
    requires w == "Passeur1"
    ensures NormalizeHeader(w) == "passeur1"
  {
    CapitalHeader(w, 'P', "asseur1", 'p', "passeur1");
  }

  lemma HeaderEquipe(w: string)
    requires w == "Equipe"
    ensures NormalizeHeader(w) == "equipe"
  {
    CapitalHeader(w, 'E', "quipe", 'e', "equipe");
  }

  /** `Date`, `Buteur`, `Passeur1`, `Equipe` normalize to `date`, `buteur`, `passeur1`, `equipe`. */
  lemma ExampleHeaders(row: seq<string>)
    requires IsExampleHeader(row)
    ensures IsExampleNormalized(NormalizeHeaders(row))
  {
    HeaderDate(row[0]);
    HeaderButeur(row[1]);
    HeaderPasseur1(row[2]);
    HeaderEquipe(row[3]);
  }

  // ---------------------------------------------------------------------------
  // The column map

  /** The columns the example resolves: date 0, scorer 1, first assist 2, team 3, nothing else. */
  const ExampleColumns: EventColumns := EventColumns(0, -1, 1, 2, -1, -1, -1, 3)

  lemma DateColumn(h: seq<string>, names: seq<string>)
    requires IsExampleNormalized(h) && names == DateNames
    ensures FindColumn(h, names) == 0
  {
    FirstSynonym(h, names, 0);
  }

  lemma ScorerColumn(h: seq<string>, names: seq<string>)
    requires IsExampleNormalized(h) && names == ScorerNames
    ensures FindColumn(h, names) == 1
  {
    SecondSynonym(h, names, 1);
  }

  lemma Assist1Column(h: seq<string>, names: seq<string>)
    requires IsExampleNormalized(h) && names == Assist1Names
    ensures FindColumn(h, names) == 2
  {
    SecondSynonym(h, names, 2);
  }

  lemma TeamColumn(h: seq<string>, names: seq<string>)
    requires IsExampleNormalized(h) && names == TeamNames
    ensures FindColumn(h, names) == 3
  {
    SecondSynonym(h, names, 3);
  }

  /** Every synonym of the match, second assist, period and time columns is an absent word. */
  lemma UnmappedWords(h: seq<string>, names: seq<string>)
    requires IsExampleNormalized(h)
    requires names == MatchNames || names == Assist2Names || names == PeriodNames || names == TimeNames
    ensures forall j :: 0 <= j < |names| ==> IsWord(names[j]) && names[j] !in h
  {
  }

  /** The match, second assist, period and time columns are unmapped. */
  lemma UnmappedColumns(h: seq<string>)
    requires IsExampleNormalized(h)
    ensures FindColumn(h, MatchNames) == -1 && FindColumn(h, Assist2Names) == -1
    ensures FindColumn(h, PeriodNames) == -1 && FindColumn(h, TimeNames) == -1
  {
    UnmappedWords(h, MatchNames);
    SynonymsAbsent(h, MatchNames);
    UnmappedWords(h, Assist2Names);
    SynonymsAbsent(h, Assist2Names);
    UnmappedWords(h, PeriodNames);
    SynonymsAbsent(h, PeriodNames);
    UnmappedWords(h, TimeNames);
    SynonymsAbsent(h, TimeNames);
  }

  /** The example's header row resolves to `ExampleColumns`. */
  lemma ExampleColumnMap(grid: seq<Row>)
    requires grid != [] && IsExampleHeader(grid[0])
    ensures GridEventColumns(grid) == ExampleColumns
  {
    ExampleHeaders(grid[0]);
    var h := NormalizeHeaders(grid[0]);
    DateColumn(h, DateNames);
    ScorerColumn(h, ScorerNames);
    Assist1Column(h, Assist1Names);
    TeamColumn(h, TeamNames);
    UnmappedColumns(h);
  }

  // ---------------------------------------------------------------------------
  // The data row

  /** The data row of the example. */
  predicate IsExampleRow(row: Row) {
    |row| == 4 && row[0] == "2026-02-03" && row[1] == "A. Matthews" && row[2] == "M. Marner" && row[3] == "TOR"
  }

  /** The event the example's data row yields. */
  const ExampleEvent: Event := Event("A. Matthews", Some("M. Marner"), None, None, None, "TOR", Some("2026-02-03"))

  /** A cell that neither starts nor ends with whitespace is kept by `trim`. */
  lemma CellTrimmed(s: string, first: char, last: char)
    requires s != [] && s[0] == first && s[|s| - 1] == last
    requires !IsJsWhitespace(first) && !IsJsWhitespace(last)
    ensures Trim(s) == s
  {
    TrimCoreOf(s);
  }

  /** The example's cells have no surrounding whitespace. */
  lemma ExampleCellsTrimmed(row: Row)
    requires IsExampleRow(row)
    ensures Trim(row[0]) == row[0] && Trim(row[1]) == row[1] && Trim(row[2]) == row[2] && Trim(row[3]) == row[3]
  {
    CellTrimmed(row[0], '2', '3');
    CellTrimmed(row[1], 'A', 's');
    CellTrimmed(row[2], 'M', 'r');
    CellTrimmed(row[3], 'T', 'R');
  }

  /**
   * Through the example's columns, a four-cell row of trimmed cells with a
   * date, a scorer, a passer and a team yields the event of those cells.
   */
  lemma RowEventOfCells(cols: EventColumns, row: Row)
    requires cols == ExampleColumns && |row| == 4
    requires Trim(row[0]) == row[0] && Trim(row[1]) == row[1] && Trim(row[2]) == row[2] && Trim(row[3]) == row[3]
    requires row[0] != "" && row[1] != "" && row[2] != "" && row[3] != ""
    ensures RowEvent(cols, row) == Some(Event(row[1], Some(row[2]), None, None, None, row[3], Some(row[0])))
  {
  }

  /** The example's cells are all filled. */
  lemma ExampleCellsFilled(row: Row)
    requires IsExampleRow(row)
    ensures row[0] != "" && row[1] != "" && row[2] != "" && row[3] != ""
  {
  }

  /** The event built from the example's cells is `ExampleEvent`. */
  lemma ExampleEventOfCells(row: Row)
    requires IsExampleRow(row)
    ensures Event(row[1], Some(row[2]), None, None, None, row[3], Some(row[0])) == ExampleEvent
  {
  }

  /** The data row yields the event of scorer A. Matthews, passer M. Marner, team TOR, dated 2026-02-03. */
  lemma ExampleRowEvent(cols: EventColumns, row: Row)
    requires cols == ExampleColumns && IsExampleRow(row)
    ensures RowEvent(cols, row) == Some(ExampleEvent)
  {
    ExampleCellsTrimmed(row);
    ExampleCellsFilled(row);
    RowEventOfCells(cols, row);
    ExampleEventOfCells(row);
  }

  /** A single data row yields exactly its event. */
  lemma SingleRowEvents(cols: EventColumns, rows: seq<Row>, e: Event)
    requires |rows| == 1 && RowEvent(cols, rows[0]) == Some(e)
    ensures EventsOf(cols, rows) == [e]
  {
    assert rows == [rows[0]];
    EventsOfSingle(cols, rows[0]);
  }

  /** The example's data rows yield the single event of the example. */
  lemma ExampleRowsEvents(cols: EventColumns, rows: seq<Row>)
    requires cols == ExampleColumns && |rows| == 1 && IsExampleRow(rows[0])
    ensures EventsOf(cols, rows) == [ExampleEvent]
  {
    ExampleRowEvent(cols, rows[0]);
    SingleRowEvents(cols, rows, ExampleEvent);
  }

  /** The events of the example grid: the single event of its data row. */
  lemma ExampleEvents(grid: seq<Row>)
    requires |grid| == 2 && IsExampleHeader(grid[0]) && IsExampleRow(grid[1])
    ensures EventsOf(GridEventColumns(grid), DataRows(grid)) == [ExampleEvent]
  {
    ExampleColumnMap(grid);
    ExampleRowsEvents(GridEventColumns(grid), DataRows(grid));
  }

  // ---------------------------------------------------------------------------
  // The tally and the summary

  /** The scorer has one goal and the passer one assist, both credited to TOR. */
  lemma ExampleTally(evs: seq<Event>)
    requires evs == [ExampleEvent]
    ensures Players(evs) == {"A. Matthews", "M. Marner"}
    ensures Expected(evs, "A. Matthews") == PlayerStats(1, 0, "TOR")
    ensures Expected(evs, "M. Marner") == PlayerStats(0, 1, "TOR")
    ensures TeamsOf(evs) == {"TOR"}
  {
    assert evs[..0] == [];
  }

  /** One event with a scorer and a different passer credits two players and one team. */
  lemma OneAssistedGoalCounts(evs: seq<Event>, e: Event)
    requires evs == [e]
    requires e.assist1.Some? && e.assist1.value != e.scorer && e.assist2.None?
    ensures |Players(evs)| == 2 && |TeamsOf(evs)| == 1
  {
    assert evs[..0] == [];
    assert Players(evs) == {e.scorer, e.assist1.value};
    assert TeamsOf(evs) == {e.team};
  }

  /**
   * A run whose events grid yields one event with a scorer and a different
   * passer, and whose calendar cannot be read, reports one event, two
   * players, one team and no match.
   */
  lemma SummaryOfOneAssistedGoal(grid: seq<Row>, calendarSheetName: string, accepted: nat -> bool, e: Event)
    requires |grid| >= 2 && EventsOf(GridEventColumns(grid), DataRows(grid)) == [e]
    requires e.assist1.Some? && e.assist1.value != e.scorer && e.assist2.None?
    ensures SyncSummary(grid, calendarSheetName, None, accepted) == Synced(Summary(1, 2, 1, 0))
  {
    OneAssistedGoalCounts(EventsOf(GridEventColumns(grid), DataRows(grid)), e);
    CalendarSkipped(grid, calendarSheetName, None, accepted);
  }

  /** The run reports one event, two players, one team and no match. */
  lemma ExampleSummary(grid: seq<Row>, calendarSheetName: string, accepted: nat -> bool)
    requires |grid| == 2 && IsExampleHeader(grid[0]) && IsExampleRow(grid[1])
    ensures SyncSummary(grid, calendarSheetName, None, accepted) == Synced(Summary(1, 2, 1, 0))
  {
    ExampleEvents(grid);
    SummaryOfOneAssistedGoal(grid, calendarSheetName, accepted, ExampleEvent);
  }
}
