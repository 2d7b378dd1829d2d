/**
 * One run of the sheet importer, from the fetched grids to the summary it
 * answers with: the events grid is reduced first; the calendar grid is read
 * only when a calendar sheet is named, its fetch succeeds and it holds a
 * header row and at least one data row.
 */
module Sync {
  import opened Wrappers
  import opened Headers
  import opened Events
  import opened Calendar

  /** The counts the importer reports once a run completes. */
  datatype Summary = Summary(events: nat, players: nat, teams: nat, matches: nat)

  /** The answer of a run: nothing to import, or the counts of a completed run. */
  datatype SyncResult = NoData | Synced(summary: Summary)

  /** The calendar grid is reduced: a sheet is named, it was fetched, and it has a data row. */
  predicate CalendarRead(calendarSheetName: string, calendar: Option<seq<Row>>) {
    calendarSheetName != "" && calendar.Some? && |calendar.value| >= 2
  }

  /** The columns of a grid's first row, resolved for the events grid. */
  function GridEventColumns(grid: seq<Row>): EventColumns
    requires grid != []
  {
    EventColumnMap(NormalizeHeaders(grid[0]))
  }

  /** The columns of a grid's first row, resolved for the calendar grid. */
  function GridCalendarColumns(grid: seq<Row>): CalendarColumns
    requires grid != []
  {
    CalendarColumnMap(NormalizeHeaders(grid[0]))
  }

  /** The matches a run stores: none unless the calendar is read. */
  function RunMatches(calendarSheetName: string, calendar: Option<seq<Row>>, accepted: nat -> bool)
    : (r: seq<MatchRecord>)
    ensures !CalendarRead(calendarSheetName, calendar) ==> r == []
    ensures forall m :: m in r ==> m.status == Upcoming && m.homeTeam != "" && m.awayTeam != ""
  {
    if CalendarRead(calendarSheetName, calendar) then
      var cal := calendar.value;
      var attempts := Attempted(GridCalendarColumns(cal), DataRows(cal));
      StoredFromAttempts(attempts, accepted);
      Stored(attempts, accepted)
    else []
  }

  /**
   * What a run reports: `NoData` for a grid without a data row; otherwise the
   * number of events, of credited players, of teams (from events and from
   * stored matches) and of stored matches.
   */
  function SyncSummary(grid: seq<Row>, calendarSheetName: string, calendar: Option<seq<Row>>, accepted: nat -> bool)
    : (r: SyncResult)
    ensures r == NoData <==> |grid| < 2
  {
    if |grid| < 2 then NoData
    else
      var evs := EventsOf(GridEventColumns(grid), DataRows(grid));
      var stored := RunMatches(calendarSheetName, calendar, accepted);
      Synced(Summary(|evs|, |Players(evs)|, |TeamsOf(evs) + MatchTeams(stored)|, |stored|))
  }

  /**
   * The importer's run: the early exit on a grid without data rows, the events
   * reducer, then the calendar reducer when the calendar is read, continuing
   * with the team set of the events.
   */
  method SyncSheet(grid: seq<Row>, calendarSheetName: string, calendar: Option<seq<Row>>, accepted: nat -> bool)
    returns (r: SyncResult)
    ensures r == SyncSummary(grid, calendarSheetName, calendar, accepted)
  {
    if |grid| < 2 {
      return NoData;
    }
    var cols := GridEventColumns(grid);
    var events, stats, teams := ReduceEvents(cols, grid);
    var stored, matchesImported;
    stored, matchesImported, teams := ImportCalendar(calendarSheetName, calendar, accepted, teams);
    SummaryOfRun(grid, calendarSheetName, calendar, accepted, events, stats);
    r := Synced(Summary(|events|, |stats|, |teams|, matchesImported));
  }

  /**
   * The calendar step of a run: the calendar grid is reduced when it is read,
   * continuing the team set `teams`; otherwise nothing is stored.
   */
  method ImportCalendar(calendarSheetName: string, calendar: Option<seq<Row>>, accepted: nat -> bool, teams: set<string>)
    returns (stored: seq<MatchRecord>, matchesImported: nat, teams': set<string>)
    ensures stored == RunMatches(calendarSheetName, calendar, accepted)
    ensures matchesImported == |stored|
    ensures teams' == teams + MatchTeams(stored)
  {
    stored, matchesImported, teams' := [], 0, teams;
    if calendarSheetName != "" {
      match calendar {
        case Some(cal) =>
          if |cal| >= 2 {
            var calCols := GridCalendarColumns(cal);
            stored, matchesImported, teams' := ReduceCalendar(calCols, cal, accepted, teams);
          }
        case None =>
      }
    }
    if stored == [] {
      assert MatchTeams(stored) == {};
    }
  }

  /** The summary of a run whose events reducer produced `events` and `stats`. */
  lemma SummaryOfRun(
    grid: seq<Row>, calendarSheetName: string, calendar: Option<seq<Row>>, accepted: nat -> bool,
    events: seq<Event>, stats: map<string, PlayerStats>)
    requires |grid| >= 2
    requires events == EventsOf(GridEventColumns(grid), DataRows(grid)) && Tallied(stats, events)
    ensures var stored := RunMatches(calendarSheetName, calendar, accepted);
      SyncSummary(grid, calendarSheetName, calendar, accepted)
      == Synced(Summary(|events|, |stats|, |TeamsOf(events) + MatchTeams(stored)|, |stored|))
  {
    assert |stats| == |stats.Keys|;
  }

  // ---------------------------------------------------------------------------
  // Properties

  /** Without a readable calendar no match is imported, and the teams are those of the events. */
  lemma CalendarSkipped(grid: seq<Row>, calendarSheetName: string, calendar: Option<seq<Row>>, accepted: nat -> bool)
    requires |grid| >= 2 && !CalendarRead(calendarSheetName, calendar)
    ensures SyncSummary(grid, calendarSheetName, calendar, accepted).summary.matches == 0
    ensures SyncSummary(grid, calendarSheetName, calendar, accepted).summary.teams
         == |TeamsOf(EventsOf(GridEventColumns(grid), DataRows(grid)))|
  {
    assert MatchTeams([]) == {};
  }

  /** A calendar whose fetch fails (a 404, say) imports no match. */
  lemma CalendarNotFound(grid: seq<Row>, calendarSheetName: string, accepted: nat -> bool)
    requires |grid| >= 2
    ensures SyncSummary(grid, calendarSheetName, None, accepted).summary.matches == 0
  {
    CalendarSkipped(grid, calendarSheetName, None, accepted);
  }

  /** The reported match count is the number of inserts the database accepted. */
  lemma MatchesAreAccepted(grid: seq<Row>, calendarSheetName: string, calendar: Option<seq<Row>>, accepted: nat -> bool)
    requires |grid| >= 2 && CalendarRead(calendarSheetName, calendar)
    ensures SyncSummary(grid, calendarSheetName, calendar, accepted).summary.matches
         == Successes(accepted, |Attempted(GridCalendarColumns(calendar.value), DataRows(calendar.value))|)
  {
    var cal := calendar.value;
    StoredCount(Attempted(GridCalendarColumns(cal), DataRows(cal)), accepted);
  }

  /** Teams only grow with the calendar: every team of the events is counted, plus those of stored matches. */
  lemma TeamsCountEventTeams(grid: seq<Row>, calendarSheetName: string, calendar: Option<seq<Row>>, accepted: nat -> bool)
    requires |grid| >= 2
    ensures |TeamsOf(EventsOf(GridEventColumns(grid), DataRows(grid)))|
         <= SyncSummary(grid, calendarSheetName, calendar, accepted).summary.teams
  {
    var evs := EventsOf(GridEventColumns(grid), DataRows(grid));
    var stored := RunMatches(calendarSheetName, calendar, accepted);
    SubsetCard(TeamsOf(evs), TeamsOf(evs) + MatchTeams(stored));
  }

  lemma SubsetCard(a: set<string>, b: set<string>)
    requires a <= b
    ensures |a| <= |b|
  {
    assert b == a + (b - a);
  }
}
