/**
 * Column order does not matter: the importer finds its columns by header
 * name, so moving the columns of the events grid around (moving every row's
 * cells together with the header) yields the same events and the same
 * summary, provided no synonym the importer looks for occurs twice in the
 * normalized header row (other header cells, blank ones included, may repeat).
 */
module ColumnOrder {
  import opened Wrappers
  import opened Headers
  import opened Events
  import opened Sync

  /** `p` and `q` are mutually inverse permutations of the positions 0..n-1. */
  predicate Inverse(p: seq<nat>, q: seq<nat>, n: nat) {
    |p| == n && |q| == n
    && (forall j :: 0 <= j < n ==> p[j] < n && q[p[j]] == j)
    && (forall i :: 0 <= i < n ==> q[i] < n && p[q[i]] == i)
  }

  /** `s'` is `s` with its cells moved: position `j` of `s'` holds position `p[j]` of `s`. */
  predicate Reordered(s': seq<string>, s: seq<string>, p: seq<nat>) {
    |s'| == |p| && |s| == |p|
    && forall j :: 0 <= j < |p| ==> p[j] < |s| && s'[j] == s[p[j]]
  }

  /** `x` occurs at most once in `xs`. */
  predicate AtMostOnce(xs: seq<string>, x: string) {
    forall i, j :: 0 <= i < j < |xs| && xs[i] == x ==> xs[j] != x
  }

  /** No synonym of the list, normalized, occurs twice in the header row `h`. */
  predicate SynonymsOnce(h: seq<string>, names: seq<string>) {
    forall k :: 0 <= k < |names| ==> AtMostOnce(h, NormalizeHeader(names[k]))
  }

  /** No synonym of any of the eight events fields occurs twice in the header row `h`. */
  predicate EventSynonymsOnce(h: seq<string>) {
    SynonymsOnce(h, DateNames) && SynonymsOnce(h, MatchNames) && SynonymsOnce(h, ScorerNames)
    && SynonymsOnce(h, Assist1Names) && SynonymsOnce(h, Assist2Names) && SynonymsOnce(h, PeriodNames)
    && SynonymsOnce(h, TimeNames) && SynonymsOnce(h, TeamNames)
  }

  /** No synonym of any of the five calendar fields occurs twice in the header row `h`. */
  predicate CalendarSynonymsOnce(h: seq<string>) {
    SynonymsOnce(h, DateNames) && SynonymsOnce(h, CalendarTimeNames) && SynonymsOnce(h, AwayNames)
    && SynonymsOnce(h, HomeNames) && SynonymsOnce(h, MatchFullNames)
  }

  /** Column `c'` of the moved grid is column `c` of the original one, or both are unmapped. */
  predicate Moved(c': int, c: int, p: seq<nat>) {
    (c' == -1 && c == -1) || (0 <= c' < |p| && p[c'] == c)
  }

  /** Every field of the events column map moved with its column. */
  predicate EventColumnsMoved(c': EventColumns, c: EventColumns, p: seq<nat>) {
    Moved(c'.date, c.date, p) && Moved(c'.matchLabel, c.matchLabel, p)
    && Moved(c'.scorer, c.scorer, p) && Moved(c'.assist1, c.assist1, p)
    && Moved(c'.assist2, c.assist2, p) && Moved(c'.period, c.period, p)
    && Moved(c'.time, c.time, p) && Moved(c'.team, c.team, p)
  }

  /** Every field of the calendar column map moved with its column. */
  predicate CalendarColumnsMoved(c': CalendarColumns, c: CalendarColumns, p: seq<nat>) {
    Moved(c'.date, c.date, p) && Moved(c'.time, c.time, p) && Moved(c'.awayTeam, c.awayTeam, p)
    && Moved(c'.homeTeam, c.homeTeam, p) && Moved(c'.matchFull, c.matchFull, p)
  }

  /** When `x` occurs once, the cell holding it is where `indexOf` finds it. */
  lemma IndexOfOnce(xs: seq<string>, x: string, r: nat)
    requires AtMostOnce(xs, x) && r < |xs| && xs[r] == x
    ensures IndexOf(xs, x) == r
  {
    assert x in xs;
    var k := IndexOf(xs, x);
    assert xs[k] == xs[r];
  }

  /** `indexOf` in a moved header row finds the moved position of the original one. */
  lemma IndexOfReordered(h': seq<string>, h: seq<string>, p: seq<nat>, q: seq<nat>, x: string)
    requires Inverse(p, q, |h|) && Reordered(h', h, p) && AtMostOnce(h, x)
    ensures Moved(IndexOf(h', x), IndexOf(h, x), p)
  {
    var i := IndexOf(h, x);
    if i >= 0 {
      assert h'[q[i]] == x;
    }
    var j := IndexOf(h', x);
    if j >= 0 {
      IndexOfOnce(h, x, p[j]);
    }
  }

  /** `findColumn` in a moved header row finds the moved column of the original one. */
  lemma {:induction false} FindColumnReordered(
    h': seq<string>, h: seq<string>, p: seq<nat>, q: seq<nat>, names: seq<string>)
    requires Inverse(p, q, |h|) && Reordered(h', h, p) && SynonymsOnce(h, names)
    ensures Moved(FindColumn(h', names), FindColumn(h, names), p)
  {
    if names != [] {
      assert AtMostOnce(h, NormalizeHeader(names[0]));
      assert forall k :: 0 <= k < |names[1..]| ==> names[1..][k] == names[k + 1];
      IndexOfReordered(h', h, p, q, NormalizeHeader(names[0]));
      FindColumnReordered(h', h, p, q, names[1..]);
    }
  }

  /** The events column map of a moved header row is the original map, moved. */
  lemma EventColumnMapReordered(h': seq<string>, h: seq<string>, p: seq<nat>, q: seq<nat>)
    requires Inverse(p, q, |h|) && Reordered(h', h, p) && EventSynonymsOnce(h)
    ensures EventColumnsMoved(EventColumnMap(h'), EventColumnMap(h), p)
  {
    FindColumnReordered(h', h, p, q, DateNames);
    FindColumnReordered(h', h, p, q, MatchNames);
    FindColumnReordered(h', h, p, q, ScorerNames);
    FindColumnReordered(h', h, p, q, Assist1Names);
    FindColumnReordered(h', h, p, q, Assist2Names);
    FindColumnReordered(h', h, p, q, PeriodNames);
    FindColumnReordered(h', h, p, q, TimeNames);
    FindColumnReordered(h', h, p, q, TeamNames);
  }

  /** The calendar column map of a moved header row is the original map, moved. */
  lemma CalendarColumnMapReordered(h': seq<string>, h: seq<string>, p: seq<nat>, q: seq<nat>)
    requires Inverse(p, q, |h|) && Reordered(h', h, p) && CalendarSynonymsOnce(h)
    ensures CalendarColumnsMoved(CalendarColumnMap(h'), CalendarColumnMap(h), p)
  {
    FindColumnReordered(h', h, p, q, DateNames);
    FindColumnReordered(h', h, p, q, CalendarTimeNames);
    FindColumnReordered(h', h, p, q, AwayNames);
    FindColumnReordered(h', h, p, q, HomeNames);
    FindColumnReordered(h', h, p, q, MatchFullNames);
  }

  /** Normalizing a moved header row gives the normalized row, moved. */
  lemma NormalizeReordered(h': seq<string>, h: seq<string>, p: seq<nat>)
    requires Reordered(h', h, p)
    ensures Reordered(NormalizeHeaders(h'), NormalizeHeaders(h), p)
  {
    var n', n := NormalizeHeaders(h'), NormalizeHeaders(h);
    forall j | 0 <= j < |p|
      ensures n'[j] == n[p[j]]
    {
      assert n'[j] == NormalizeHeader(h'[j]);
    }
  }

  /** A cell read through a moved column is the cell read through the original column. */
  lemma CellMoved(row': Row, row: Row, p: seq<nat>, c': int, c: int)
    requires Reordered(row', row, p) && Moved(c', c, p)
    ensures Cell(row', c') == Cell(row, c)
    ensures PeriodCell(row', c') == PeriodCell(row, c)
  {
    if c' != -1 {
      assert row'[c'] == row[c];
    }
  }

  /** A moved row, read through the moved columns, yields the original row's event. */
  lemma RowEventReordered(cols': EventColumns, cols: EventColumns, row': Row, row: Row, p: seq<nat>)
    requires Reordered(row', row, p) && EventColumnsMoved(cols', cols, p)
    ensures RowEvent(cols', row') == RowEvent(cols, row)
  {
    CellMoved(row', row, p, cols'.scorer, cols.scorer);
    CellMoved(row', row, p, cols'.team, cols.team);
    CellMoved(row', row, p, cols'.assist1, cols.assist1);
    CellMoved(row', row, p, cols'.assist2, cols.assist2);
    CellMoved(row', row, p, cols'.period, cols.period);
    CellMoved(row', row, p, cols'.time, cols.time);
    CellMoved(row', row, p, cols'.date, cols.date);
  }

  /** Moved rows read through moved columns yield the original events, in the original order. */
  lemma {:induction false} EventsOfReordered(
    cols': EventColumns, cols: EventColumns, rows': seq<Row>, rows: seq<Row>, p: seq<nat>)
    requires |rows'| == |rows|
    requires forall r :: 0 <= r < |rows| ==> Reordered(rows'[r], rows[r], p)
    requires EventColumnsMoved(cols', cols, p)
    ensures EventsOf(cols', rows') == EventsOf(cols, rows)
  {
    if rows != [] {
      var n := |rows| - 1;
      RowEventReordered(cols', cols, rows'[n], rows[n], p);
      EventsOfReordered(cols', cols, rows'[..n], rows[..n], p);
    }
  }

  /** The columns of a moved events grid are the original grid's columns, moved. */
  lemma GridColumnsReordered(grid': seq<Row>, grid: seq<Row>, p: seq<nat>, q: seq<nat>)
    requires grid' != [] && grid != []
    requires Inverse(p, q, |grid[0]|) && Reordered(grid'[0], grid[0], p)
    requires EventSynonymsOnce(NormalizeHeaders(grid[0]))
    ensures EventColumnsMoved(GridEventColumns(grid'), GridEventColumns(grid), p)
  {
    NormalizeReordered(grid'[0], grid[0], p);
    EventColumnMapReordered(NormalizeHeaders(grid'[0]), NormalizeHeaders(grid[0]), p, q);
  }

  /**
   * Moving the columns of the events grid (the header row and every data row
   * alike) leaves its events unchanged, when no synonym occurs twice in its header row.
   */
  lemma EventsIgnoreColumnOrder(grid': seq<Row>, grid: seq<Row>, p: seq<nat>, q: seq<nat>)
    requires |grid'| == |grid| && grid != []
    requires Inverse(p, q, |grid[0]|)
    requires forall r :: 0 <= r < |grid| ==> Reordered(grid'[r], grid[r], p)
    requires EventSynonymsOnce(NormalizeHeaders(grid[0]))
    ensures EventsOf(GridEventColumns(grid'), DataRows(grid')) == EventsOf(GridEventColumns(grid), DataRows(grid))
  {
    GridColumnsReordered(grid', grid, p, q);
    var rows', rows := DataRows(grid'), DataRows(grid);
    assert forall r :: 0 <= r < |rows| ==> rows'[r] == grid'[r + 1] && rows[r] == grid[r + 1];
    EventsOfReordered(GridEventColumns(grid'), GridEventColumns(grid), rows', rows, p);
  }

  /** The whole summary of a run is the same for the moved events grid. */
  lemma SummaryIgnoresColumnOrder(
    grid': seq<Row>, grid: seq<Row>, p: seq<nat>, q: seq<nat>,
    calendarSheetName: string, calendar: Option<seq<Row>>, accepted: nat -> bool)
    requires |grid'| == |grid| && grid != []
    requires Inverse(p, q, |grid[0]|)
    requires forall r :: 0 <= r < |grid| ==> Reordered(grid'[r], grid[r], p)
    requires EventSynonymsOnce(NormalizeHeaders(grid[0]))
    ensures SyncSummary(grid', calendarSheetName, calendar, accepted)
         == SyncSummary(grid, calendarSheetName, calendar, accepted)
  {
    EventsIgnoreColumnOrder(grid', grid, p, q);
  }
}
