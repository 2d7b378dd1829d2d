/**
 * The calendar row reducer: every data row of the calendar grid with a date,
 * a home team and an away team becomes an `upcoming` match whose date is
 * rewritten from `D/M/YYYY`; only the matches whose insert succeeds are
 * counted, and only their teams join the team set.
 */
module Calendar {
  import opened Wrappers
  import opened JsText
  import opened Headers
  import opened DateRewrite
  import opened Events

  /** The status every imported match gets. */
  const Upcoming: string := "upcoming"

  /** One row of the matches table, as inserted. */
  datatype MatchRecord = MatchRecord(
    matchDate: string, matchTime: Option<string>, homeTeam: string, awayTeam: string, status: string)

  /** A row that is inserted: non-empty, with non-blank date, home team and away team cells. */
  predicate Kept(cols: CalendarColumns, row: Row)
    ensures Kept(cols, row) <==>
      row != [] && Filled(Cell(row, cols.date)).Some?
      && Filled(Cell(row, cols.homeTeam)).Some? && Filled(Cell(row, cols.awayTeam)).Some?
  {
    row != []
    && 0 <= cols.date < |row| && Trim(row[cols.date]) != ""
    && 0 <= cols.homeTeam < |row| && Trim(row[cols.homeTeam]) != ""
    && 0 <= cols.awayTeam < |row| && Trim(row[cols.awayTeam]) != ""
  }

  /** The match a calendar row asks to insert, if any. */
  function RowMatch(cols: CalendarColumns, row: Row): (r: Option<MatchRecord>)
    ensures r.Some? <==> Kept(cols, row)
    ensures r.Some? ==> r.value.status == Upcoming && r.value.matchTime != Some("")
    ensures r.Some? ==> r.value.homeTeam != "" && r.value.awayTeam != ""
    ensures r.Some? ==> r.value.matchDate == RewriteDate(Trim(row[cols.date]))
    ensures r.Some? ==> r.value.homeTeam == Trim(row[cols.homeTeam]) && r.value.awayTeam == Trim(row[cols.awayTeam])
    ensures r.Some? ==> r.value.matchTime == Filled(Cell(row, cols.time))
  {
    if row == [] then None
    else
      var date := Cell(row, cols.date);
      var time := Cell(row, cols.time);
      var away := Cell(row, cols.awayTeam);
      var home := Cell(row, cols.homeTeam);
      if Filled(date).Some? && Filled(home).Some? && Filled(away).Some? then
        Some(MatchRecord(RewriteDate(date.value), Filled(time), home.value, away.value, Upcoming))
      else None
  }

  /** The inserts the rows attempt, in row order. */
  function Attempted(cols: CalendarColumns, rows: seq<Row>): (r: seq<MatchRecord>)
    ensures forall i :: 0 <= i < |r| ==> r[i].status == Upcoming && r[i].homeTeam != "" && r[i].awayTeam != ""
  {
    if rows == [] then []
    else
      var prev := Attempted(cols, rows[..|rows| - 1]);
      match RowMatch(cols, rows[|rows| - 1])
      case Some(m) => prev + [m]
      case None => prev
  }

  /**
   * The matches stored: the attempted inserts the database accepts, where
   * `accepted(i)` is its answer to the `i`-th insert of the run.
   */
  function Stored(attempts: seq<MatchRecord>, accepted: nat -> bool): (r: seq<MatchRecord>)
    ensures |r| <= |attempts|
  {
    if attempts == [] then []
    else
      var n := |attempts| - 1;
      var prev := Stored(attempts[..n], accepted);
      if accepted(n) then prev + [attempts[n]] else prev
  }

  /** The home and away teams of some matches. */
  function MatchTeams(ms: seq<MatchRecord>): set<string> {
    if ms == [] then {} else MatchTeams(ms[..|ms| - 1]) + {ms[|ms| - 1].homeTeam, ms[|ms| - 1].awayTeam}
  }

  /** Number of the first `n` inserts that the database accepts. */
  function Successes(accepted: nat -> bool, n: nat): nat {
    if n == 0 then 0 else Successes(accepted, n - 1) + (if accepted(n - 1) then 1 else 0)
  }

  // ---------------------------------------------------------------------------
  // Properties

  /** Each attempt is a kept row's match, in row order: the attempts of consecutive blocks of rows concatenate. */
  lemma {:induction false} AttemptedAppend(cols: CalendarColumns, a: seq<Row>, b: seq<Row>)
    ensures Attempted(cols, a + b) == Attempted(cols, a) + Attempted(cols, b)
  {
    if b == [] {
      assert a + b == a;
    } else {
      var b' := b[..|b| - 1];
      assert (a + b)[..|a + b| - 1] == a + b';
      assert (a + b)[|a + b| - 1] == b[|b| - 1];
      AttemptedAppend(cols, a, b');
    }
  }

  /** Number of rows that are kept. */
  function KeptCount(cols: CalendarColumns, rows: seq<Row>): nat {
    if rows == [] then 0 else (if Kept(cols, rows[0]) then 1 else 0) + KeptCount(cols, rows[1..])
  }

  /** There are exactly as many attempted inserts as kept rows. */
  lemma {:induction false} AttemptedCount(cols: CalendarColumns, rows: seq<Row>)
    ensures |Attempted(cols, rows)| == KeptCount(cols, rows)
  {
    if rows != [] {
      assert rows == [rows[0]] + rows[1..];
      AttemptedAppend(cols, [rows[0]], rows[1..]);
      assert [rows[0]][..0] == [];
      AttemptedCount(cols, rows[1..]);
    }
  }

  /** When every insert succeeds, every attempted match is stored. */
  lemma {:induction false} AllInsertsSucceed(attempts: seq<MatchRecord>, accepted: nat -> bool)
    requires forall i: nat :: accepted(i)
    ensures Stored(attempts, accepted) == attempts
  {
    if attempts != [] {
      AllInsertsSucceed(attempts[..|attempts| - 1], accepted);
    }
  }

  /** When every insert fails, nothing is stored. */
  lemma {:induction false} AllInsertsFail(attempts: seq<MatchRecord>, accepted: nat -> bool)
    requires forall i: nat :: !accepted(i)
    ensures Stored(attempts, accepted) == []
  {
    if attempts != [] {
      AllInsertsFail(attempts[..|attempts| - 1], accepted);
    }
  }

  /** The stored matches are exactly the accepted attempts. */
  lemma {:induction false} StoredAreAccepted(attempts: seq<MatchRecord>, accepted: nat -> bool, m: MatchRecord)
    ensures m in Stored(attempts, accepted) <==> exists i: nat :: i < |attempts| && accepted(i) && attempts[i] == m
  {
    if attempts != [] {
      var n := |attempts| - 1;
      var init := attempts[..n];
      StoredAreAccepted(init, accepted, m);
      if m in Stored(init, accepted) {
        var i: nat :| i < n && accepted(i) && init[i] == m;
        assert attempts[i] == m;
      }
      if exists i: nat :: i < |attempts| && accepted(i) && attempts[i] == m {
        var i: nat :| i < |attempts| && accepted(i) && attempts[i] == m;
        if i < n {
          assert init[i] == m;
        }
      }
    }
  }

  /** Every stored match is one of the attempts. */
  lemma StoredFromAttempts(attempts: seq<MatchRecord>, accepted: nat -> bool)
    ensures forall m :: m in Stored(attempts, accepted) ==> m in attempts
  {
    forall m | m in Stored(attempts, accepted)
      ensures m in attempts
    {
      StoredAreAccepted(attempts, accepted, m);
    }
  }

  /** `matchesImported` counts exactly the accepted inserts. */
  lemma {:induction false} StoredCount(attempts: seq<MatchRecord>, accepted: nat -> bool)
    ensures |Stored(attempts, accepted)| == Successes(accepted, |attempts|)
  {
    if attempts != [] {
      StoredCount(attempts[..|attempts| - 1], accepted);
    }
  }

  /** A team joins the set through a match exactly when a stored match names it. */
  lemma {:induction false} MatchTeamsIff(ms: seq<MatchRecord>, t: string)
    ensures t in MatchTeams(ms) <==> exists i :: 0 <= i < |ms| && (ms[i].homeTeam == t || ms[i].awayTeam == t)
  {
    if ms != [] {
      var init := ms[..|ms| - 1];
      MatchTeamsIff(init, t);
      if t in MatchTeams(init) {
        var i :| 0 <= i < |init| && (init[i].homeTeam == t || init[i].awayTeam == t);
        assert ms[i] == init[i];
      }
      if exists i :: 0 <= i < |ms| && (ms[i].homeTeam == t || ms[i].awayTeam == t) {
        var i :| 0 <= i < |ms| && (ms[i].homeTeam == t || ms[i].awayTeam == t);
        if i < |init| {
          assert init[i] == ms[i];
        }
      }
    }
  }

  // ---------------------------------------------------------------------------
  // The reducer

  /** One more row adds its attempt, if it is kept. */
  lemma AttemptedStep(cols: CalendarColumns, data: seq<Row>, k: nat)
    requires k < |data|
    ensures RowMatch(cols, data[k]).None? ==> Attempted(cols, data[..k + 1]) == Attempted(cols, data[..k])
    ensures RowMatch(cols, data[k]).Some? ==>
      Attempted(cols, data[..k + 1]) == Attempted(cols, data[..k]) + [RowMatch(cols, data[k]).value]
  {
    assert data[..k + 1][..k] == data[..k];
  }

  /** One more attempt adds its match to the stored ones exactly when it is accepted. */
  lemma StoredStep(attempts: seq<MatchRecord>, m: MatchRecord, accepted: nat -> bool)
    ensures Stored(attempts + [m], accepted) == Stored(attempts, accepted) + (if accepted(|attempts|) then [m] else [])
  {
    assert (attempts + [m])[..|attempts|] == attempts;
  }

  /** A stored match adds its two teams. */
  lemma MatchTeamsAppend(ms: seq<MatchRecord>, m: MatchRecord)
    ensures MatchTeams(ms + [m]) == MatchTeams(ms) + {m.homeTeam, m.awayTeam}
  {
    assert (ms + [m])[..|ms|] == ms;
  }

  /** A successful insert adds its home and away teams to the team set. */
  lemma MatchTeamsStep(teams: set<string>, stored: seq<MatchRecord>, m: MatchRecord)
    ensures teams + MatchTeams(stored + [m]) == (teams + MatchTeams(stored)) + {m.homeTeam, m.awayTeam}
  {
    MatchTeamsAppend(stored, m);
  }

  /**
   * The loop over the calendar's data rows: each kept row is inserted, the
   * database's answer to the `i`-th insert is `accepted(i)`, and an accepted
   * insert is counted and adds its home and away teams to `teams`.
   */
  method ReduceCalendar(cols: CalendarColumns, grid: seq<Row>, accepted: nat -> bool, teams: set<string>)
    returns (stored: seq<MatchRecord>, matchesImported: nat, teams': set<string>)
    ensures stored == Stored(Attempted(cols, DataRows(grid)), accepted)
    ensures matchesImported == |stored|
    ensures teams' == teams + MatchTeams(stored)
  {
    var data := DataRows(grid);
    stored, matchesImported, teams' := [], 0, teams;
    var attempts := 0;
    ghost var done: seq<MatchRecord> := [];
    var k := 0;
    while k < |data|
      invariant 0 <= k <= |data|
      invariant done == Attempted(cols, data[..k])
      invariant attempts == |done|
      invariant stored == Stored(done, accepted)
      invariant matchesImported == |stored|
      invariant teams' == teams + MatchTeams(stored)
    {
      var m := RowMatch(cols, data[k]);
      AttemptedStep(cols, data, k);
      if m.Some? {
        StoredStep(done, m.value, accepted);
        if accepted(attempts) {
          MatchTeamsStep(teams, stored, m.value);
          stored := stored + [m.value];
          matchesImported := matchesImported + 1;
          teams' := teams' + {m.value.homeTeam, m.value.awayTeam};
        }
        done := done + [m.value];
        attempts := attempts + 1;
      }
      k := k + 1;
    }
    assert data[..k] == data;
  }
}
