/**
 * The events row reducer: every data row of the events grid that names a
 * scorer and a team becomes a scoring event; the events feed a per-player
 * tally (goals, assists, team at first appearance) and the set of teams.
 */
module Events {
  import opened Wrappers
  import opened JsText
  import opened Headers
  import opened ParseInt

  type Row = seq<string>

  /** The data rows of a grid: every row after the header row. */
  function DataRows(grid: seq<Row>): (r: seq<Row>)
    ensures |r| == if grid == [] then 0 else |grid| - 1
    ensures forall i :: 0 <= i < |r| ==> r[i] == grid[i + 1]
  {
    if grid == [] then [] else grid[1..]
  }

  // ---------------------------------------------------------------------------
  // Cells

  /** `c !== -1 ? row[c]?.trim() : null`: absent for an unmapped column or a missing cell. */
  function Cell(row: Row, c: int): (r: Option<string>)
    ensures r.Some? <==> 0 <= c < |row|
    ensures r.Some? ==> r.value == Trim(row[c])
  {
    if 0 <= c < |row| then Some(Trim(row[c])) else None
  }

  /** `cell || undefined`: an empty cell counts as absent. */
  function Filled(cell: Option<string>): (r: Option<string>)
    ensures r.Some? <==> cell.Some? && cell.value != ""
    ensures r.Some? ==> r == cell
  {
    if cell.Some? && cell.value != "" then cell else None
  }

  /** `c !== -1 ? parseInt(row[c]) || null : null`; `parseInt` of a missing cell is NaN. */
  function PeriodCell(row: Row, c: int): (r: Option<int>)
    ensures 0 <= c < |row| ==> r == PeriodOf(row[c])
    ensures !(0 <= c < |row|) ==> r == None
    ensures r.Some? ==> r.value != 0
  {
    if 0 <= c < |row| then PeriodOf(row[c]) else None
  }

  // ---------------------------------------------------------------------------
  // Events

  /** One scoring event, as pushed onto `events`. */
  datatype Event = Event(
    scorer: string, assist1: Option<string>, assist2: Option<string>,
    period: Option<int>, eventTime: Option<string>, team: string, matchDate: Option<string>)

  /** A row that yields an event: non-empty, with a non-blank scorer cell and a non-blank team cell. */
  predicate Qualifies(cols: EventColumns, row: Row)
    ensures Qualifies(cols, row) <==>
      row != [] && Filled(Cell(row, cols.scorer)).Some? && Filled(Cell(row, cols.team)).Some?
  {
    row != []
    && 0 <= cols.scorer < |row| && Trim(row[cols.scorer]) != ""
    && 0 <= cols.team < |row| && Trim(row[cols.team]) != ""
  }

  /** The event a data row yields, if any. */
  function RowEvent(cols: EventColumns, row: Row): (r: Option<Event>)
    ensures r.Some? <==> Qualifies(cols, row)
    ensures r.Some? ==> r.value.scorer == Trim(row[cols.scorer]) && r.value.team == Trim(row[cols.team])
    ensures r.Some? ==> r.value.assist1 != Some("") && r.value.assist2 != Some("")
    ensures r.Some? ==> r.value.eventTime != Some("") && r.value.matchDate != Some("")
    ensures r.Some? ==>
      r.value.assist1 == Filled(Cell(row, cols.assist1)) && r.value.assist2 == Filled(Cell(row, cols.assist2))
      && r.value.period == PeriodCell(row, cols.period) && r.value.eventTime == Filled(Cell(row, cols.time))
      && r.value.matchDate == Filled(Cell(row, cols.date))
  {
    if row == [] then None
    else
      var scorer := Cell(row, cols.scorer);
      var team := Cell(row, cols.team);
      if Filled(scorer).Some? && Filled(team).Some? then
        Some(Event(
          scorer.value,
          Filled(Cell(row, cols.assist1)),
          Filled(Cell(row, cols.assist2)),
          PeriodCell(row, cols.period),
          Filled(Cell(row, cols.time)),
          team.value,
          Filled(Cell(row, cols.date))))
      else None
  }

  /** The events of the data rows, in row order. */
  function EventsOf(cols: EventColumns, rows: seq<Row>): (evs: seq<Event>)
    ensures |evs| <= |rows|
  {
    if rows == [] then []
    else
      var prev := EventsOf(cols, rows[..|rows| - 1]);
      match RowEvent(cols, rows[|rows| - 1])
      case Some(e) => prev + [e]
      case None => prev
  }

  /** A single row yields its event or nothing. */
  lemma EventsOfSingle(cols: EventColumns, row: Row)
    ensures EventsOf(cols, [row]) == if Qualifies(cols, row) then [RowEvent(cols, row).value] else []
  {
    assert [row][..0] == [];
  }

  /** The events of consecutive blocks of rows are the concatenation of their events: events follow row order. */
  lemma {:induction false} EventsOfAppend(cols: EventColumns, a: seq<Row>, b: seq<Row>)
    ensures EventsOf(cols, a + b) == EventsOf(cols, a) + EventsOf(cols, b)
  {
    if b == [] {
      assert a + b == a;
    } else {
      var b' := b[..|b| - 1];
      var last := OptionEvents(RowEvent(cols, b[|b| - 1]));
      assert (a + b)[..|a + b| - 1] == a + b';
      assert (a + b)[|a + b| - 1] == b[|b| - 1];
      calc {
        EventsOf(cols, a + b);
        == { EventsOfLast(cols, a + b); }
        EventsOf(cols, a + b') + last;
        == { EventsOfAppend(cols, a, b'); }
        EventsOf(cols, a) + EventsOf(cols, b') + last;
        == { EventsOfLast(cols, b); }
        EventsOf(cols, a) + EventsOf(cols, b);
      }
    }
  }

  /** Number of rows that qualify. */
  function QualifyingCount(cols: EventColumns, rows: seq<Row>): nat {
    if rows == [] then 0 else (if Qualifies(cols, rows[0]) then 1 else 0) + QualifyingCount(cols, rows[1..])
  }

  /** There are exactly as many events as qualifying rows. */
  lemma {:induction false} EventsCount(cols: EventColumns, rows: seq<Row>)
    ensures |EventsOf(cols, rows)| == QualifyingCount(cols, rows)
  {
    if rows != [] {
      assert rows == [rows[0]] + rows[1..];
      EventsOfAppend(cols, [rows[0]], rows[1..]);
      EventsOfSingle(cols, rows[0]);
      EventsCount(cols, rows[1..]);
    }
  }

  /** The last row adds its event, if it yields one. */
  lemma EventsOfLast(cols: EventColumns, rows: seq<Row>)
    requires rows != []
    ensures EventsOf(cols, rows)
         == EventsOf(cols, rows[..|rows| - 1]) + OptionEvents(RowEvent(cols, rows[|rows| - 1]))
  {
  }

  /** The events an optional event stands for: none or one. */
  function OptionEvents(r: Option<Event>): (evs: seq<Event>)
    ensures |evs| <= 1
  {
    if r.Some? then [r.value] else []
  }

  /** Rows that do not qualify add no event. */
  lemma {:induction false} EventsOfSkipsRows(cols: EventColumns, rows: seq<Row>)
    requires forall i :: 0 <= i < |rows| ==> !Qualifies(cols, rows[i])
    ensures EventsOf(cols, rows) == []
  {
    if rows != [] {
      var init := rows[..|rows| - 1];
      assert forall i :: 0 <= i < |init| ==> init[i] == rows[i];
      EventsOfSkipsRows(cols, init);
    }
  }

  // ---------------------------------------------------------------------------
  // Player tally, specified over the event list

  /** The per-player entry of `playerStats`. */
  datatype PlayerStats = PlayerStats(goals: nat, assists: nat, team: string)

  /** The names an event credits: its scorer and its assists. */
  function Names(e: Event): (r: set<string>)
    ensures e.scorer in r
  {
    {e.scorer}
    + (if e.assist1.Some? then {e.assist1.value} else {})
    + (if e.assist2.Some? then {e.assist2.value} else {})
  }

  predicate Involves(e: Event, p: string) {
    e.scorer == p || e.assist1 == Some(p) || e.assist2 == Some(p)
  }

  /** Number of events scored by `p`. */
  function Goals(evs: seq<Event>, p: string): (n: nat)
    ensures n <= |evs|
  {
    if evs == [] then 0
    else Goals(evs[..|evs| - 1], p) + (if evs[|evs| - 1].scorer == p then 1 else 0)
  }

  /** Number of events with `p` as first assist, plus number with `p` as second assist. */
  function Assists(evs: seq<Event>, p: string): (n: nat)
    ensures n <= 2 * |evs|
  {
    if evs == [] then 0
    else
      var e := evs[|evs| - 1];
      Assists(evs[..|evs| - 1], p) + (if e.assist1 == Some(p) then 1 else 0) + (if e.assist2 == Some(p) then 1 else 0)
  }

  /** Everyone credited by some event. */
  function Players(evs: seq<Event>): set<string> {
    if evs == [] then {} else Players(evs[..|evs| - 1]) + Names(evs[|evs| - 1])
  }

  /** The team of the first event that credits `p`. */
  function FirstTeam(evs: seq<Event>, p: string): string
    requires p in Players(evs)
  {
    var init := evs[..|evs| - 1];
    if p in Players(init) then FirstTeam(init, p) else evs[|evs| - 1].team
  }

  /** Every team of some event. */
  function TeamsOf(evs: seq<Event>): set<string> {
    if evs == [] then {} else TeamsOf(evs[..|evs| - 1]) + {evs[|evs| - 1].team}
  }

  /** What `playerStats[p]` holds once the events `evs` are processed. */
  function Expected(evs: seq<Event>, p: string): PlayerStats
    requires p in Players(evs)
  {
    PlayerStats(Goals(evs, p), Assists(evs, p), FirstTeam(evs, p))
  }

  /** `playerStats` agrees with the event list: one entry per credited player, each holding its counts and first team. */
  predicate Tallied(stats: map<string, PlayerStats>, evs: seq<Event>) {
    stats.Keys == Players(evs)
    && forall p :: p in stats ==> p in Players(evs) && stats[p] == Expected(evs, p)
  }

  /** An event credits exactly its scorer and its assists. */
  lemma NamesIffInvolves(e: Event, p: string)
    ensures p in Names(e) <==> Involves(e, p)
  {
  }

  /** A name is a player exactly when some event credits it. */
  lemma {:induction false} PlayersIffInvolved(evs: seq<Event>, p: string)
    ensures p in Players(evs) <==> exists i :: 0 <= i < |evs| && Involves(evs[i], p)
  {
    if evs != [] {
      var n := |evs| - 1;
      var init := evs[..n];
      PlayersIffInvolved(init, p);
      NamesIffInvolves(evs[n], p);
      if p in Players(init) {
        var i :| 0 <= i < |init| && Involves(init[i], p);
        assert evs[i] == init[i];
      } else if p in Names(evs[n]) {
        assert Involves(evs[n], p);
      }
      if exists i :: 0 <= i < |evs| && Involves(evs[i], p) {
        var i :| 0 <= i < |evs| && Involves(evs[i], p);
        if i < n {
          assert init[i] == evs[i];
        }
      }
    }
  }

  /** The stored team is the team of the first event crediting the player, in any role. */
  lemma {:induction false} FirstTeamIsFirst(evs: seq<Event>, p: string)
    requires p in Players(evs)
    ensures exists i ::
              0 <= i < |evs| && Involves(evs[i], p) && FirstTeam(evs, p) == evs[i].team
              && forall j :: 0 <= j < i ==> !Involves(evs[j], p)
  {
    var init := evs[..|evs| - 1];
    if p in Players(init) {
      FirstTeamIsFirst(init, p);
      var i :| 0 <= i < |init| && Involves(init[i], p) && FirstTeam(init, p) == init[i].team
        && forall j :: 0 <= j < i ==> !Involves(init[j], p);
      assert evs[i] == init[i];
      assert forall j :: 0 <= j < i ==> evs[j] == init[j];
    } else {
      PlayersIffInvolved(init, p);
      var i := |evs| - 1;
      assert forall j :: 0 <= j < i ==> evs[j] == init[j];
    }
  }

  /** Later events never change a player's stored team. */
  lemma {:induction false} FirstTeamStable(a: seq<Event>, b: seq<Event>, p: string)
    requires p in Players(a)
    ensures p in Players(a + b) && FirstTeam(a + b, p) == FirstTeam(a, p)
  {
    if b == [] {
      assert a + b == a;
    } else {
      var b' := b[..|b| - 1];
      assert (a + b)[..|a + b| - 1] == a + b';
      FirstTeamStable(a, b', p);
    }
  }

  /** Goals and assists add up over consecutive blocks of events: the counts do not depend on where a block ends. */
  lemma {:induction false} CountsAppend(a: seq<Event>, b: seq<Event>, p: string)
    ensures Goals(a + b, p) == Goals(a, p) + Goals(b, p)
    ensures Assists(a + b, p) == Assists(a, p) + Assists(b, p)
  {
    if b == [] {
      assert a + b == a;
    } else {
      var b' := b[..|b| - 1];
      assert (a + b)[..|a + b| - 1] == a + b';
      assert (a + b)[|a + b| - 1] == b[|b| - 1];
      CountsAppend(a, b', p);
    }
  }

  /** A player credited by no event has no goals and no assists. */
  lemma {:induction false} UncreditedHasNoCounts(evs: seq<Event>, p: string)
    requires p !in Players(evs)
    ensures Goals(evs, p) == 0 && Assists(evs, p) == 0
  {
    if evs != [] {
      UncreditedHasNoCounts(evs[..|evs| - 1], p);
    }
  }

  /** Teams of the events: exactly the teams some event names. */
  lemma TeamsOfIff(evs: seq<Event>, t: string)
    ensures t in TeamsOf(evs) <==> exists i :: 0 <= i < |evs| && evs[i].team == t
  {
    if evs != [] {
      var init := evs[..|evs| - 1];
      TeamsOfIff(init, t);
      if t in TeamsOf(init) {
        var i :| 0 <= i < |init| && init[i].team == t;
        assert evs[i] == init[i];
      }
      if exists i :: 0 <= i < |evs| && evs[i].team == t {
        var i :| 0 <= i < |evs| && evs[i].team == t;
        if i < |init| {
          assert init[i] == evs[i];
        }
      }
    }
  }

  // ---------------------------------------------------------------------------
  // The reducer

  /** Adding one event to the list: how the counts, players, first teams and teams move. */
  lemma StepFacts(evs: seq<Event>, e: Event)
    ensures Players(evs + [e]) == Players(evs) + Names(e)
    ensures TeamsOf(evs + [e]) == TeamsOf(evs) + {e.team}
    ensures forall p :: Goals(evs + [e], p) == Goals(evs, p) + (if e.scorer == p then 1 else 0)
    ensures forall p ::
              Assists(evs + [e], p)
              == Assists(evs, p) + (if e.assist1 == Some(p) then 1 else 0) + (if e.assist2 == Some(p) then 1 else 0)
    ensures forall p :: p in Players(evs) ==> FirstTeam(evs + [e], p) == FirstTeam(evs, p)
    ensures forall p :: p in Names(e) && p !in Players(evs) ==> FirstTeam(evs + [e], p) == e.team
  {
    assert (evs + [e])[..|evs|] == evs;
  }

  /** One more data row appends its event, if it yields one. */
  lemma EventsStep(cols: EventColumns, data: seq<Row>, k: nat)
    requires k < |data|
    ensures EventsOf(cols, data[..k + 1])
      == EventsOf(cols, data[..k]) + (if RowEvent(cols, data[k]).Some? then [RowEvent(cols, data[k]).value] else [])
  {
    assert data[..k + 1][..k] == data[..k];
  }

  /** One more event adds its team to the team set. */
  lemma TeamsStep(evs: seq<Event>, e: Event)
    ensures TeamsOf(evs + [e]) == TeamsOf(evs) + {e.team}
  {
    assert (evs + [e])[..|evs|] == evs;
  }

  /** The three credits one event makes: a goal to its scorer, an assist to each assist present. */
  function CreditEvent(stats: map<string, PlayerStats>, e: Event): (r: map<string, PlayerStats>)
    ensures r.Keys == stats.Keys + Names(e)
    ensures forall p :: p in stats && p !in Names(e) ==> r[p] == stats[p]
  {
    var s1 := Credit(stats, e.scorer, e.team, true);
    var s2 := if e.assist1.Some? then Credit(s1, e.assist1.value, e.team, false) else s1;
    if e.assist2.Some? then Credit(s2, e.assist2.value, e.team, false) else s2
  }

  /** What the three credits of one event do to one name. */
  lemma CreditEventAt(stats: map<string, PlayerStats>, e: Event, p: string)
    ensures p in CreditEvent(stats, e) <==> p in stats || p in Names(e)
    ensures p in CreditEvent(stats, e) ==>
      var base := if p in stats then stats[p] else PlayerStats(0, 0, e.team);
      CreditEvent(stats, e)[p] == PlayerStats(
        base.goals + (if e.scorer == p then 1 else 0),
        base.assists + (if e.assist1 == Some(p) then 1 else 0) + (if e.assist2 == Some(p) then 1 else 0),
        base.team)
  {
  }

  /** Crediting one more event keeps `playerStats` in agreement with the lengthened event list. */
  lemma TallyStep(stats: map<string, PlayerStats>, evs: seq<Event>, e: Event)
    requires Tallied(stats, evs)
    ensures Tallied(CreditEvent(stats, e), evs + [e])
  {
    var r := CreditEvent(stats, e);
    forall p | p in r ensures p in Players(evs + [e]) && r[p] == Expected(evs + [e], p) {
      TallyEntry(stats, evs, e, p);
    }
    assert r.Keys == Players(evs + [e]) by {
      StepFacts(evs, e);
      forall p ensures p in r <==> p in Players(evs + [e]) {
        CreditEventAt(stats, e, p);
      }
    }
  }

  lemma TallyEntry(stats: map<string, PlayerStats>, evs: seq<Event>, e: Event, p: string)
    requires Tallied(stats, evs)
    requires p in CreditEvent(stats, e)
    ensures p in Players(evs + [e]) && CreditEvent(stats, e)[p] == Expected(evs + [e], p)
  {
    StepFacts(evs, e);
    CreditEventAt(stats, e, p);
    if p !in Players(evs) {
      UncreditedHasNoCounts(evs, p);
    }
  }

  /**
   * The loop over the data rows: pushes each row's event, credits the scorer
   * with a goal and each assist with an assist (creating an entry with the
   * event's team on first sight), and adds the event's team to the set.
   */
  method ReduceEvents(cols: EventColumns, grid: seq<Row>)
    returns (events: seq<Event>, stats: map<string, PlayerStats>, teams: set<string>)
    ensures events == EventsOf(cols, DataRows(grid))
    ensures Tallied(stats, events)
    ensures teams == TeamsOf(events)
  {
    var data := DataRows(grid);
    events, stats, teams := [], map[], {};
    var k := 0;
    while k < |data|
      invariant 0 <= k <= |data|
      invariant events == EventsOf(cols, data[..k])
      invariant Tallied(stats, events)
      invariant teams == TeamsOf(events)
    {
      var ev := RowEvent(cols, data[k]);
      EventsStep(cols, data, k);
      if ev.Some? {
        var e := ev.value;
        TallyStep(stats, events, e);
        TeamsStep(events, e);
        ghost var before := stats;
        events := events + [e];
        teams := teams + {e.team};
        stats := Credit(stats, e.scorer, e.team, true);
        if e.assist1.Some? {
          stats := Credit(stats, e.assist1.value, e.team, false);
        }
        if e.assist2.Some? {
          stats := Credit(stats, e.assist2.value, e.team, false);
        }
        assert stats == CreditEvent(before, e);
      }
      k := k + 1;
    }
    assert data[..k] == data;
  }

  /**
   * One credit to `name`: create the entry `{goals: 0, assists: 0, team}` when
   * the name is new, then add one goal or one assist.
   */
  function Credit(stats: map<string, PlayerStats>, name: string, team: string, goal: bool): (r: map<string, PlayerStats>)
    ensures r.Keys == stats.Keys + {name}
    ensures forall p :: p in stats && p != name ==> r[p] == stats[p]
    ensures name in stats ==> r[name].team == stats[name].team
    ensures name !in stats ==> r[name].team == team
    ensures var old_ := if name in stats then stats[name] else PlayerStats(0, 0, team);
      r[name].goals == old_.goals + (if goal then 1 else 0)
      && r[name].assists == old_.assists + (if goal then 0 else 1)
  {
    var entry := if name in stats then stats[name] else PlayerStats(0, 0, team);
    if goal then stats[name := entry.(goals := entry.goals + 1)]
    else stats[name := entry.(assists := entry.assists + 1)]
  }
}
