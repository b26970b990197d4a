/**
 * The Performance Management Chart engine: two exponential moving averages
 * of daily training stress (CTL with a 42-day time constant, ATL with a
 * 7-day one) and their difference TSB, walked one calendar day at a time
 * and upserted into the training_load table.
 *
 * Dates are day numbers. The training_load table is a map from day to row;
 * the grouped workout query is a sequence of (day, summed stress) rows.
 */
module Pmc {
  import opened Wrappers

  /** Time constant of the chronic (fitness) average, in days. */
  const ChronicDays: real := 42.0
  /** Time constant of the acute (fatigue) average, in days. */
  const AcuteDays: real := 7.0
  /** A row is trusted as an anchor only when its CTL exceeds this. */
  const AnchorMinCtl: real := 10.0

  /** One row of training_load; `day` is its primary key. */
  datatype LoadPoint = LoadPoint(day: int, tss: real, ctl: real, atl: real, tsb: real)

  /** One row of the workout query: a date and the stress summed over it. */
  datatype DayTotal = DayTotal(day: int, tss: real)

  type Table = map<int, LoadPoint>

  /** What a run reports: nothing to compute, nothing new, or the rows it wrote. */
  datatype Outcome = NoData | UpToDate | Written(results: seq<LoadPoint>)

  // ---------------------------------------------------------------------
  // The table and the query results
  // ---------------------------------------------------------------------

  /** Every row sits under its own date. */
  ghost predicate WellKeyed(table: Table) {
    forall d :: d in table ==> table[d].day == d
  }

  /** Every row satisfies the TSB identity. */
  ghost predicate TsbIdentity(table: Table) {
    forall d :: d in table ==> table[d].tsb == table[d].ctl - table[d].atl
  }

  /** No calendar day is missing between two stored days. */
  ghost predicate Dense(table: Table) {
    forall d1, d2, d :: d1 in table && d2 in table && d1 < d < d2 ==> d in table
  }

  /** Strictly increasing dates, as the grouped and ordered workout query yields them. */
  ghost predicate Ascending(rows: seq<DayTotal>) {
    forall i, j :: 0 <= i < j < |rows| ==> rows[i].day < rows[j].day
  }

  ghost predicate DistinctDays(results: seq<LoadPoint>) {
    forall i, j :: 0 <= i < j < |results| ==> results[i].day != results[j].day
  }

  /** `latest` is what "ORDER BY date DESC LIMIT 1" returns for `table`. */
  ghost predicate IsLatestRow(table: Table, latest: Option<LoadPoint>) {
    match latest
    case None => table == map[]
    case Some(p) => p.day in table && table[p.day] == p && forall d :: d in table ==> d <= p.day
  }

  /** `anchor` is the latest row whose CTL exceeds the anchor threshold. */
  ghost predicate IsLatestQualifying(table: Table, anchor: Option<LoadPoint>) {
    match anchor
    case None => forall d :: d in table ==> table[d].ctl <= AnchorMinCtl
    case Some(p) =>
      && p.day in table && table[p.day] == p && p.ctl > AnchorMinCtl
      && forall d :: d in table && d > p.day ==> table[d].ctl <= AnchorMinCtl
  }

  lemma HasElement(days: set<int>)
    requires days != {}
    ensures exists x :: x in days
  {
    // A set with no element is the empty set.
    if forall x :: x !in days {
      assert false;
    }
  }

  /** The largest element of a non-empty set of days (the witness for `LatestDay`). */
  ghost function MaxOf(days: set<int>): (m: int)
    requires days != {}
    ensures m in days && forall e :: e in days ==> e <= m
  {
    HasElement(days);
    var x :| x in days;
    if days == {x} then x
    else
      var rest := days - {x};
      var r := MaxOf(rest);
      assert forall e :: e in days ==> e == x || e in rest;
      if x > r then x else r
  }

  /** The largest day of a non-empty set of days. */
  function LatestDay(days: set<int>): (d: int)
    requires days != {}
    ensures d in days && forall e :: e in days ==> e <= d
  {
    var top := MaxOf(days);
    var d :| d in days && forall e :: e in days ==> e <= d;
    d
  }

  /** The anchor query of cycling_training.py: the row with the latest date, if any. */
  function LatestRow(table: Table): (latest: Option<LoadPoint>)
    requires WellKeyed(table)
    ensures IsLatestRow(table, latest)
  {
    if table.Keys == {} then
      assert table == map[];
      None
    else
      Some(table[LatestDay(table.Keys)])
  }

  /** The corrected anchor query: the latest row whose CTL exceeds the threshold. */
  function LatestQualifyingRow(table: Table): (anchor: Option<LoadPoint>)
    requires WellKeyed(table)
    ensures IsLatestQualifying(table, anchor)
  {
    var days := set d | d in table.Keys && table[d].ctl > AnchorMinCtl;
    if days == {} then
      assert forall d :: d in table ==> d !in days;
      None
    else
      var top := LatestDay(days);
      assert forall d :: d in table && d > top ==> d !in days;
      Some(table[top])
  }

  // ---------------------------------------------------------------------
  // The recurrence
  // ---------------------------------------------------------------------

  /** `tss_by_date`: the query rows as a dictionary (a later duplicate date wins). */
  function TssByDate(rows: seq<DayTotal>): (m: map<int, real>)
    ensures forall i :: 0 <= i < |rows| ==> rows[i].day in m
    ensures forall d :: d in m ==> exists i :: 0 <= i < |rows| && rows[i].day == d
  {
    if rows == [] then map[]
    else TssByDate(rows[..|rows| - 1])[rows[|rows| - 1].day := rows[|rows| - 1].tss]
  }

  /** `tss_by_date.get(d, 0.0)`: a day without workouts carries no stress. */
  function StressOn(stress: map<int, real>, d: int): real {
    if d in stress then stress[d] else 0.0
  }

  /** One day of the recurrence, from the previous day's CTL and ATL. */
  function DayStep(day: int, tss: real, ctl: real, atl: real): LoadPoint {
    var c := ctl + (tss - ctl) / ChronicDays;
    var a := atl + (tss - atl) / AcuteDays;
    LoadPoint(day, tss, c, a, c - a)
  }

  /** The rows the `while d <= today` loop produces from day `from`, seeded with `ctl` and `atl`. */
  function Walk(from: int, today: int, ctl: real, atl: real, stress: map<int, real>): (w: seq<LoadPoint>)
    ensures |w| == Span(from, today)
    ensures forall i :: 0 <= i < |w| ==> w[i].day == from + i
    decreases today - from
  {
    if from > today then []
    else
      var p := DayStep(from, StressOn(stress, from), ctl, atl);
      [p] + Walk(from + 1, today, p.ctl, p.atl, stress)
  }

  /** Number of days from `from` through `today`. */
  function Span(from: int, today: int): nat {
    if from > today then 0 else today - from + 1
  }

  /** CTL and ATL after the rows `w`, or the seed when `w` is empty. */
  function EndState(w: seq<LoadPoint>, ctl: real, atl: real): (real, real) {
    if |w| == 0 then (ctl, atl) else (w[|w| - 1].ctl, w[|w| - 1].atl)
  }

  /** The dates a batch of rows carries. */
  function DaysOf(results: seq<LoadPoint>): set<int> {
    set i | 0 <= i < |results| :: results[i].day
  }

  // ---------------------------------------------------------------------
  // The upsert
  // ---------------------------------------------------------------------

  /**
   * INSERT ... ON CONFLICT (date) DO UPDATE: each result replaces or adds the
   * row of its date. A statement naming one date twice is refused by the
   * database, hence the precondition.
   */
  function Upsert(table: Table, results: seq<LoadPoint>): (t: Table)
    requires DistinctDays(results)
    ensures t.Keys == table.Keys + DaysOf(results)
    ensures forall i :: 0 <= i < |results| ==> t[results[i].day] == results[i]
    ensures forall d :: d in table && d !in DaysOf(results) ==> t[d] == table[d]
  {
    if |results| == 0 then table
    else
      var last := results[|results| - 1];
      var front := results[..|results| - 1];
      UpsertSplit(results);
      Upsert(table, front)[last.day := last]
  }

  /** The rows before the last keep their days and distinctness, and none shares the last row's day. */
  lemma UpsertSplit(results: seq<LoadPoint>)
    requires DistinctDays(results) && |results| > 0
    ensures var front := results[..|results| - 1];
      var last := results[|results| - 1];
      && DistinctDays(front)
      && DaysOf(results) == DaysOf(front) + {last.day}
      && forall i :: 0 <= i < |front| ==> front[i] == results[i] && front[i].day != last.day
  {
    var front := results[..|results| - 1];
    var last := results[|results| - 1];
    assert DaysOf(results) == DaysOf(front) + {last.day} by {
      forall d | d in DaysOf(results) ensures d in DaysOf(front) + {last.day} {
        var i :| 0 <= i < |results| && results[i].day == d;
        if i < |front| {
          assert front[i] == results[i];
        }
      }
      forall d | d in DaysOf(front) ensures d in DaysOf(results) {
        var i :| 0 <= i < |front| && front[i].day == d;
        assert results[i] == front[i];
      }
    }
  }

  // ---------------------------------------------------------------------
  // One run of the engine
  // ---------------------------------------------------------------------

  /** Whether the row the anchor query returned is trusted as an anchor (CTL above 10). */
  predicate Anchors(latest: Option<LoadPoint>) {
    latest.Some? && latest.value.ctl > AnchorMinCtl
  }

  /** Where a walk begins and the CTL/ATL it is seeded with. */
  datatype Start = Start(from: int, ctl: real, atl: real)

  /**
   * Anchored: the day after the anchor, seeded with the anchor's CTL and ATL.
   * Cold start: the first workout date, seeded with zero.
   */
  function StartOf(latest: Option<LoadPoint>, rows: seq<DayTotal>): (s: Start)
    requires rows != []
    ensures Anchors(latest) ==> s == Start(latest.value.day + 1, latest.value.ctl, latest.value.atl)
    ensures !Anchors(latest) ==> s == Start(rows[0].day, 0.0, 0.0)
  {
    if Anchors(latest) then Start(latest.value.day + 1, latest.value.ctl, latest.value.atl)
    else Start(rows[0].day, 0.0, 0.0)
  }

  /**
   * The engine once the anchor query has answered `latest`: no workout rows
   * means nothing is computed; an anchor dated today or later means nothing
   * new; otherwise the walk from `StartOf` through `today` is written.
   */
  function RunFrom(table: Table, latest: Option<LoadPoint>, rows: seq<DayTotal>, today: int): (r: (Outcome, Table))
    ensures rows == [] ==> r == (NoData, table)
    ensures r.0.UpToDate? <==> rows != [] && Anchors(latest) && latest.value.day >= today
    ensures !r.0.Written? ==> r.1 == table
  {
    if rows == [] then (NoData, table)
    else if Anchors(latest) && latest.value.day + 1 > today then (UpToDate, table)
    else
      var s := StartOf(latest, rows);
      var w := Walk(s.from, today, s.ctl, s.atl, TssByDate(rows));
      (Written(w), Upsert(table, w))
  }

  /** `_calc_pmc_inner` as written: the anchor is the latest stored row. */
  function PmcRun(table: Table, rows: seq<DayTotal>, today: int): (Outcome, Table)
    requires WellKeyed(table)
  {
    RunFrom(table, LatestRow(table), rows, today)
  }

  /** The corrected engine: the anchor is the latest row whose CTL exceeds the threshold. */
  function PmcRunFixed(table: Table, rows: seq<DayTotal>, today: int): (Outcome, Table)
    requires WellKeyed(table)
  {
    RunFrom(table, LatestQualifyingRow(table), rows, today)
  }

  /** The daily loop shared by both modes: walks `d` from `start` through `today`. */
  method ForwardFill(start: int, today: int, ctl0: real, atl0: real, stress: map<int, real>)
    returns (results: seq<LoadPoint>)
    ensures results == Walk(start, today, ctl0, atl0, stress)
  {
    results := [];
    var ctl, atl, d := ctl0, atl0, start;
    while d <= today
      invariant Walk(start, today, ctl0, atl0, stress) == results + Walk(d, today, ctl, atl, stress)
    {
      var tss := StressOn(stress, d);
      ghost var before := Walk(d, today, ctl, atl, stress);
      ctl := ctl + (tss - ctl) / ChronicDays;
      atl := atl + (tss - atl) / AcuteDays;
      var tsb := ctl - atl;
      var p := LoadPoint(d, tss, ctl, atl, tsb);
      ghost var after := Walk(d + 1, today, ctl, atl, stress);
      assert before == [p] + after;
      assert results + before == (results + [p]) + after;
      results := results + [p];
      d := d + 1;
    }
  }

  /** `_calc_pmc_inner`: reads the anchor, walks the days, upserts the rows. */
  method CalcPmc(table: Table, rows: seq<DayTotal>, today: int) returns (outcome: Outcome, updated: Table)
    requires WellKeyed(table)
    ensures (outcome, updated) == PmcRun(table, rows, today)
  {
    var latest := LatestRow(table);
    if rows == [] {
      return NoData, table;
    }
    var stress := TssByDate(rows);
    var results;
    if latest.Some? && latest.value.ctl > AnchorMinCtl {
      var anchor := latest.value;
      var start := anchor.day + 1;
      if start > today {
        return UpToDate, table;
      }
      results := ForwardFill(start, today, anchor.ctl, anchor.atl, stress);
    } else {
      results := ForwardFill(rows[0].day, today, 0.0, 0.0, stress);
    }
    outcome, updated := Written(results), Upsert(table, results);
  }

  // ---------------------------------------------------------------------
  // Properties of the walk
  // ---------------------------------------------------------------------

  /** Each row carries its own day's stress (zero for a day without workouts) and TSB = CTL - ATL. */
  lemma {:induction false} WalkShape(from: int, today: int, ctl: real, atl: real, stress: map<int, real>)
    ensures forall i :: 0 <= i < Span(from, today) ==>
      var p := Walk(from, today, ctl, atl, stress)[i];
      p.tss == StressOn(stress, from + i) && p.tsb == p.ctl - p.atl
    decreases today - from
  {
    if from <= today {
      var p := DayStep(from, StressOn(stress, from), ctl, atl);
      WalkShape(from + 1, today, p.ctl, p.atl, stress);
    }
  }

  /** Each row applies the 42-day and 7-day updates to the previous row, the first one to the seed. */
  lemma {:induction false} WalkRecurrence(from: int, today: int, ctl: real, atl: real, stress: map<int, real>)
    ensures var w := Walk(from, today, ctl, atl, stress);
      |w| > 0 ==> w[0].ctl == ctl + (w[0].tss - ctl) / 42.0 && w[0].atl == atl + (w[0].tss - atl) / 7.0
    ensures var w := Walk(from, today, ctl, atl, stress);
      forall i :: 0 < i < |w| ==>
        && w[i].ctl == w[i - 1].ctl + (w[i].tss - w[i - 1].ctl) / 42.0
        && w[i].atl == w[i - 1].atl + (w[i].tss - w[i - 1].atl) / 7.0
    decreases today - from
  {
    var w := Walk(from, today, ctl, atl, stress);
    if from <= today {
      var p := DayStep(from, StressOn(stress, from), ctl, atl);
      var rest := Walk(from + 1, today, p.ctl, p.atl, stress);
      WalkRecurrence(from + 1, today, p.ctl, p.atl, stress);
      assert w == [p] + rest;
      forall i | 0 < i < |w|
        ensures w[i].ctl == w[i - 1].ctl + (w[i].tss - w[i - 1].ctl) / 42.0
        ensures w[i].atl == w[i - 1].atl + (w[i].tss - w[i - 1].atl) / 7.0
      {
        assert w[i] == rest[i - 1];
        if i > 1 {
          assert w[i - 1] == rest[i - 2];
        }
      }
    }
  }

  /** Walking to `today` is walking to `mid` and then on from where that stopped. */
  lemma {:induction false} WalkSplit(from: int, mid: int, today: int, ctl: real, atl: real, stress: map<int, real>)
    requires from <= mid + 1 && mid <= today
    ensures var head := Walk(from, mid, ctl, atl, stress);
      var seed := EndState(head, ctl, atl);
      Walk(from, today, ctl, atl, stress) == head + Walk(mid + 1, today, seed.0, seed.1, stress)
    decreases mid - from
  {
    if from <= mid {
      var p := DayStep(from, StressOn(stress, from), ctl, atl);
      WalkSplit(from + 1, mid, today, p.ctl, p.atl, stress);
      var tail := Walk(from + 1, mid, p.ctl, p.atl, stress);
      WalkCons(from, mid, ctl, atl, stress);
      WalkCons(from, today, ctl, atl, stress);
      EndStateCons(p, tail, ctl, atl);
      var seed := EndState(tail, p.ctl, p.atl);
      ConsAppend(p, tail, Walk(mid + 1, today, seed.0, seed.1, stress));
    }
  }

  /** The first row of a walk, then the walk from the next day. */
  lemma WalkCons(from: int, today: int, ctl: real, atl: real, stress: map<int, real>)
    requires from <= today
    ensures var p := DayStep(from, StressOn(stress, from), ctl, atl);
      Walk(from, today, ctl, atl, stress) == [p] + Walk(from + 1, today, p.ctl, p.atl, stress)
  {
  }

  /** Putting a row in front commutes with appending. */
  lemma ConsAppend(p: LoadPoint, a: seq<LoadPoint>, b: seq<LoadPoint>)
    ensures [p] + (a + b) == ([p] + a) + b
  {
  }

  /** A row put in front of `tail` becomes the seed `tail` ends from. */
  lemma EndStateCons(p: LoadPoint, tail: seq<LoadPoint>, ctl: real, atl: real)
    ensures EndState([p] + tail, ctl, atl) == EndState(tail, p.ctl, p.atl)
  {
    if tail != [] {
      assert ([p] + tail)[|tail|] == tail[|tail| - 1];
    }
  }

  /**
   * With a seed and every day's stress in [0, hi], every CTL and ATL of the
   * walk stays in [0, hi]: the averages are never negative and never exceed
   * the largest stress or seed.
   */
  lemma {:induction false} WalkWithin(from: int, today: int, ctl: real, atl: real, stress: map<int, real>, hi: real)
    requires 0.0 <= ctl <= hi && 0.0 <= atl <= hi
    requires forall d :: d in stress ==> 0.0 <= stress[d] <= hi
    ensures forall i :: 0 <= i < |Walk(from, today, ctl, atl, stress)| ==>
      var p := Walk(from, today, ctl, atl, stress)[i];
      0.0 <= p.ctl <= hi && 0.0 <= p.atl <= hi
    decreases today - from
  {
    if from <= today {
      var p := DayStep(from, StressOn(stress, from), ctl, atl);
      WalkWithin(from + 1, today, p.ctl, p.atl, stress, hi);
    }
  }

  /**
   * `t` is `table` with the rows `w`, dated consecutively from `from`, stored
   * under their dates: those days hold them, every other row is unchanged.
   */
  ghost predicate StoresRun(table: Table, t: Table, w: seq<LoadPoint>, from: int) {
    && (forall d :: d in t <==> d in table || from <= d < from + |w|)
    && (forall d :: from <= d < from + |w| ==> t[d] == w[d - from])
    && (forall d :: d in table && !(from <= d < from + |w|) ==> t[d] == table[d])
  }

  /** Rows for consecutive days from `from`, upserted: those days now hold them, nothing else changed. */
  lemma UpsertConsecutive(table: Table, w: seq<LoadPoint>, from: int)
    requires forall i :: 0 <= i < |w| ==> w[i].day == from + i
    ensures DistinctDays(w)
    ensures StoresRun(table, Upsert(table, w), w, from)
  {
    var t := Upsert(table, w);
    forall d | from <= d < from + |w|
      ensures d in DaysOf(w) && t[d] == w[d - from]
    {
      assert w[d - from].day == d;
    }
  }

  // ---------------------------------------------------------------------
  // Properties of a run
  // ---------------------------------------------------------------------

  /** The rows a run writes: the walk from `StartOf`, stored under their dates, nothing else changed. */
  lemma RunFromWrites(table: Table, latest: Option<LoadPoint>, rows: seq<DayTotal>, today: int)
    requires rows != [] && !(Anchors(latest) && latest.value.day >= today)
    ensures var s := StartOf(latest, rows);
      RunFrom(table, latest, rows, today) == (Written(Walk(s.from, today, s.ctl, s.atl, TssByDate(rows))),
                                              Upsert(table, Walk(s.from, today, s.ctl, s.atl, TssByDate(rows))))
  {
  }

  /**
   * Anchored forward fill: when the latest row has CTL > 10 and lies before
   * `today`, the run writes exactly one row for each day after the anchor
   * through `today`, seeded with the anchor's CTL and ATL, and leaves every
   * row on or before the anchor as it was.
   */
  lemma AnchoredRun(table: Table, latest: Option<LoadPoint>, rows: seq<DayTotal>, today: int)
    requires rows != [] && Anchors(latest) && latest.value.day < today
    ensures var a := latest.value;
      RunFrom(table, latest, rows, today).0 == Written(Walk(a.day + 1, today, a.ctl, a.atl, TssByDate(rows)))
    ensures var a := latest.value;
      RunFrom(table, latest, rows, today).1 == Upsert(table, Walk(a.day + 1, today, a.ctl, a.atl, TssByDate(rows)))
    ensures var a := latest.value;
      var w := RunFrom(table, latest, rows, today).0.results;
      |w| == today - a.day && forall i :: 0 <= i < |w| ==> w[i].day == a.day + 1 + i
  {
    var a := latest.value;
    var w := Walk(a.day + 1, today, a.ctl, a.atl, TssByDate(rows));
    var s := StartOf(latest, rows);
    RunFromWrites(table, latest, rows, today);
    assert s == Start(a.day + 1, a.ctl, a.atl);
    assert Walk(s.from, today, s.ctl, s.atl, TssByDate(rows)) == w;
  }

  /**
   * An anchored run keeps every row on or before the anchor (the anchor
   * included) and stores its results under the days after it, through `today`.
   */
  lemma AnchoredRunKeepsHistory(table: Table, latest: Option<LoadPoint>, rows: seq<DayTotal>, today: int)
    requires IsLatestRow(table, latest) && rows != []
    requires Anchors(latest) && latest.value.day < today
    ensures forall d :: d in table ==> d <= latest.value.day
    ensures var r := RunFrom(table, latest, rows, today);
      StoresRun(table, r.1, r.0.results, latest.value.day + 1)
  {
    var a := latest.value;
    var w := Walk(a.day + 1, today, a.ctl, a.atl, TssByDate(rows));
    AnchoredRun(table, latest, rows, today);
    UpsertConsecutive(table, w, a.day + 1);
  }

  /** A run leaves an already up-to-date table, or one with no workout rows, untouched. */
  lemma UpToDateRun(table: Table, latest: Option<LoadPoint>, rows: seq<DayTotal>, today: int)
    requires rows == [] || (Anchors(latest) && latest.value.day >= today)
    ensures RunFrom(table, latest, rows, today).1 == table
    ensures RunFrom(table, latest, rows, today).0 == if rows == [] then NoData else UpToDate
  {
  }

  /**
   * Cold start: without a qualifying latest row the run seeds CTL = ATL = 0
   * at the earliest workout date and writes one row for every day from that
   * date through `today`; the first row's CTL and ATL are that day's stress
   * over 42 and over 7.
   */
  lemma ColdStartRun(table: Table, latest: Option<LoadPoint>, rows: seq<DayTotal>, today: int)
    requires rows != [] && Ascending(rows) && !Anchors(latest)
    ensures forall i :: 0 <= i < |rows| ==> rows[0].day <= rows[i].day
    ensures RunFrom(table, latest, rows, today).0 == Written(Walk(rows[0].day, today, 0.0, 0.0, TssByDate(rows)))
    ensures var w := RunFrom(table, latest, rows, today).0.results;
      |w| == Span(rows[0].day, today) && forall i :: 0 <= i < |w| ==> w[i].day == rows[0].day + i
    ensures var w := RunFrom(table, latest, rows, today).0.results;
      rows[0].day <= today ==> w[0].ctl == rows[0].tss / 42.0 && w[0].atl == rows[0].tss / 7.0
    ensures var r := RunFrom(table, latest, rows, today);
      StoresRun(table, r.1, r.0.results, rows[0].day)
  {
    var first := rows[0].day;
    var stress := TssByDate(rows);
    var w := Walk(first, today, 0.0, 0.0, stress);
    RunFromWrites(table, latest, rows, today);
    assert StartOf(latest, rows) == Start(first, 0.0, 0.0);
    assert RunFrom(table, latest, rows, today) == (Written(w), Upsert(table, w));
    UpsertConsecutive(table, w, first);
    TssByDateAt(rows, 0);
    FirstColdRow(first, today, stress);
  }

  /** A walk seeded with zero starts with its first day's stress over 42 and over 7. */
  lemma FirstColdRow(first: int, today: int, stress: map<int, real>)
    ensures var w := Walk(first, today, 0.0, 0.0, stress);
      first <= today ==> w[0].ctl == StressOn(stress, first) / 42.0 && w[0].atl == StressOn(stress, first) / 7.0
  {
    if first <= today {
      WalkCons(first, today, 0.0, 0.0, stress);
    }
  }

  /** With distinct dates, the dictionary holds each row's own stress. */
  lemma {:induction false} TssByDateAt(rows: seq<DayTotal>, i: int)
    requires Ascending(rows) && 0 <= i < |rows|
    ensures rows[i].day in TssByDate(rows) && TssByDate(rows)[rows[i].day] == rows[i].tss
  {
    if i < |rows| - 1 {
      TssByDateAt(rows[..|rows| - 1], i);
    }
  }

  /** Storing rows dated by their keys and obeying the TSB identity keeps both table properties. */
  lemma StoreKeepsRowsConsistent(table: Table, t: Table, w: seq<LoadPoint>, from: int)
    requires StoresRun(table, t, w, from)
    requires forall i :: 0 <= i < |w| ==> w[i].day == from + i && w[i].tsb == w[i].ctl - w[i].atl
    ensures WellKeyed(table) ==> WellKeyed(t)
    ensures TsbIdentity(table) ==> TsbIdentity(t)
  {
    forall d | d in t && from <= d < from + |w|
      ensures t[d].day == d && t[d].tsb == t[d].ctl - t[d].atl
    {
      assert t[d] == w[d - from];
    }
  }

  /** The rows a writing run stores: its walk, dated consecutively from `StartOf`. */
  lemma RunStores(table: Table, latest: Option<LoadPoint>, rows: seq<DayTotal>, today: int)
    requires rows != [] && !(Anchors(latest) && latest.value.day >= today)
    ensures var s := StartOf(latest, rows);
      var w := Walk(s.from, today, s.ctl, s.atl, TssByDate(rows));
      var r := RunFrom(table, latest, rows, today);
      r.0 == Written(w) && StoresRun(table, r.1, w, s.from)
  {
    var s := StartOf(latest, rows);
    var w := Walk(s.from, today, s.ctl, s.atl, TssByDate(rows));
    RunFromWrites(table, latest, rows, today);
    assert RunFrom(table, latest, rows, today) == (Written(w), Upsert(table, w));
    UpsertConsecutive(table, w, s.from);
  }

  /** Every run keeps the table keyed by date and every row's TSB equal to CTL - ATL. */
  lemma RunKeepsRowsConsistent(table: Table, latest: Option<LoadPoint>, rows: seq<DayTotal>, today: int)
    ensures WellKeyed(table) ==> WellKeyed(RunFrom(table, latest, rows, today).1)
    ensures TsbIdentity(table) ==> TsbIdentity(RunFrom(table, latest, rows, today).1)
  {
    if rows != [] && !(Anchors(latest) && latest.value.day >= today) {
      var s := StartOf(latest, rows);
      var w := Walk(s.from, today, s.ctl, s.atl, TssByDate(rows));
      RunStores(table, latest, rows, today);
      WalkShape(s.from, today, s.ctl, s.atl, TssByDate(rows));
      StoreKeepsRowsConsistent(table, RunFrom(table, latest, rows, today).1, w, s.from);
    }
  }

  /** An anchored run extends a gap-free table without opening a gap. */
  lemma AnchoredRunKeepsDense(table: Table, latest: Option<LoadPoint>, rows: seq<DayTotal>, today: int)
    requires IsLatestRow(table, latest) && Dense(table) && Anchors(latest)
    ensures Dense(RunFrom(table, latest, rows, today).1)
  {
    if rows != [] && latest.value.day < today {
      var a := latest.value;
      var w := Walk(a.day + 1, today, a.ctl, a.atl, TssByDate(rows));
      AnchoredRun(table, latest, rows, today);
      UpsertConsecutive(table, w, a.day + 1);
      AppendKeepsDense(table, Upsert(table, w), w, a.day + 1);
    }
  }

  /** Rows stored for the days right after a gap-free table's last day leave it gap-free. */
  lemma AppendKeepsDense(table: Table, t: Table, w: seq<LoadPoint>, from: int)
    requires StoresRun(table, t, w, from) && Dense(table)
    requires from - 1 in table && forall d :: d in table ==> d < from
    ensures Dense(t)
  {
    forall d1, d2, d | d1 in t && d2 in t && d1 < d < d2
      ensures d in t
    {
      if d >= from {
        assert d2 !in table;
      } else if d < from - 1 {
        assert d1 in table;
      }
    }
  }

  // ---------------------------------------------------------------------
  // Running again
  // ---------------------------------------------------------------------

  /** Resuming the walk from its `k`-th row yields the rest of the walk. */
  lemma WalkResume(from: int, today: int, ctl: real, atl: real, stress: map<int, real>, k: int)
    requires 0 <= k < Span(from, today)
    ensures var w := Walk(from, today, ctl, atl, stress);
      Walk(from + k + 1, today, w[k].ctl, w[k].atl, stress) == w[k + 1..]
  {
    var w := Walk(from, today, ctl, atl, stress);
    WalkSplit(from, from + k, today, ctl, atl, stress);
    var head := Walk(from, from + k, ctl, atl, stress);
    assert w == head + Walk(from + k + 1, today, head[k].ctl, head[k].atl, stress);
    assert w[k] == head[k];
  }

  /** Walking to an earlier day yields a prefix of walking to a later one. */
  lemma WalkPrefix(from: int, today1: int, today2: int, ctl: real, atl: real, stress: map<int, real>)
    requires today1 <= today2
    ensures Walk(from, today1, ctl, atl, stress) <= Walk(from, today2, ctl, atl, stress)
  {
    if from <= today1 + 1 {
      WalkSplit(from, today1, today2, ctl, atl, stress);
    }
  }

  /**
   * A second run whose walk, cut at `today1`, is the tail of the first run's
   * walk leaves every row the first run left on or before `today1` unchanged.
   */
  lemma RewalkAgrees(t0: Table, t1: Table, t2: Table, stress: map<int, real>, today1: int, today2: int,
                     from: int, ctl: real, atl: real, from2: int, ctl2: real, atl2: real)
    requires today1 <= today2 && from <= from2 && from2 - from <= Span(from, today1)
    requires StoresRun(t0, t1, Walk(from, today1, ctl, atl, stress), from)
    requires Walk(from2, today1, ctl2, atl2, stress) == Walk(from, today1, ctl, atl, stress)[from2 - from..]
    requires StoresRun(t1, t2, Walk(from2, today2, ctl2, atl2, stress), from2)
    ensures forall d :: d in t1 && d <= today1 ==> d in t2 && t2[d] == t1[d]
  {
    var w := Walk(from, today1, ctl, atl, stress);
    var w2 := Walk(from2, today2, ctl2, atl2, stress);
    WalkPrefix(from2, today1, today2, ctl2, atl2, stress);
    forall d | d in t1 && d <= today1 && from2 <= d < from2 + |w2|
      ensures t2[d] == t1[d]
    {
      assert w2[d - from2] == Walk(from2, today1, ctl2, atl2, stress)[d - from2];
      assert t1[d] == w[d - from];
    }
  }

  /** Rerunning the same day with the same tail changes nothing at all. */
  lemma RewalkSameDay(t0: Table, t1: Table, t2: Table, stress: map<int, real>, today: int,
                      from: int, ctl: real, atl: real, from2: int, ctl2: real, atl2: real)
    requires from <= from2 && from2 - from <= Span(from, today)
    requires StoresRun(t0, t1, Walk(from, today, ctl, atl, stress), from)
    requires Walk(from2, today, ctl2, atl2, stress) == Walk(from, today, ctl, atl, stress)[from2 - from..]
    requires StoresRun(t1, t2, Walk(from2, today, ctl2, atl2, stress), from2)
    ensures t2 == t1
  {
    var w2 := Walk(from2, today, ctl2, atl2, stress);
    RewalkAgrees(t0, t1, t2, stress, today, today, from, ctl, atl, from2, ctl2, atl2);
    forall d
      ensures d in t2 <==> d in t1
    {
      if from2 <= d < from2 + |w2| {
        assert from <= d < from + Span(from, today);
      }
    }
    forall d | d in t1 && d > today
      ensures t2[d] == t1[d]
    {
      assert !(from2 <= d < from2 + |w2|);
    }
  }

  /** The latest qualifying row of a table is unique. */
  lemma QualifyingUnique(table: Table, a: Option<LoadPoint>, b: Option<LoadPoint>)
    requires IsLatestQualifying(table, a) && IsLatestQualifying(table, b)
    ensures a == b
  {
    if a.Some? && b.Some? {
      assert a.value.day == b.value.day;
    }
  }

  /** A row of the first walk, resumed from, continues that walk. */
  lemma ResumeInsideWalk(t0: Table, t1: Table, stress: map<int, real>, today1: int,
                         from: int, ctl: real, atl: real, q: LoadPoint)
    requires StoresRun(t0, t1, Walk(from, today1, ctl, atl, stress), from)
    requires from <= q.day < from + Span(from, today1) && q.day in t1 && t1[q.day] == q
    ensures Walk(q.day + 1, today1, q.ctl, q.atl, stress) == Walk(from, today1, ctl, atl, stress)[q.day + 1 - from..]
  {
    var w := Walk(from, today1, ctl, atl, stress);
    assert q == w[q.day - from];
    WalkResume(from, today1, ctl, atl, stress, q.day - from);
  }

  /**
   * A qualifying row the first run did not write was already there; it is
   * then the first run's anchor.
   */
  lemma QualifyingOutsideWalk(t0: Table, t1: Table, w: seq<LoadPoint>, from: int,
                              p1: Option<LoadPoint>, p2: Option<LoadPoint>)
    requires StoresRun(t0, t1, w, from)
    requires IsLatestQualifying(t0, p1) && IsLatestQualifying(t1, p2)
    requires p1.Some? ==> p1.value.day < from
    requires p2.Some? ==> !(from <= p2.value.day < from + |w|)
    ensures p1 == p2
  {
    if p1.Some? {
      var p := p1.value;
      assert p.day in t1 && t1[p.day] == p;
    }
    if p2.Some? {
      var q := p2.value;
      assert q.day in t0 && t0[q.day] == q;
    }
  }

  /** Resuming after a row of the first walk: the rows through `today1` stay as they were. */
  lemma ResumedAgrees(t0: Table, t1: Table, t2: Table, stress: map<int, real>, today1: int, today2: int,
                      from: int, ctl: real, atl: real, q: LoadPoint, s2: Start)
    requires today1 <= today2 && s2 == Start(q.day + 1, q.ctl, q.atl)
    requires StoresRun(t0, t1, Walk(from, today1, ctl, atl, stress), from)
    requires from <= q.day < from + Span(from, today1) && q.day in t1 && t1[q.day] == q
    requires StoresRun(t1, t2, Walk(s2.from, today2, s2.ctl, s2.atl, stress), s2.from)
    ensures forall d :: d in t1 && d <= today1 ==> d in t2 && t2[d] == t1[d]
    ensures today2 == today1 ==> t2 == t1
  {
    ResumeInsideWalk(t0, t1, stress, today1, from, ctl, atl, q);
    RewalkAgrees(t0, t1, t2, stress, today1, today2, from, ctl, atl, q.day + 1, q.ctl, q.atl);
    if today2 == today1 {
      RewalkSameDay(t0, t1, t2, stress, today1, from, ctl, atl, q.day + 1, q.ctl, q.atl);
    }
  }

  /** A second walk resumed after a row of the first walk agrees with it through `today1`. */
  lemma RerunResumed(t0: Table, t1: Table, t2: Table, p1: Option<LoadPoint>, p2: Option<LoadPoint>,
                     rows: seq<DayTotal>, today1: int, today2: int)
    requires today1 <= today2 && rows != [] && IsLatestQualifying(t1, p2) && p2.Some?
    requires var s := StartOf(p1, rows);
      && StoresRun(t0, t1, Walk(s.from, today1, s.ctl, s.atl, TssByDate(rows)), s.from)
      && s.from <= p2.value.day < s.from + Span(s.from, today1)
    requires var s := StartOf(p2, rows);
      StoresRun(t1, t2, Walk(s.from, today2, s.ctl, s.atl, TssByDate(rows)), s.from)
    ensures forall d :: d in t1 && d <= today1 ==> d in t2 && t2[d] == t1[d]
    ensures today2 == today1 ==> t2 == t1
  {
    var s1 := StartOf(p1, rows);
    var q := p2.value;
    ResumedAgrees(t0, t1, t2, TssByDate(rows), today1, today2, s1.from, s1.ctl, s1.atl, q, StartOf(p2, rows));
  }

  /** A second walk from the same start and seed agrees with the first through `today1`. */
  lemma RerunRestarted(t0: Table, t1: Table, t2: Table, p1: Option<LoadPoint>, p2: Option<LoadPoint>,
                       rows: seq<DayTotal>, today1: int, today2: int)
    requires today1 <= today2 && rows != [] && !(Anchors(p1) && p1.value.day >= today1)
    requires IsLatestQualifying(t0, p1) && IsLatestQualifying(t1, p2)
    requires var s := StartOf(p1, rows);
      && StoresRun(t0, t1, Walk(s.from, today1, s.ctl, s.atl, TssByDate(rows)), s.from)
      && (p2.Some? ==> !(s.from <= p2.value.day < s.from + Span(s.from, today1)))
    requires var s := StartOf(p2, rows);
      StoresRun(t1, t2, Walk(s.from, today2, s.ctl, s.atl, TssByDate(rows)), s.from)
    ensures forall d :: d in t1 && d <= today1 ==> d in t2 && t2[d] == t1[d]
    ensures today2 == today1 ==> t2 == t1
  {
    var stress := TssByDate(rows);
    var s := StartOf(p1, rows);
    var w := Walk(s.from, today1, s.ctl, s.atl, stress);
    QualifyingOutsideWalk(t0, t1, w, s.from, p1, p2);
    assert w[0..] == w;
    RewalkAgrees(t0, t1, t2, stress, today1, today2, s.from, s.ctl, s.atl, s.from, s.ctl, s.atl);
    if today2 == today1 {
      RewalkSameDay(t0, t1, t2, stress, today1, s.from, s.ctl, s.atl, s.from, s.ctl, s.atl);
    }
  }

  /**
   * With the corrected anchor, running again on the same or a later day
   * leaves every row the first run left on or before its day unchanged.
   */
  lemma RerunKeepsFrom(t0: Table, t1: Table, t2: Table, p1: Option<LoadPoint>, p2: Option<LoadPoint>,
                       rows: seq<DayTotal>, today1: int, today2: int)
    requires today1 <= today2
    requires IsLatestQualifying(t0, p1) && IsLatestQualifying(t1, p2)
    requires t1 == RunFrom(t0, p1, rows, today1).1 && t2 == RunFrom(t1, p2, rows, today2).1
    ensures forall d :: d in t1 && d <= today1 ==> d in t2 && t2[d] == t1[d]
    ensures today2 == today1 ==> t2 == t1
  {
    if rows == [] {
      UpToDateRun(t1, p2, rows, today2);
    } else if Anchors(p1) && p1.value.day >= today1 {
      UpToDateRun(t0, p1, rows, today1);
      QualifyingUnique(t1, p1, p2);
      if !(Anchors(p2) && p2.value.day >= today2) {
        RunStores(t1, p2, rows, today2);
      }
    } else if Anchors(p2) && p2.value.day >= today2 {
      UpToDateRun(t1, p2, rows, today2);
    } else {
      var s1 := StartOf(p1, rows);
      RunStores(t0, p1, rows, today1);
      RunStores(t1, p2, rows, today2);
      if p2.Some? && s1.from <= p2.value.day < s1.from + Span(s1.from, today1) {
        RerunResumed(t0, t1, t2, p1, p2, rows, today1, today2);
      } else {
        RerunRestarted(t0, t1, t2, p1, p2, rows, today1, today2);
      }
    }
  }

  /**
   * The corrected engine: running it again, on the same day or later,
   * never changes a row it left on or before the first run's day, and on
   * the same day it changes nothing at all.
   */
  lemma FixedRerunKeepsHistory(t0: Table, rows: seq<DayTotal>, today1: int, today2: int)
    requires WellKeyed(t0) && today1 <= today2
    ensures WellKeyed(PmcRunFixed(t0, rows, today1).1)
    ensures var t1 := PmcRunFixed(t0, rows, today1).1;
      var t2 := PmcRunFixed(t1, rows, today2).1;
      forall d :: d in t1 && d <= today1 ==> d in t2 && t2[d] == t1[d]
    ensures var t1 := PmcRunFixed(t0, rows, today1).1;
      today2 == today1 ==> PmcRunFixed(t1, rows, today2).1 == t1
  {
    var p1 := LatestQualifyingRow(t0);
    var t1 := RunFrom(t0, p1, rows, today1).1;
    RunKeepsRowsConsistent(t0, p1, rows, today1);
    var p2 := LatestQualifyingRow(t1);
    var t2 := RunFrom(t1, p2, rows, today2).1;
    RerunKeepsFrom(t0, t1, t2, p1, p2, rows, today1, today2);
  }

  /** An anchored run never rewrites the anchor or any row before it. */
  lemma AnchorKept(table: Table, latest: Option<LoadPoint>, rows: seq<DayTotal>, today: int)
    requires Anchors(latest)
    ensures forall d :: d in table && d <= latest.value.day ==>
      d in RunFrom(table, latest, rows, today).1 && RunFrom(table, latest, rows, today).1[d] == table[d]
  {
    if rows != [] && latest.value.day < today {
      RunStores(table, latest, rows, today);
    }
  }

  /**
   * The corrected engine never writes on or before its anchor, the latest
   * row whose CTL exceeds 10: a seeded anchor and the history before it are
   * never overwritten, whatever values the later rows hold.
   */
  lemma FixedRunKeepsAnchor(table: Table, rows: seq<DayTotal>, today: int)
    requires WellKeyed(table)
    ensures var q := LatestQualifyingRow(table);
      q.Some? ==> forall d :: d in table && d <= q.value.day ==>
        d in PmcRunFixed(table, rows, today).1 && PmcRunFixed(table, rows, today).1[d] == table[d]
  {
    var q := LatestQualifyingRow(table);
    if q.Some? {
      AnchorKept(table, q, rows, today);
    }
  }

  /**
   * The anchor as written: a run that lets the latest CTL decay to 10 or
   * below turns the next run, even on the same day, into a cold start that
   * rewrites the earlier anchor. Here a stored day 5 with CTL 10.2 and no
   * workout on day 6 gives day 6 a CTL of 10.2 * 41 / 42, about 9.96; the
   * next run then walks again from day 5 and stores CTL 0 there.
   */
  lemma AnchorDemotionRewritesHistory()
    ensures var t0 := map[5 := LoadPoint(5, 0.0, 10.2, 10.2, 0.0)];
      var rows := [DayTotal(5, 0.0)];
      var t1 := PmcRun(t0, rows, 6).1;
      && 5 in t1 && t1[5] == t0[5]
      && 6 in t1 && t1[6].ctl <= AnchorMinCtl
      && 5 in PmcRun(t1, rows, 6).1 && PmcRun(t1, rows, 6).1[5].ctl == 0.0
      && PmcRun(t1, rows, 6).1 != t1
  {
    FirstRunDecays();
    SecondRunRestarts();
  }

  /** The first run of the demotion example: day 6 is added with CTL 10.2 * 41 / 42. */
  lemma FirstRunDecays()
    ensures var t0 := map[5 := LoadPoint(5, 0.0, 10.2, 10.2, 0.0)];
      PmcRun(t0, [DayTotal(5, 0.0)], 6).1 == t0[6 := DayStep(6, 0.0, 10.2, 10.2)]
  {
    var t0 := map[5 := LoadPoint(5, 0.0, 10.2, 10.2, 0.0)];
    var rows := [DayTotal(5, 0.0)];
    assert LatestRow(t0) == Some(t0[5]);
    var p := DayStep(6, 0.0, 10.2, 10.2);
    assert Walk(6, 6, 10.2, 10.2, TssByDate(rows)) == [p];
  }

  /** The second run of the demotion example: the decayed day 6 is no anchor, so day 5 is recomputed from zero. */
  lemma SecondRunRestarts()
    ensures var t1 := map[5 := LoadPoint(5, 0.0, 10.2, 10.2, 0.0), 6 := DayStep(6, 0.0, 10.2, 10.2)];
      var t2 := PmcRun(t1, [DayTotal(5, 0.0)], 6).1;
      5 in t2 && t2[5].ctl == 0.0
  {
    var t1 := map[5 := LoadPoint(5, 0.0, 10.2, 10.2, 0.0), 6 := DayStep(6, 0.0, 10.2, 10.2)];
    var rows := [DayTotal(5, 0.0)];
    assert LatestRow(t1) == Some(t1[6]);
    var c := DayStep(5, 0.0, 0.0, 0.0);
    assert Walk(5, 6, 0.0, 0.0, TssByDate(rows)) == [c, DayStep(6, 0.0, c.ctl, c.atl)];
  }

  /** The corrected anchor on the same input: the second run keeps day 5 and changes nothing. */
  lemma FixedAnchorKeepsHistory()
    ensures var t0 := map[5 := LoadPoint(5, 0.0, 10.2, 10.2, 0.0)];
      var rows := [DayTotal(5, 0.0)];
      var t1 := PmcRunFixed(t0, rows, 6).1;
      && WellKeyed(t1) && 5 in t1 && t1[5] == t0[5]
      && PmcRunFixed(t1, rows, 6).1 == t1
  {
    var t0 := map[5 := LoadPoint(5, 0.0, 10.2, 10.2, 0.0)];
    var rows := [DayTotal(5, 0.0)];
    assert LatestQualifyingRow(t0) == Some(t0[5]);
    AnchorKept(t0, Some(t0[5]), rows, 6);
    FixedRerunKeepsHistory(t0, rows, 6, 6);
  }
}
