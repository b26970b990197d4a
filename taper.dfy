/**
 * The race-day projection of cycling_training.py's `cmd_taper` and of the
 * dashboard: the PMC recurrence run once per remaining day over a synthetic
 * stress schedule (base, build, peak, two taper weeks, easy spins), and the
 * training phase named by the number of days to the race.
 */
module Taper {
  import opened Pmc

  /** The form (TSB) window the taper aims for on race day. */
  const TargetTsbLow: real := 15.0
  const TargetTsbHigh: real := 25.0
  /** The stress of an easy spin in the last days. */
  const EasySpinTss: real := 15.0

  function MaxReal(a: real, b: real): real { if a >= b then a else b }

  /**
   * The planned stress on day `d` (counted from today) of a projection
   * `daysToRace` days long, from `weeks_out = (days_to_race - d) / 7`.
   * `baseCtl * 7` is the current weekly load.
   */
  function TaperStress(baseCtl: real, daysToRace: int, d: int): real {
    var weeksOut := ((daysToRace - d) as real) / 7.0;
    if weeksOut > 12.0 then MaxReal(baseCtl * 7.0, 350.0) / 7.0
    else if weeksOut > 6.0 then 500.0 / 7.0
    else if weeksOut > 3.0 then 600.0 / 7.0
    else if weeksOut > 2.0 then 600.0 * 0.7 / 7.0
    else if weeksOut > 0.3 then 600.0 * 0.5 / 7.0
    else EasySpinTss
  }

  /** The schedule as a stress-by-day map over days 0 .. daysToRace - 1. */
  function Schedule(baseCtl: real, daysToRace: int): (m: map<int, real>)
    ensures forall d :: d in m <==> 0 <= d < daysToRace
  {
    map d | 0 <= d < daysToRace :: TaperStress(baseCtl, daysToRace, d)
  }

  /** CTL and ATL on race day: the PMC walk over the schedule, seeded with today's values. */
  function Projection(ctl: real, atl: real, daysToRace: int): (real, real) {
    EndState(Walk(0, daysToRace - 1, ctl, atl, Schedule(ctl, daysToRace)), ctl, atl)
  }

  /** Whether a projected race-day form lies in the target window. */
  predicate OnTarget(tsb: real) {
    TargetTsbLow <= tsb <= TargetTsbHigh
  }

  /**
   * The projection loop of `cmd_taper` (and, identically, of the dashboard),
   * seeded with the current CTL and ATL; the current CTL also sets the base load.
   */
  method ProjectRace(ctl: real, atl: real, daysToRace: int)
    returns (ctlProj: real, atlProj: real, tsbProj: real, targetOk: bool)
    ensures (ctlProj, atlProj) == Projection(ctl, atl, daysToRace)
    ensures daysToRace <= 0 ==> ctlProj == ctl && atlProj == atl
    ensures tsbProj == ctlProj - atlProj
    ensures targetOk <==> OnTarget(tsbProj)
  {
    var currentWeeklyTss := ctl * 7.0;
    assert currentWeeklyTss / 7.0 == ctl;
    ghost var stress := Schedule(ctl, daysToRace);
    ctlProj, atlProj := ctl, atl;
    var d := 0;
    while d < daysToRace
      invariant 0 <= d <= if daysToRace > 0 then daysToRace else 0
      invariant (ctlProj, atlProj) == EndState(Walk(0, d - 1, ctl, atl, stress), ctl, atl)
      decreases daysToRace - d
    {
      var dailyTss := PlannedTss(currentWeeklyTss, daysToRace, d);
      ScheduleAt(ctl, daysToRace, d);
      StepWalk(d, ctl, atl, stress);
      ghost var p := DayStep(d, dailyTss, ctlProj, atlProj);
      ctlProj := ctlProj + (dailyTss - ctlProj) / 42.0;
      atlProj := atlProj + (dailyTss - atlProj) / 7.0;
      assert (ctlProj, atlProj) == (p.ctl, p.atl);
      d := d + 1;
    }
    if daysToRace <= 0 {
      NoDaysLeft(ctl, atl, daysToRace);
      assert Walk(0, d - 1, ctl, atl, stress) == [];
    }
    tsbProj := ctlProj - atlProj;
    targetOk := TargetTsbLow <= tsbProj <= TargetTsbHigh;
  }

  /** The schedule holds each day's planned stress. */
  lemma ScheduleAt(baseCtl: real, daysToRace: int, d: int)
    requires 0 <= d < daysToRace
    ensures StressOn(Schedule(baseCtl, daysToRace), d) == TaperStress(baseCtl, daysToRace, d)
  {
  }

  /** The stress planned for day `d`, from the weeks left to the race (the body of the projection loop). */
  method PlannedTss(currentWeeklyTss: real, daysToRace: int, d: int) returns (dailyTss: real)
    ensures dailyTss == TaperStress(currentWeeklyTss / 7.0, daysToRace, d)
  {
    var weeksOut := ((daysToRace - d) as real) / 7.0;
    if weeksOut > 12.0 {
      dailyTss := MaxReal(currentWeeklyTss, 350.0) / 7.0;
    } else if weeksOut > 6.0 {
      dailyTss := 500.0 / 7.0;
    } else if weeksOut > 3.0 {
      dailyTss := 600.0 / 7.0;
    } else if weeksOut > 2.0 {
      dailyTss := 600.0 * 0.7 / 7.0;
    } else if weeksOut > 0.3 {
      dailyTss := 600.0 * 0.5 / 7.0;
    } else {
      dailyTss := EasySpinTss;
    }
  }

  /** The walk through day `d` ends one recurrence step after the walk through day `d - 1`. */
  lemma StepWalk(d: int, ctl: real, atl: real, stress: map<int, real>)
    requires d >= 0
    ensures var seed := EndState(Walk(0, d - 1, ctl, atl, stress), ctl, atl);
      var p := DayStep(d, StressOn(stress, d), seed.0, seed.1);
      EndState(Walk(0, d, ctl, atl, stress), ctl, atl) == (p.ctl, p.atl)
  {
    var head := Walk(0, d - 1, ctl, atl, stress);
    var seed := EndState(head, ctl, atl);
    WalkSplit(0, d - 1, d, ctl, atl, stress);
    var p := DayStep(d, StressOn(stress, d), seed.0, seed.1);
    assert Walk(d + 1, d, p.ctl, p.atl, stress) == [];
    assert Walk(d, d, seed.0, seed.1, stress) == [p];
    assert Walk(0, d, ctl, atl, stress) == head + [p];
  }

  // ---------------------------------------------------------------------
  // Properties
  // ---------------------------------------------------------------------

  /**
   * The schedule by whole days left (`daysToRace - d`, at least 1): more than
   * 84 is base, 43..84 build, 22..42 peak, 15..21 the first taper week at
   * -30%, 3..14 the second at -50%, and the last two days are easy spins.
   */
  lemma StressByDaysLeft(baseCtl: real, daysToRace: int, d: int)
    requires d < daysToRace
    ensures var left := daysToRace - d;
      var s := TaperStress(baseCtl, daysToRace, d);
      && (left > 84 ==> s == MaxReal(baseCtl, 50.0))
      && (42 < left <= 84 ==> s == 500.0 / 7.0)
      && (21 < left <= 42 ==> s == 600.0 / 7.0)
      && (14 < left <= 21 ==> s == 60.0)
      && (3 <= left <= 14 ==> s == 300.0 / 7.0)
      && (left <= 2 ==> s == EasySpinTss)
  {
    var left := daysToRace - d;
    var w := (left as real) / 7.0;
    assert w > 12.0 <==> left > 84;
    assert w > 6.0 <==> left > 42;
    assert w > 3.0 <==> left > 21;
    assert w > 2.0 <==> left > 14;
    assert w > 0.3 <==> left >= 3;
    assert MaxReal(baseCtl * 7.0, 350.0) / 7.0 == MaxReal(baseCtl, 50.0);
  }

  /** Every scheduled day carries between 15 and `max(baseCtl, 600/7)` stress. */
  lemma ScheduleWithin(baseCtl: real, daysToRace: int)
    ensures forall d :: d in Schedule(baseCtl, daysToRace) ==>
      EasySpinTss <= Schedule(baseCtl, daysToRace)[d] <= MaxReal(baseCtl, 600.0 / 7.0)
  {
    forall d | d in Schedule(baseCtl, daysToRace)
      ensures EasySpinTss <= Schedule(baseCtl, daysToRace)[d] <= MaxReal(baseCtl, 600.0 / 7.0)
    {
      StressByDaysLeft(baseCtl, daysToRace, d);
    }
  }

  /**
   * From a non-negative CTL and ATL no larger than `hi`, where `hi` also
   * bounds the schedule, the projected race-day CTL and ATL stay in [0, hi].
   */
  lemma ProjectionWithin(ctl: real, atl: real, daysToRace: int, hi: real)
    requires 0.0 <= ctl <= hi && 0.0 <= atl <= hi && 600.0 / 7.0 <= hi
    ensures var p := Projection(ctl, atl, daysToRace);
      0.0 <= p.0 <= hi && 0.0 <= p.1 <= hi
  {
    var stress := Schedule(ctl, daysToRace);
    ScheduleWithin(ctl, daysToRace);
    WalkWithin(0, daysToRace - 1, ctl, atl, stress, hi);
  }

  /** The training phase `cmd_taper` reports. */
  datatype Phase = Base | Build | Peak | TaperWeeks

  function PhaseOf(daysToRace: int): Phase {
    if daysToRace > 84 then Base
    else if daysToRace > 42 then Build
    else if daysToRace > 14 then Peak
    else TaperWeeks
  }

  /**
   * The reported phase agrees with the schedule's first projected day: base
   * load in the base phase, 500/7 in build, 600/7 or the first taper
   * week's 60 in peak (the schedule's taper starts at 21 days, the phase's
   * at 14), and a load of at most 300/7 exactly in the taper phase.
   */
  lemma PhaseMatchesSchedule(baseCtl: real, daysToRace: int)
    requires daysToRace > 0
    ensures var s := TaperStress(baseCtl, daysToRace, 0);
      && (PhaseOf(daysToRace) == Base <==> daysToRace > 84)
      && (PhaseOf(daysToRace) == Base ==> s == MaxReal(baseCtl, 50.0))
      && (PhaseOf(daysToRace) == Build ==> s == 500.0 / 7.0)
      && (PhaseOf(daysToRace) == Peak ==> s == 600.0 / 7.0 || s == 60.0)
      && (PhaseOf(daysToRace) == TaperWeeks <==> s <= 300.0 / 7.0)
  {
    StressByDaysLeft(baseCtl, daysToRace, 0);
    assert MaxReal(baseCtl, 50.0) > 300.0 / 7.0;
  }

  /** A race today or in the past projects no days: the current values are the race-day values. */
  lemma NoDaysLeft(ctl: real, atl: real, daysToRace: int)
    requires daysToRace <= 0
    ensures Projection(ctl, atl, daysToRace) == (ctl, atl)
  {
    assert Walk(0, daysToRace - 1, ctl, atl, Schedule(ctl, daysToRace)) == [];
  }
}
