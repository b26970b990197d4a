/**
 * FTP projections: the linear trajectory of cycling_training.py's
 * `ftp_project` (and the projected race FTP on the dashboard), and the
 * dashboard's month-by-month projection list from February to December.
 */
module FtpProjection {
  import opened Wrappers
  import opened Numeric

  function MaxR(a: real, b: real): real { if a >= b then a else b }
  function MinR(a: real, b: real): real { if a <= b then a else b }
  function MinI(a: int, b: int): int { if a <= b then a else b }

  /** One row of the FTP history: the test's day number and its result in watts. */
  datatype FtpTest = FtpTest(day: int, watts: int)

  /** How demanding the required weekly gain is. */
  datatype Status = OnTrack | Aggressive | VeryAggressive

  /** `(date - today).days / 7`. */
  function WeeksUntil(today: int, date: int): real {
    ((date - today) as real) / 7.0
  }

  /** The gain per week that reaches `target` on `targetDate`, counting at least one week. */
  function WeeklyGain(ftp: int, target: int, today: int, targetDate: int): real {
    ((target - ftp) as real) / MaxR(1.0, WeeksUntil(today, targetDate))
  }

  /** The linear projection on `date`; dates in the past give the current FTP. */
  function LinearFtp(ftp: int, gain: real, today: int, date: int): real {
    ftp as real + gain * MaxR(0.0, WeeksUntil(today, date))
  }

  function StatusOf(gain: real): Status {
    if gain <= 1.0 then OnTrack
    else if gain <= 1.5 then Aggressive
    else VeryAggressive
  }

  /** What `ftp_project` reports. */
  datatype Outlook = Outlook(current: int, weeklyGain: real, atNextTest: real, atRace: real,
                             atTargetDate: real, historicalRate: Option<real>, status: Status)

  /**
   * `ftp_project` over the history ordered by test date: nothing without
   * history; otherwise the projections from the latest test, and the
   * historical rate from the first test when there are two or more.
   */
  function FtpProject(history: seq<FtpTest>, today: int, target: int, targetDate: int,
                      raceDate: int, nextTest: int): (r: Option<Outlook>)
    ensures r.None? <==> history == []
    ensures r.Some? ==> r.value.current == history[|history| - 1].watts
    ensures r.Some? ==> (r.value.historicalRate.Some? <==> |history| >= 2)
    ensures r.Some? ==> r.value.weeklyGain == WeeklyGain(r.value.current, target, today, targetDate)
    ensures r.Some? ==> r.value.atNextTest == LinearFtp(r.value.current, r.value.weeklyGain, today, nextTest)
    ensures r.Some? ==> r.value.atRace == LinearFtp(r.value.current, r.value.weeklyGain, today, raceDate)
    ensures r.Some? ==> r.value.atTargetDate == LinearFtp(r.value.current, r.value.weeklyGain, today, targetDate)
    ensures r.Some? ==> r.value.status == StatusOf(r.value.weeklyGain)
  {
    if history == [] then None
    else
      var latest := history[|history| - 1];
      var gain := WeeklyGain(latest.watts, target, today, targetDate);
      var rate :=
        if |history| >= 2 then
          var elapsed := MaxR(1.0, WeeksUntil(history[0].day, latest.day));
          Some(((latest.watts - history[0].watts) as real) / elapsed)
        else None;
      Some(Outlook(latest.watts, gain,
                   LinearFtp(latest.watts, gain, today, nextTest),
                   LinearFtp(latest.watts, gain, today, raceDate),
                   LinearFtp(latest.watts, gain, today, targetDate),
                   rate, StatusOf(gain)))
  }

  /** The dashboard's projected race FTP, rounded as Python's `round` does. */
  function ProjectedRaceFtp(ftp: int, target: int, today: int, targetDate: int, raceDate: int): int {
    RoundHalfEven(LinearFtp(ftp, WeeklyGain(ftp, target, today, targetDate), today, raceDate))
  }

  // ---------------------------------------------------------------------
  // The linear projection
  // ---------------------------------------------------------------------

  /** With at least a week to go, the projection reaches the target exactly on the target date. */
  lemma ReachesTarget(ftp: int, target: int, today: int, targetDate: int)
    requires targetDate - today >= 7
    ensures LinearFtp(ftp, WeeklyGain(ftp, target, today, targetDate), today, targetDate) == target as real
  {
    var w := WeeksUntil(today, targetDate);
    assert w >= 1.0;
    assert ((target - ftp) as real) / w * w == (target - ftp) as real;
  }

  /** Dates up to today project the current FTP. */
  lemma PastIsCurrent(ftp: int, gain: real, today: int, date: int)
    requires date <= today
    ensures LinearFtp(ftp, gain, today, date) == ftp as real
  {
    assert WeeksUntil(today, date) <= 0.0;
  }

  /**
   * Between today and a target date at least a week away, the projection
   * lies between the current FTP and the target.
   */
  lemma ProjectionBetween(ftp: int, target: int, today: int, targetDate: int, date: int)
    requires targetDate - today >= 7 && date <= targetDate
    ensures var p := LinearFtp(ftp, WeeklyGain(ftp, target, today, targetDate), today, date);
      && (ftp <= target ==> ftp as real <= p <= target as real)
      && (target <= ftp ==> target as real <= p <= ftp as real)
  {
    var w := WeeksUntil(today, targetDate);
    var v := MaxR(0.0, WeeksUntil(today, date));
    var gap := (target - ftp) as real;
    assert 0.0 <= v <= w && w >= 1.0;
    var q := v / w;
    assert 0.0 <= q <= 1.0;
    assert gap / w * v == gap * q;
    assert WeeklyGain(ftp, target, today, targetDate) == gap / w;
    assert LinearFtp(ftp, gap / w, today, date) == ftp as real + gap * q;
    if gap >= 0.0 {
      assert 0.0 <= gap * q <= gap;
    } else {
      assert gap <= gap * q <= 0.0;
    }
  }

  /** The status is "on track" exactly when the gap is at most one watt per week left. */
  lemma StatusByGap(ftp: int, target: int, today: int, targetDate: int)
    requires targetDate - today >= 7
    ensures var w := WeeksUntil(today, targetDate);
      && (StatusOf(WeeklyGain(ftp, target, today, targetDate)) == OnTrack <==> (target - ftp) as real <= w)
      && (StatusOf(WeeklyGain(ftp, target, today, targetDate)) == VeryAggressive <==> (target - ftp) as real > 1.5 * w)
  {
    var w := WeeksUntil(today, targetDate);
    var gap := (target - ftp) as real;
    assert w >= 1.0;
    assert WeeklyGain(ftp, target, today, targetDate) == gap / w;
    DivAtMost(gap, w, 1.0);
    DivAtMost(gap, w, 1.5);
  }

  /** Dividing by a positive number: `a / w <= c` exactly when `a <= c * w`. */
  lemma DivAtMost(a: real, w: real, c: real)
    requires w > 0.0
    ensures a / w <= c <==> a <= c * w
  {
    var q := a / w;
    assert a == q * w;
    if q <= c {
      assert q * w <= c * w;
    } else {
      assert q * w > c * w;
    }
  }

  /**
   * For a race before a target date a week or more away, the rounded
   * projected race FTP lies between the current FTP and the target.
   */
  lemma RaceFtpBetween(ftp: int, target: int, today: int, targetDate: int, raceDate: int)
    requires targetDate - today >= 7 && raceDate <= targetDate
    ensures var r := ProjectedRaceFtp(ftp, target, today, targetDate, raceDate);
      && (ftp <= target ==> ftp <= r <= target)
      && (target <= ftp ==> target <= r <= ftp)
  {
    var p := LinearFtp(ftp, WeeklyGain(ftp, target, today, targetDate), today, raceDate);
    ProjectionBetween(ftp, target, today, targetDate, raceDate);
    if ftp <= target {
      RoundBetween(p, ftp, target);
    }
    if target <= ftp {
      RoundBetween(p, target, ftp);
    }
  }

  // ---------------------------------------------------------------------
  // The month-by-month list
  // ---------------------------------------------------------------------

  /** The projection list covers February (2) through December (12). */
  const Months: nat := 11

  /** `gap * progress`: the share of the gap reached at a given progress. */
  function Portion(gap: real, progress: real): real {
    gap * progress
  }

  /** The entry for month `m` (2 = February ... 12 = December). */
  function MonthTarget(ftp: int, target: int, m: int): int {
    var gap := (target - ftp) as real;
    if m <= 3 then ftp
    else if m <= 4 then ftp + 2
    else if m <= 5 then ftp + Trunc(gap * 0.25)
    else if m <= 6 then ftp + Trunc(gap * 0.4)
    else if m <= 8 then ftp + Trunc(gap * 0.55 + ((m - 6) * 2) as real)
    else
      var progress := 0.55 + ((m - 8) as real) * 0.11;
      MinI(target, ftp + Trunc(Portion(gap, MinR(progress, 1.0))))
  }

  /** The `ftp_proj` loop: one entry per month label, February first. */
  method FtpByMonth(ftp: int, target: int) returns (proj: seq<int>)
    ensures |proj| == Months
    ensures forall i :: 0 <= i < |proj| ==> proj[i] == MonthTarget(ftp, target, i + 2)
  {
    proj := [];
    for i := 0 to Months
      invariant |proj| == i
      invariant forall j :: 0 <= j < i ==> proj[j] == MonthTarget(ftp, target, j + 2)
    {
      var entry := MonthEntry(ftp, target, i + 2);
      proj := proj + [entry];
    }
  }

  /** The body of the `ftp_proj` loop: the entry for month number `monthNum`. */
  method MonthEntry(ftp: int, target: int, monthNum: int) returns (entry: int)
    ensures entry == MonthTarget(ftp, target, monthNum)
  {
    var gap := (target - ftp) as real;
    if monthNum <= 3 {
      entry := ftp;
    } else if monthNum <= 4 {
      entry := ftp + 2;
    } else if monthNum <= 5 {
      entry := ftp + Trunc(gap * 0.25);
    } else if monthNum <= 6 {
      entry := ftp + Trunc(gap * 0.4);
    } else if monthNum <= 8 {
      entry := ftp + Trunc(gap * 0.55 + ((monthNum - 6) * 2) as real);
    } else {
      var progress := 0.55 + ((monthNum - 8) as real) * 0.11;
      entry := MinI(target, ftp + Trunc(Portion(gap, MinR(progress, 1.0))));
    }
  }

  /** February and March hold the current FTP. */
  lemma BasePlateau(ftp: int, target: int)
    ensures MonthTarget(ftp, target, 2) == ftp && MonthTarget(ftp, target, 3) == ftp
  {
  }

  /**
   * From September on, no entry exceeds the target; below the target the
   * entries never fall under the current FTP, and they reach
   * `ftp + int(gap * progress)` with progress 0.66, 0.77, 0.88, 0.99.
   */
  lemma FallCapped(ftp: int, target: int, m: int)
    requires 9 <= m <= 12
    ensures MonthTarget(ftp, target, m) <= target
    ensures ftp <= target ==> ftp <= MonthTarget(ftp, target, m)
    ensures ftp <= target ==>
      MonthTarget(ftp, target, m) == ftp + Trunc((target - ftp) as real * (0.55 + ((m - 8) as real) * 0.11))
  {
    var gap := (target - ftp) as real;
    var progress := 0.55 + ((m - 8) as real) * 0.11;
    assert progress <= 0.99;
    if ftp <= target {
      assert 0.0 <= gap * progress <= gap;
    }
  }

  /** Below the target, the May and June entries lie between the current FTP and the target. */
  lemma BuildWithin(ftp: int, target: int, m: int)
    requires 5 <= m <= 6 && ftp <= target
    ensures ftp <= MonthTarget(ftp, target, m) <= target
  {
    var gap := (target - ftp) as real;
    assert 0.0 <= gap * 0.25 <= gap && 0.0 <= gap * 0.4 <= gap;
  }

  /**
   * The summer entries carry no cap: with FTP 250 and target 252, July
   * projects 253 and August 255, above the target, and September falls
   * back to 251.
   */
  lemma SummerUncapped()
    ensures MonthTarget(250, 252, 7) == 253
    ensures MonthTarget(250, 252, 8) == 255
    ensures MonthTarget(250, 252, 9) == 251
  {
    assert Trunc(2.0 * 0.55 + 2.0) == 3;
    assert Trunc(2.0 * 0.55 + 4.0) == 5;
    assert Trunc(2.0 * 0.66) == 1;
  }
}
