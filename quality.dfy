/**
 * The workout quality score of cycling_training.py: half TSS adherence,
 * half intensity-factor adherence, clamped to [0, 100], and undefined when
 * an input is missing or a planned value is zero.
 */
module Quality {
  import opened Wrappers

  /** Overshooting the planned TSS counts only up to this ratio. */
  const TssRatioCap: real := 1.2

  function Min(a: real, b: real): real { if a <= b then a else b }
  function Max(a: real, b: real): real { if a >= b then a else b }
  function Abs(x: real): real { if x < 0.0 then -x else x }

  /** `min(tss_actual / tss_planned, 1.2) / 1.2 * 100`: no lower clamp on the ratio. */
  function TssAdherence(tssPlanned: real, tssActual: real): (t: real)
    requires tssPlanned != 0.0
    ensures t <= 100.0
    ensures tssActual / tssPlanned >= TssRatioCap ==> t == 100.0
  {
    Min(tssActual / tssPlanned, TssRatioCap) / TssRatioCap * 100.0
  }

  /** `100 - abs(if_actual - if_planned) / if_planned * 100`. */
  function IfAdherence(ifPlanned: real, ifActual: real): (i: real)
    requires ifPlanned != 0.0
    ensures ifPlanned > 0.0 ==> i <= 100.0
    ensures ifPlanned > 0.0 ==> (i == 100.0 <==> ifActual == ifPlanned)
  {
    100.0 - Abs(ifActual - ifPlanned) / ifPlanned * 100.0
  }

  /** The score, once every input is present and both planned values are non-zero. */
  function Score(tssPlanned: real, tssActual: real, ifPlanned: real, ifActual: real): (q: real)
    requires tssPlanned != 0.0 && ifPlanned != 0.0
    ensures 0.0 <= q <= 100.0
  {
    var blend := TssAdherence(tssPlanned, tssActual) * 0.5 + IfAdherence(ifPlanned, ifActual) * 0.5;
    Max(0.0, Min(100.0, blend))
  }

  /** `calc_workout_quality`: None for a missing input or a zero planned TSS or IF. */
  function WorkoutQuality(tssPlanned: Option<real>, tssActual: Option<real>,
                          ifPlanned: Option<real>, ifActual: Option<real>): (q: Option<real>)
    ensures q.None? <==>
      || tssPlanned.None? || tssActual.None? || ifPlanned.None? || ifActual.None?
      || tssPlanned.value == 0.0 || ifPlanned.value == 0.0
    ensures q.Some? ==> 0.0 <= q.value <= 100.0
  {
    if tssPlanned.None? || tssActual.None? || ifPlanned.None? || ifActual.None? then None
    else if tssPlanned.value == 0.0 || ifPlanned.value == 0.0 then None
    else Some(Score(tssPlanned.value, tssActual.value, ifPlanned.value, ifActual.value))
  }

  /**
   * With a positive plan, the score is a full 100 exactly when the ride
   * reached at least 1.2 times the planned TSS at exactly the planned IF.
   */
  lemma FullScore(tssPlanned: real, tssActual: real, ifPlanned: real, ifActual: real)
    requires tssPlanned > 0.0 && ifPlanned > 0.0
    ensures WorkoutQuality(Some(tssPlanned), Some(tssActual), Some(ifPlanned), Some(ifActual)) == Some(100.0)
      <==> tssActual >= TssRatioCap * tssPlanned && ifActual == ifPlanned
  {
    var t := TssAdherence(tssPlanned, tssActual);
    var i := IfAdherence(ifPlanned, ifActual);
    var r := tssActual / tssPlanned;
    assert r >= TssRatioCap <==> tssActual >= TssRatioCap * tssPlanned;
    if r < TssRatioCap {
      assert t == r / TssRatioCap * 100.0;
      assert t < 100.0;
    }
  }

  /** Riding exactly to plan scores 275/3 (about 91.67): the TSS term rewards up to 20% overshoot. */
  lemma OnPlanScore(tssPlanned: real, ifPlanned: real)
    requires tssPlanned > 0.0 && ifPlanned > 0.0
    ensures WorkoutQuality(Some(tssPlanned), Some(tssPlanned), Some(ifPlanned), Some(ifPlanned)) == Some(275.0 / 3.0)
  {
    assert tssPlanned / tssPlanned == 1.0;
  }

  /** Planned 100 TSS at IF 0.80, ridden as 110 TSS at IF 0.78, scores 1135/12 (about 94.58). */
  lemma ExampleScore()
    ensures WorkoutQuality(Some(100.0), Some(110.0), Some(0.80), Some(0.78)) == Some(1135.0 / 12.0)
  {
    assert TssAdherence(100.0, 110.0) == 275.0 / 3.0;
    assert IfAdherence(0.80, 0.78) == 97.5;
  }

  /** With the IF fixed, more actual TSS never lowers the score. */
  lemma MoreTssNeverLowers(tssPlanned: real, a1: real, a2: real, ifPlanned: real, ifActual: real)
    requires tssPlanned > 0.0 && ifPlanned != 0.0 && a1 <= a2
    ensures Score(tssPlanned, a1, ifPlanned, ifActual) <= Score(tssPlanned, a2, ifPlanned, ifActual)
  {
    assert a1 / tssPlanned <= a2 / tssPlanned;
  }
}
