/**
 * The dashboard's title-based zone classifier (`_classify_zone`) and the
 * fallback that turns completed workouts into hours per power zone when no
 * measured zone data exist.
 */
module WorkoutZones {
  import opened Wrappers
  import opened Text

  /** What `_classify_zone` returns. */
  datatype WorkoutClass = ThresholdVo2 | Sweetspot | TempoRide | EnduranceRide | FreeRide | OtherHighInt

  /** The label the dashboard uses for each class. */
  function Label(c: WorkoutClass): string {
    match c
    case ThresholdVo2 => "Threshold/VO2"
    case Sweetspot => "Sweetspot"
    case TempoRide => "Tempo"
    case EnduranceRide => "Endurance"
    case FreeRide => "Free Ride"
    case OtherHighInt => "Other High Int."
  }

  const ThresholdKeys: seq<string> := ["threshold", "vo2", "anaerobic", "over-under", "over/under"]
  const SweetspotKeys: seq<string> := ["sweetspot", "sweet spot"]
  const TempoKeys: seq<string> := ["tempo"]
  const EnduranceKeys: seq<string> := ["endurance", "easy", "recovery", "zone 2", "z2"]
  const FreeRideKeys: seq<string> := ["free ride", "unstructured", "outdoor", "group"]

  /** `any(k in t for k in keys)`. */
  predicate ContainsAny(t: string, keys: seq<string>) {
    keys != [] && (Contains(t, keys[0]) || ContainsAny(t, keys[1..]))
  }

  /** Whether the lower-cased title names any class at all. */
  predicate AnyKeyword(t: string) {
    ContainsAny(t, ThresholdKeys) || ContainsAny(t, SweetspotKeys) || ContainsAny(t, TempoKeys)
      || ContainsAny(t, EnduranceKeys) || ContainsAny(t, FreeRideKeys)
  }

  /** The intensity-factor fallback. */
  function IfClass(ifa: real): WorkoutClass {
    if ifa >= 0.91 then ThresholdVo2
    else if ifa >= 0.84 then Sweetspot
    else if ifa >= 0.76 then TempoRide
    else if ifa >= 0.56 then EnduranceRide
    else OtherHighInt
  }

  /** `_classify_zone(title, if_actual)`: keywords first, in class order, then the IF. */
  function ClassifyZone(title: Option<string>, ifActual: Option<real>): WorkoutClass {
    var t := Lower(title.GetOr(""));
    if ContainsAny(t, ThresholdKeys) then ThresholdVo2
    else if ContainsAny(t, SweetspotKeys) then Sweetspot
    else if ContainsAny(t, TempoKeys) then TempoRide
    else if ContainsAny(t, EnduranceKeys) then EnduranceRide
    else if ContainsAny(t, FreeRideKeys) then FreeRide
    else if ifActual.Some? then IfClass(ifActual.value)
    else OtherHighInt
  }

  /** A key of the list found in the text makes the list match. */
  lemma {:induction false} ContainsAnyMember(t: string, keys: seq<string>, i: nat)
    requires i < |keys| && Contains(t, keys[i])
    ensures ContainsAny(t, keys)
  {
    if i > 0 {
      ContainsAnyMember(t, keys[1..], i - 1);
    }
  }

  /**
   * Keywords win: a title containing (in any case) threshold, vo2,
   * anaerobic, over-under or over/under is Threshold/VO2 whatever the IF.
   */
  lemma ThresholdKeywordWins(title: string, key: nat, ifActual: Option<real>)
    requires key < |ThresholdKeys| && Contains(Lower(title), ThresholdKeys[key])
    ensures ClassifyZone(Some(title), ifActual) == ThresholdVo2
  {
    ContainsAnyMember(Lower(title), ThresholdKeys, key);
  }

  /** Without any keyword, the IF decides; without IF either, the result is "Other High Int.". */
  lemma NoKeywordUsesIf(title: Option<string>, ifActual: Option<real>)
    requires !AnyKeyword(Lower(title.GetOr("")))
    ensures ClassifyZone(title, ifActual) == if ifActual.Some? then IfClass(ifActual.value) else OtherHighInt
  {
  }

  /** How hard each class is, by the IF bands: Other High Int. sits below 0.56. */
  function IfRank(c: WorkoutClass): nat {
    match c
    case OtherHighInt => 0
    case EnduranceRide => 1
    case TempoRide => 2
    case Sweetspot => 3
    case ThresholdVo2 => 4
    case FreeRide => 1
  }

  /**
   * The IF fallback is monotone: a higher IF never lands in an easier band,
   * and the bands start exactly at 0.56, 0.76, 0.84 and 0.91.
   */
  lemma IfClassMonotone(x: real, y: real)
    requires x <= y
    ensures IfRank(IfClass(x)) <= IfRank(IfClass(y))
    ensures IfRank(IfClass(y)) >= 1 <==> y >= 0.56
    ensures IfRank(IfClass(y)) >= 2 <==> y >= 0.76
    ensures IfRank(IfClass(y)) >= 3 <==> y >= 0.84
    ensures IfRank(IfClass(y)) == 4 <==> y >= 0.91
  {
  }

  // ---------------------------------------------------------------------
  // Fallback hours per zone
  // ---------------------------------------------------------------------

  /** A completed workout as the fallback query returns it. */
  datatype Workout = Workout(title: Option<string>, tssActual: Option<real>, ifActual: Option<real>)

  /** The dashboard's power zones (the keys of its `zones` dictionary). */
  datatype PowerZone = Recovery | Endurance | Tempo | Threshold | Vo2 | Anaerobic | Neuromuscular

  /** The zones in display order. */
  const ZoneOrder: seq<PowerZone> := [Recovery, Endurance, Tempo, Threshold, Vo2, Anaerobic, Neuromuscular]

  /** The IF assumed when a workout has none (or zero). */
  const DefaultIf: real := 0.65

  function Get(m: map<PowerZone, real>, k: PowerZone): real {
    if k in m then m[k] else 0.0
  }

  /** `tss / (if_val ** 2 * 100)`: the hours a ride of this TSS at this IF takes. */
  function WorkoutHours(w: Workout): real {
    var tss := w.tssActual.GetOr(0.0);
    var ifVal := if w.ifActual.Some? && w.ifActual.value != 0.0 then w.ifActual.value else DefaultIf;
    if ifVal > 0.0 then tss / (ifVal * ifVal * 100.0) else tss / 42.25
  }

  function Credit(zones: map<PowerZone, real>, name: PowerZone, h: real): map<PowerZone, real> {
    zones[name := Get(zones, name) + h]
  }

  /** One pass of the loop: the workout's hours go to the zone(s) its class maps to. */
  function AddWorkout(zones: map<PowerZone, real>, w: Workout): map<PowerZone, real> {
    AddHours(zones, ClassifyZone(w.title, w.ifActual), WorkoutHours(w))
  }

  /** `h` hours of class `c` credited to the zones. */
  function AddHours(zones: map<PowerZone, real>, c: WorkoutClass, h: real): map<PowerZone, real> {
    match c
    case ThresholdVo2 => Credit(Credit(zones, Threshold, h * 0.6), Vo2, h * 0.4)
    case Sweetspot => Credit(zones, Tempo, h)
    case FreeRide => Credit(Credit(zones, Endurance, h * 0.7), Tempo, h * 0.3)
    case OtherHighInt => Credit(zones, Anaerobic, h)
    case TempoRide => Credit(zones, Tempo, h)
    case EnduranceRide => Credit(zones, Endurance, h)
  }

  function InitialZones(): map<PowerZone, real> {
    map z: PowerZone | z in ZoneOrder :: 0.0
  }

  /** The zone hours after the first `|ws|` workouts. */
  function Fallback(ws: seq<Workout>): map<PowerZone, real> {
    if ws == [] then InitialZones()
    else AddWorkout(Fallback(ws[..|ws| - 1]), ws[|ws| - 1])
  }

  /** One more workout is one more `AddHours` of its class and hours. */
  lemma FallbackStep(ws: seq<Workout>, i: nat)
    requires i < |ws|
    ensures Fallback(ws[..i + 1])
      == AddHours(Fallback(ws[..i]), ClassifyZone(ws[i].title, ws[i].ifActual), WorkoutHours(ws[i]))
  {
    assert ws[..i + 1][..i] == ws[..i];
  }

  /** The body of the fallback loop: `hours` of class `zone` added to the zone dictionary. */
  method CreditWorkout(zones0: map<PowerZone, real>, zone: WorkoutClass, hours: real)
    returns (zones: map<PowerZone, real>)
    ensures zones == AddHours(zones0, zone, hours)
  {
    zones := zones0;
    // each `zones[z]["hours"] += x` is a `Credit`
    if zone == ThresholdVo2 {
      zones := Credit(zones, Threshold, hours * 0.6);
      zones := Credit(zones, Vo2, hours * 0.4);
    } else if zone == Sweetspot {
      zones := Credit(zones, Tempo, hours);
    } else if zone == FreeRide {
      zones := Credit(zones, Endurance, hours * 0.7);
      zones := Credit(zones, Tempo, hours * 0.3);
    } else if zone == OtherHighInt {
      zones := Credit(zones, Anaerobic, hours);
    } else {
      // "Tempo" and "Endurance" are keys of the dictionary under their own label
      var key := if zone == TempoRide then Tempo else Endurance;
      zones := Credit(zones, key, hours);
    }
  }

  /** The fallback loop of the dashboard over the completed workouts. */
  method FallbackZoneHours(ws: seq<Workout>) returns (zones: map<PowerZone, real>)
    ensures zones == Fallback(ws)
  {
    zones := InitialZones();
    for i := 0 to |ws|
      invariant zones == Fallback(ws[..i])
    {
      FallbackStep(ws, i);
      var w := ws[i];
      var zone := ClassifyZone(w.title, w.ifActual);
      var hours := WorkoutHours(w);
      zones := CreditWorkout(zones, zone, hours);
    }
    assert ws[..|ws|] == ws;
  }

  /** The hours of all seven zones, summed. */
  function Total(m: map<PowerZone, real>): real {
    Get(m, Recovery) + Get(m, Endurance) + Get(m, Tempo) + Get(m, Threshold)
      + Get(m, Vo2) + Get(m, Anaerobic) + Get(m, Neuromuscular)
  }

  /** The hours of all workouts, summed. */
  function SumHours(ws: seq<Workout>): real {
    if ws == [] then 0.0 else SumHours(ws[..|ws| - 1]) + WorkoutHours(ws[|ws| - 1])
  }

  /** Crediting a zone adds exactly `h` to the total. */
  lemma CreditTotal(m: map<PowerZone, real>, z: PowerZone, h: real)
    ensures Total(Credit(m, z, h)) == Total(m) + h
  {
  }

  /** The hours are added to the zones, split 0.6/0.4 or 0.7/0.3 without loss. */
  lemma AddHoursConserves(zones: map<PowerZone, real>, c: WorkoutClass, h: real)
    ensures Total(AddHours(zones, c, h)) == Total(zones) + h
  {
    match c
    case ThresholdVo2 =>
      CreditTotal(zones, Threshold, h * 0.6);
      CreditTotal(Credit(zones, Threshold, h * 0.6), Vo2, h * 0.4);
    case FreeRide =>
      CreditTotal(zones, Endurance, h * 0.7);
      CreditTotal(Credit(zones, Endurance, h * 0.7), Tempo, h * 0.3);
    case Sweetspot => CreditTotal(zones, Tempo, h);
    case OtherHighInt => CreditTotal(zones, Anaerobic, h);
    case TempoRide => CreditTotal(zones, Tempo, h);
    case EnduranceRide => CreditTotal(zones, Endurance, h);
  }

  /** The fallback conserves hours: the zones together hold exactly the workouts' hours. */
  lemma {:induction false} FallbackConserves(ws: seq<Workout>)
    ensures Total(Fallback(ws)) == SumHours(ws)
  {
    if ws != [] {
      FallbackConserves(ws[..|ws| - 1]);
      var w := ws[|ws| - 1];
      AddHoursConserves(Fallback(ws[..|ws| - 1]), ClassifyZone(w.title, w.ifActual), WorkoutHours(w));
    }
  }

  /** No class credits Recovery or Neuromuscular. */
  lemma AddHoursSkipsEnds(zones: map<PowerZone, real>, c: WorkoutClass, h: real)
    ensures Get(AddHours(zones, c, h), Recovery) == Get(zones, Recovery)
    ensures Get(AddHours(zones, c, h), Neuromuscular) == Get(zones, Neuromuscular)
  {
  }

  /** Recovery and Neuromuscular never receive fallback hours, whatever the workouts. */
  lemma {:induction false} FallbackSkipsEnds(ws: seq<Workout>)
    ensures Get(Fallback(ws), Recovery) == 0.0 && Get(Fallback(ws), Neuromuscular) == 0.0
  {
    if ws != [] {
      FallbackSkipsEnds(ws[..|ws| - 1]);
      var w := ws[|ws| - 1];
      AddHoursSkipsEnds(Fallback(ws[..|ws| - 1]), ClassifyZone(w.title, w.ifActual), WorkoutHours(w));
    }
  }

  /** A workout with no IF (or IF 0) is timed as if ridden at IF 0.65. */
  lemma MissingIfAsDefault(title: Option<string>, tss: Option<real>)
    ensures WorkoutHours(Workout(title, tss, None)) == WorkoutHours(Workout(title, tss, Some(DefaultIf)))
    ensures WorkoutHours(Workout(title, tss, Some(0.0))) == tss.GetOr(0.0) / 42.25
  {
  }

  /** Untitled easy riding below IF 0.56 is counted as anaerobic time. */
  lemma LowIfCountsAnaerobic(tss: real)
    requires tss > 0.0
    ensures ClassifyZone(None, Some(0.5)) == OtherHighInt
    ensures Get(AddWorkout(InitialZones(), Workout(None, Some(tss), Some(0.5))), Anaerobic) == tss / 25.0
  {
    UntitledLowIf();
    var w := Workout(None, Some(tss), Some(0.5));
    assert WorkoutHours(w) == tss / 25.0;
    assert Anaerobic in InitialZones();
  }

  /** An untitled ride at IF 0.5 matches no keyword and falls to the IF rule's last class. */
  lemma UntitledLowIf()
    ensures ClassifyZone(None, Some(0.5)) == OtherHighInt
  {
    assert Lower("") == "";
    assert !AnyKeyword("");
  }
}
