/**
 * `_map_bucket_to_zones` of cycling_training.py: the seconds a power bucket
 * [bucket_min, bucket_max] holds are split over the configured coach zones
 * in proportion to how much of the bucket's width each zone overlaps.
 *
 * Zones are (name, min watts, max watts) triples read from configuration,
 * taken here as a parameter. The result is a dictionary from zone name to
 * seconds.
 */
module PowerZones {
  import opened Wrappers

  datatype Zone = Zone(name: string, lo: int, hi: int)

  /**
   * How a zone's watt range is read when measuring overlap: as written the
   * range [lo, hi] is closed; the corrected reading is the half-open
   * [lo, hi + 1), so that adjacent integer zones tile the watt axis.
   */
  datatype Bounds = Closed | HalfOpen

  const Recovery: string := "recovery"
  const Neuromuscular: string := "neuromuscular"

  function MaxInt(a: int, b: int): int { if a >= b then a else b }
  function MinInt(a: int, b: int): int { if a <= b then a else b }

  /** `result.get(name, 0)`. */
  function Get(m: map<string, real>, name: string): real {
    if name in m then m[name] else 0.0
  }

  /** An open-ended bucket (max -1) reaches 50 W past its minimum, and at least 1000 W. */
  function EffectiveMax(bucketMin: int, bucketMax: int): (hi: int)
    ensures bucketMax != -1 ==> hi == bucketMax
    ensures bucketMax == -1 ==> hi >= bucketMin + 50 && hi >= 1000
  {
    if bucketMax == -1 then MaxInt(bucketMin + 50, 1000) else bucketMax
  }

  /** Whether zone `z`'s closed range contains `watts`. */
  predicate Contains(z: Zone, watts: int) {
    z.lo <= watts <= z.hi
  }

  /** The position of the first zone at or after `from` whose range contains `watts`, if any. */
  function FirstContaining(zones: seq<Zone>, watts: int, from: nat): (k: Option<nat>)
    requires from <= |zones|
    ensures k.None? <==> forall i :: from <= i < |zones| ==> !Contains(zones[i], watts)
    ensures k.Some? ==>
      && from <= k.value < |zones|
      && Contains(zones[k.value], watts)
      && (forall i :: from <= i < k.value ==> !Contains(zones[i], watts))
    decreases |zones| - from
  {
    if from == |zones| then None
    else if Contains(zones[from], watts) then Some(from)
    else FirstContaining(zones, watts, from + 1)
  }

  /** The watts the bucket [bucketMin, hi] shares with zone `z`, if they overlap at all. */
  function Overlap(z: Zone, bucketMin: int, hi: int, bounds: Bounds): (ov: Option<int>)
    ensures ov.Some? ==> ov.value >= 0
  {
    var a := MaxInt(bucketMin, z.lo);
    match bounds
    case Closed =>
      var b := MinInt(hi, z.hi);
      if a <= b then Some(b - a) else None
    case HalfOpen =>
      var b := MinInt(hi, z.hi + 1);
      if a < b then Some(b - a) else None
  }

  /** The seconds a zone receives: its overlap as a fraction of the bucket width. */
  function Share(ov: int, width: int, timeSec: real): real
    requires width > 0
  {
    timeSec * ((ov as real) / (width as real))
  }

  /** One pass of the overlap loop: add the zone's share under its name. */
  function Contribute(acc: map<string, real>, z: Zone, bucketMin: int, hi: int, timeSec: real,
                      bounds: Bounds): map<string, real>
    requires hi > bucketMin
  {
    match Overlap(z, bucketMin, hi, bounds)
    case None => acc
    case Some(ov) => acc[z.name := Get(acc, z.name) + Share(ov, hi - bucketMin, timeSec)]
  }

  /** The overlap loop over `zones`, in order. */
  function Spread(zones: seq<Zone>, bucketMin: int, hi: int, timeSec: real, bounds: Bounds): map<string, real>
    requires hi > bucketMin
  {
    if zones == [] then map[]
    else
      var last := zones[|zones| - 1];
      Contribute(Spread(zones[..|zones| - 1], bucketMin, hi, timeSec, bounds), last, bucketMin, hi, timeSec, bounds)
  }

  /** The whole function, with its early returns, for either reading of the zone bounds. */
  function BucketZones(zones: seq<Zone>, bucketMin: int, bucketMax: int, timeSec: real, bounds: Bounds): map<string, real>
  {
    if timeSec <= 0.0 then map[]
    else if bucketMin == 0 && bucketMax == 0 then map[Recovery := timeSec]
    else
      var hi := EffectiveMax(bucketMin, bucketMax);
      if hi - bucketMin <= 0 then
        match FirstContaining(zones, bucketMin, 0)
        case Some(k) => map[zones[k].name := timeSec]
        case None => map[Neuromuscular := timeSec]
      else
        var spread := Spread(zones, bucketMin, hi, timeSec, bounds);
        if spread == map[] then map[Recovery := timeSec] else spread
  }

  /** The spread over one more zone is that zone's contribution on top of the spread before it. */
  lemma SpreadStep(zones: seq<Zone>, i: nat, bucketMin: int, hi: int, timeSec: real, bounds: Bounds)
    requires i < |zones| && hi > bucketMin
    ensures Spread(zones[..i + 1], bucketMin, hi, timeSec, bounds)
      == Contribute(Spread(zones[..i], bucketMin, hi, timeSec, bounds), zones[i], bucketMin, hi, timeSec, bounds)
  {
    assert zones[..i + 1][..i] == zones[..i];
  }

  /** The overlap loop of `_map_bucket_to_zones`, over a bucket of positive width. */
  method SpreadOverlaps(zones: seq<Zone>, bucketMin: int, hi: int, timeSec: real, bounds: Bounds)
    returns (result: map<string, real>)
    requires hi > bucketMin
    ensures result == Spread(zones, bucketMin, hi, timeSec, bounds)
  {
    var width := hi - bucketMin;
    result := map[];
    for i := 0 to |zones|
      invariant result == Spread(zones[..i], bucketMin, hi, timeSec, bounds)
    {
      SpreadStep(zones, i, bucketMin, hi, timeSec, bounds);
      var z := zones[i];
      ghost var expected := Contribute(result, z, bucketMin, hi, timeSec, bounds);
      var overlapMin := MaxInt(bucketMin, z.lo);
      var overlapMax := if bounds == Closed then MinInt(hi, z.hi) else MinInt(hi, z.hi + 1);
      var overlaps := if bounds == Closed then overlapMin <= overlapMax else overlapMin < overlapMax;
      assert Overlap(z, bucketMin, hi, bounds) == if overlaps then Some(overlapMax - overlapMin) else None;
      if overlaps {
        var overlapWidth := overlapMax - overlapMin;
        var fraction := (overlapWidth as real) / (width as real);
        assert timeSec * fraction == Share(overlapWidth, width, timeSec);
        result := result[z.name := Get(result, z.name) + timeSec * fraction];
      }
      assert result == expected;
    }
    assert zones[..|zones|] == zones;
  }

  /** `_map_bucket_to_zones`; the source reads zone bounds as `Closed`. */
  method MapBucketToZones(zones: seq<Zone>, bucketMin: int, bucketMax: int, timeSec: real, bounds: Bounds)
    returns (result: map<string, real>)
    ensures result == BucketZones(zones, bucketMin, bucketMax, timeSec, bounds)
  {
    result := map[];
    if timeSec <= 0.0 {
      return;
    }
    if bucketMin == 0 && bucketMax == 0 {
      result := result[Recovery := timeSec];
      return;
    }
    var hi := bucketMax;
    if hi == -1 {
      hi := MaxInt(bucketMin + 50, 1000);
    }
    var width := hi - bucketMin;
    if width <= 0 {
      for i := 0 to |zones|
        invariant FirstContaining(zones, bucketMin, 0) == FirstContaining(zones, bucketMin, i)
      {
        if zones[i].lo <= bucketMin <= zones[i].hi {
          result := result[zones[i].name := timeSec];
          return;
        }
      }
      result := result[Neuromuscular := timeSec];
      return;
    }
    result := SpreadOverlaps(zones, bucketMin, hi, timeSec, bounds);
    if |result| == 0 {
      result := map[Recovery := timeSec];
    }
  }

  // ---------------------------------------------------------------------
  // Properties
  // ---------------------------------------------------------------------

  /** No time, no zones; the 0 W bucket goes to recovery whole. */
  lemma EarlyReturns(zones: seq<Zone>, bucketMin: int, bucketMax: int, timeSec: real, bounds: Bounds)
    ensures timeSec <= 0.0 ==> BucketZones(zones, bucketMin, bucketMax, timeSec, bounds) == map[]
    ensures timeSec > 0.0 && bucketMin == 0 && bucketMax == 0 ==>
      BucketZones(zones, bucketMin, bucketMax, timeSec, bounds) == map[Recovery := timeSec]
  {
  }

  /** A bucket with no width goes whole to the first zone containing its minimum, else to neuromuscular. */
  lemma PointBucket(zones: seq<Zone>, bucketMin: int, bucketMax: int, timeSec: real, bounds: Bounds)
    requires timeSec > 0.0 && !(bucketMin == 0 && bucketMax == 0)
    requires EffectiveMax(bucketMin, bucketMax) <= bucketMin
    ensures var r := BucketZones(zones, bucketMin, bucketMax, timeSec, bounds);
      |r.Keys| == 1 && forall name :: name in r ==> r[name] == timeSec
    ensures (forall i :: 0 <= i < |zones| ==> !Contains(zones[i], bucketMin)) ==>
      BucketZones(zones, bucketMin, bucketMax, timeSec, bounds) == map[Neuromuscular := timeSec]
  {
    var r := BucketZones(zones, bucketMin, bucketMax, timeSec, bounds);
    match FirstContaining(zones, bucketMin, 0)
    case Some(k) =>
      assert r.Keys == {zones[k].name};
    case None =>
      assert r.Keys == {Neuromuscular};
  }

  /** Every positive amount of time lands somewhere: the result is never empty. */
  lemma NeverEmpty(zones: seq<Zone>, bucketMin: int, bucketMax: int, timeSec: real, bounds: Bounds)
    requires timeSec > 0.0
    ensures BucketZones(zones, bucketMin, bucketMax, timeSec, bounds) != map[]
  {
    var r := BucketZones(zones, bucketMin, bucketMax, timeSec, bounds);
    if bucketMin == 0 && bucketMax == 0 {
      assert Recovery in r;
    } else if EffectiveMax(bucketMin, bucketMax) - bucketMin <= 0 {
      match FirstContaining(zones, bucketMin, 0)
      case Some(k) => assert zones[k].name in r;
      case None => assert Neuromuscular in r;
    } else {
      var spread := Spread(zones, bucketMin, EffectiveMax(bucketMin, bucketMax), timeSec, bounds);
      if spread == map[] {
        assert Recovery in r;
      }
    }
  }

  // ---------------------------------------------------------------------
  // Conservation of time
  // ---------------------------------------------------------------------

  /** The seconds the result assigns to the zones' names, summed in zone order. */
  function SumOver(zones: seq<Zone>, m: map<string, real>): real {
    if zones == [] then 0.0
    else SumOver(zones[..|zones| - 1], m) + Get(m, zones[|zones| - 1].name)
  }

  /** The overlap widths summed over the zones (zero where a zone misses the bucket). */
  function TotalOverlap(zones: seq<Zone>, bucketMin: int, hi: int, bounds: Bounds): int {
    if zones == [] then 0
    else
      var o := Overlap(zones[|zones| - 1], bucketMin, hi, bounds);
      TotalOverlap(zones[..|zones| - 1], bucketMin, hi, bounds) + (if o.Some? then o.value else 0)
  }

  ghost predicate DistinctNames(zones: seq<Zone>) {
    forall i, j :: 0 <= i < j < |zones| ==> zones[i].name != zones[j].name
  }

  /** Each zone begins one watt after the previous one ends, and none is empty. */
  ghost predicate Contiguous(zones: seq<Zone>) {
    && (forall i :: 0 <= i < |zones| ==> zones[i].lo <= zones[i].hi)
    && (forall i :: 0 < i < |zones| ==> zones[i].lo == zones[i - 1].hi + 1)
  }

  /** A name that none of `zones` carries does not affect their sum. */
  lemma {:induction false} SumOverIgnores(zones: seq<Zone>, m: map<string, real>, name: string, x: real)
    requires forall i :: 0 <= i < |zones| ==> zones[i].name != name
    ensures SumOver(zones, m[name := x]) == SumOver(zones, m)
  {
    if zones != [] {
      SumOverIgnores(zones[..|zones| - 1], m, name, x);
    }
  }

  /** A name no zone carries gets nothing. */
  lemma {:induction false} SpreadOmits(zones: seq<Zone>, bucketMin: int, hi: int, timeSec: real, bounds: Bounds, name: string)
    requires hi > bucketMin
    requires forall i :: 0 <= i < |zones| ==> zones[i].name != name
    ensures name !in Spread(zones, bucketMin, hi, timeSec, bounds)
  {
    if zones != [] {
      SpreadOmits(zones[..|zones| - 1], bucketMin, hi, timeSec, bounds, name);
    }
  }

  /** Shares of the same bucket add up as their overlaps do. */
  lemma ShareAdds(a: int, b: int, width: int, timeSec: real)
    requires width > 0
    ensures Share(a, width, timeSec) + Share(b, width, timeSec) == Share(a + b, width, timeSec)
  {
    assert (a as real) / (width as real) + (b as real) / (width as real) == ((a + b) as real) / (width as real);
  }

  /** With distinct names, the spread assigns each zone exactly its own share. */
  lemma {:induction false} SpreadSums(zones: seq<Zone>, bucketMin: int, hi: int, timeSec: real, bounds: Bounds)
    requires hi > bucketMin && DistinctNames(zones)
    ensures SumOver(zones, Spread(zones, bucketMin, hi, timeSec, bounds))
      == Share(TotalOverlap(zones, bucketMin, hi, bounds), hi - bucketMin, timeSec)
  {
    var w := hi - bucketMin;
    if zones == [] {
      assert Share(0, w, timeSec) == 0.0;
    } else {
      var front := zones[..|zones| - 1];
      var last := zones[|zones| - 1];
      assert DistinctNames(front);
      assert forall i :: 0 <= i < |front| ==> front[i].name != last.name by {
        forall i | 0 <= i < |front| ensures front[i].name != last.name {
          assert front[i] == zones[i];
        }
      }
      var s := Spread(front, bucketMin, hi, timeSec, bounds);
      SpreadSums(front, bucketMin, hi, timeSec, bounds);
      SpreadOmits(front, bucketMin, hi, timeSec, bounds, last.name);
      var o := Overlap(last, bucketMin, hi, bounds);
      var ov := if o.Some? then o.value else 0;
      var t := TotalOverlap(front, bucketMin, hi, bounds);
      var r := Spread(zones, bucketMin, hi, timeSec, bounds);
      if o.Some? {
        SumOverIgnores(front, s, last.name, Share(ov, w, timeSec));
      }
      assert SumOver(front, r) == SumOver(front, s);
      assert Get(r, last.name) == Share(ov, w, timeSec);
      ShareAdds(t, ov, w, timeSec);
    }
  }

  /**
   * Half-open contiguous zones from `zones[0].lo` to `last.hi + 1` overlap a
   * bucket [bucketMin, hi) in exactly the part of it they cover.
   */
  lemma {:induction false} TilingOverlap(zones: seq<Zone>, bucketMin: int, hi: int)
    requires zones != [] && Contiguous(zones) && bucketMin < hi
    ensures zones[0].lo <= zones[|zones| - 1].hi
    ensures TotalOverlap(zones, bucketMin, hi, HalfOpen)
      == MaxInt(0, MinInt(hi, zones[|zones| - 1].hi + 1) - MaxInt(bucketMin, zones[0].lo))
  {
    var front := zones[..|zones| - 1];
    if front != [] {
      assert Contiguous(front);
      TilingOverlap(front, bucketMin, hi);
      assert zones[|zones| - 1].lo == front[|front| - 1].hi + 1;
    }
  }

  /** Contiguous, distinctly named zones covering [bucketMin, hi) receive all of the time between them. */
  lemma HalfOpenSpreadConserves(zones: seq<Zone>, bucketMin: int, hi: int, timeSec: real)
    requires zones != [] && Contiguous(zones) && DistinctNames(zones)
    requires zones[0].lo <= bucketMin < hi <= zones[|zones| - 1].hi + 1
    ensures SumOver(zones, Spread(zones, bucketMin, hi, timeSec, HalfOpen)) == timeSec
  {
    var w := hi - bucketMin;
    TilingOverlap(zones, bucketMin, hi);
    SpreadSums(zones, bucketMin, hi, timeSec, HalfOpen);
    assert TotalOverlap(zones, bucketMin, hi, HalfOpen) == w;
    ShareWhole(w, timeSec);
  }

  /** The whole bucket's overlap earns the whole of its time. */
  lemma ShareWhole(width: int, timeSec: real)
    requires width > 0
    ensures Share(width, width, timeSec) == timeSec
  {
    var x := width as real;
    assert x / x == 1.0;
  }

  /**
   * Corrected: with contiguous, distinctly named zones covering the bucket,
   * the half-open reading hands out exactly the bucket's seconds.
   */
  lemma HalfOpenConservesTime(zones: seq<Zone>, bucketMin: int, bucketMax: int, timeSec: real)
    requires timeSec > 0.0 && zones != [] && Contiguous(zones) && DistinctNames(zones)
    requires bucketMin < EffectiveMax(bucketMin, bucketMax)
    requires zones[0].lo <= bucketMin && EffectiveMax(bucketMin, bucketMax) <= zones[|zones| - 1].hi + 1
    ensures SumOver(zones, BucketZones(zones, bucketMin, bucketMax, timeSec, HalfOpen)) == timeSec
  {
    var hi := EffectiveMax(bucketMin, bucketMax);
    var spread := Spread(zones, bucketMin, hi, timeSec, HalfOpen);
    HalfOpenSpreadConserves(zones, bucketMin, hi, timeSec);
    EmptySum(zones);
    assert spread != map[];
  }

  /** Nothing assigned sums to nothing. */
  lemma {:induction false} EmptySum(zones: seq<Zone>)
    ensures SumOver(zones, map[]) == 0.0
  {
    if zones != [] {
      EmptySum(zones[..|zones| - 1]);
    }
  }

  /**
   * As written: a 50 W bucket [200, 250] over the zones [197, 236] and
   * [237, 275] credits 36 W and 13 W of it, so 1 s of its 50 s is lost.
   */
  lemma ClosedBoundsLoseTime()
    ensures var zones := [Zone("tempo", 197, 236), Zone("threshold", 237, 275)];
      SumOver(zones, BucketZones(zones, 200, 250, 50.0, Closed)) == 49.0
    ensures var zones := [Zone("tempo", 197, 236), Zone("threshold", 237, 275)];
      SumOver(zones, BucketZones(zones, 200, 250, 50.0, HalfOpen)) == 50.0
  {
    var zones := [Zone("tempo", 197, 236), Zone("threshold", 237, 275)];
    assert zones[..1] == [zones[0]];
    assert [zones[0]][..0] == [];
    assert Overlap(zones[0], 200, 250, Closed) == Some(36);
    assert Overlap(zones[1], 200, 250, Closed) == Some(13);
    assert Overlap(zones[0], 200, 250, HalfOpen) == Some(37);
    assert Overlap(zones[1], 200, 250, HalfOpen) == Some(13);
    assert Share(36, 50, 50.0) == 36.0 && Share(37, 50, 50.0) == 37.0 && Share(13, 50, 50.0) == 13.0;
    assert Spread([zones[0]], 200, 250, 50.0, Closed) == map["tempo" := 36.0];
    assert Spread(zones, 200, 250, 50.0, Closed) == map["tempo" := 36.0, "threshold" := 13.0];
    assert Spread([zones[0]], 200, 250, 50.0, HalfOpen) == map["tempo" := 37.0];
    assert Spread(zones, 200, 250, 50.0, HalfOpen) == map["tempo" := 37.0, "threshold" := 13.0];
  }
}
