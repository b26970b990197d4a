/**
 * Two of the dashboard's insight figures: the adherence streak (leading
 * completed workouts among the 30 most recent planned ones) and the HRV
 * threshold (the 25th-percentile HRV of the days whose workout scored at
 * least 80).
 */
module Insights {
  // ---------------------------------------------------------------------
  // Adherence streak
  // ---------------------------------------------------------------------

  /** The query's `LIMIT 30`. */
  const RecentLimit: nat := 30

  function MinNat(a: nat, b: nat): nat { if a <= b then a else b }

  /** The number of leading `true`s. */
  function LeadingRun(s: seq<bool>): nat {
    if s == [] || !s[0] then 0 else 1 + LeadingRun(s[1..])
  }

  /** `LeadingRun` counts exactly the `true`s before the first `false` (or the end). */
  lemma {:induction false} LeadingRunIsFirstGap(s: seq<bool>)
    ensures LeadingRun(s) <= |s|
    ensures forall i :: 0 <= i < LeadingRun(s) ==> s[i]
    ensures LeadingRun(s) < |s| ==> !s[LeadingRun(s)]
  {
    if s != [] && s[0] {
      LeadingRunIsFirstGap(s[1..]);
    }
  }

  /**
   * The streak loop over the planned workouts' completion flags, newest
   * first: it counts completed workouts among the 30 most recent and stops
   * at the first one not completed.
   */
  method Streak(completed: seq<bool>) returns (streak: nat)
    ensures streak == LeadingRun(completed[..MinNat(RecentLimit, |completed|)])
  {
    var recent := completed[..MinNat(RecentLimit, |completed|)];
    streak := 0;
    var i := 0;
    while i < |recent|
      invariant 0 <= i <= |recent| && streak == i
      invariant LeadingRun(recent) == i + LeadingRun(recent[i..])
    {
      if recent[i] {
        streak := streak + 1;
      } else {
        break;
      }
      assert recent[i..][1..] == recent[i + 1..];
      i := i + 1;
    }
  }

  /**
   * The streak is at most 30 and at most the number of planned workouts;
   * the newest `streak` workouts were all completed; and unless the streak
   * ran out of workouts, the next one was not.
   */
  lemma StreakMeaning(completed: seq<bool>)
    ensures var n := MinNat(RecentLimit, |completed|);
      var streak := LeadingRun(completed[..n]);
      && streak <= RecentLimit && streak <= |completed|
      && (forall i :: 0 <= i < streak ==> completed[i])
      && (streak < n ==> !completed[streak])
  {
    var n := MinNat(RecentLimit, |completed|);
    LeadingRunIsFirstGap(completed[..n]);
  }

  // ---------------------------------------------------------------------
  // HRV threshold
  // ---------------------------------------------------------------------

  /** A day with both an HRV reading and a workout quality. */
  datatype DayPerf = DayPerf(hrv: real, quality: real)

  /** The quality from which a workout counts as good. */
  const GoodQuality: real := 80.0
  /** The threshold reported when there are no good days. */
  const DefaultThreshold: real := 30.0

  /** `good_hrv_data`: the HRV of each day whose quality is at least 80, in order. */
  function GoodHrv(days: seq<DayPerf>): (good: seq<real>)
    ensures |good| <= |days|
  {
    if days == [] then []
    else if days[0].quality >= GoodQuality then [days[0].hrv] + GoodHrv(days[1..])
    else GoodHrv(days[1..])
  }

  predicate Sorted(s: seq<real>) {
    forall i, j :: 0 <= i < j < |s| ==> s[i] <= s[j]
  }

  /** How many elements of `s` lie below `v`. */
  function CountBelow(s: seq<real>, v: real): nat {
    if s == [] then 0 else (if s[0] < v then 1 else 0) + CountBelow(s[1..], v)
  }

  /** How many elements of `s` are at most `v`. */
  function CountUpTo(s: seq<real>, v: real): nat {
    if s == [] then 0 else (if s[0] <= v then 1 else 0) + CountUpTo(s[1..], v)
  }

  /** `x` placed into sorted `s` before the first larger-or-equal element. */
  function Insert(x: real, s: seq<real>): (r: seq<real>)
    ensures |r| == |s| + 1
  {
    if s == [] || x <= s[0] then [x] + s else [s[0]] + Insert(x, s[1..])
  }

  /** Python's `sorted`: an insertion sort. */
  function Sort(s: seq<real>): (r: seq<real>)
    ensures |r| == |s|
  {
    if s == [] then [] else Insert(s[0], Sort(s[1..]))
  }

  /** `sorted_hrv[len(sorted_hrv) // 4]`, or 30 without good days. */
  function HrvThreshold(days: seq<DayPerf>): real {
    var good := GoodHrv(days);
    if good == [] then DefaultThreshold else Sort(good)[|good| / 4]
  }

  /** Inserting keeps a sorted sequence sorted. */
  lemma {:induction false} InsertSorted(x: real, s: seq<real>)
    requires Sorted(s)
    ensures Sorted(Insert(x, s))
    ensures Insert(x, s) != [] && (Insert(x, s)[0] == x || (s != [] && Insert(x, s)[0] == s[0]))
  {
    if s != [] && x > s[0] {
      InsertSorted(x, s[1..]);
      var r := Insert(x, s);
      assert r == [s[0]] + Insert(x, s[1..]);
      forall i, j | 0 <= i < j < |r| ensures r[i] <= r[j] {
        if i == 0 {
          assert r[j] in Insert(x, s[1..]);
          InsertMembers(x, s[1..], r[j]);
        }
      }
    }
  }

  /** Every element of an insertion is `x` or came from `s`. */
  lemma {:induction false} InsertMembers(x: real, s: seq<real>, y: real)
    requires y in Insert(x, s)
    ensures y == x || y in s
  {
    if s != [] && x > s[0] {
      if y != s[0] {
        InsertMembers(x, s[1..], y);
      }
    }
  }

  /** Inserting `x` adds one to each count exactly when `x` is counted. */
  lemma {:induction false} InsertCounts(x: real, s: seq<real>, v: real)
    ensures CountBelow(Insert(x, s), v) == CountBelow(s, v) + (if x < v then 1 else 0)
    ensures CountUpTo(Insert(x, s), v) == CountUpTo(s, v) + (if x <= v then 1 else 0)
  {
    if s != [] && x > s[0] {
      InsertCounts(x, s[1..], v);
      assert Insert(x, s)[1..] == Insert(x, s[1..]);
    } else {
      assert Insert(x, s)[1..] == s;
    }
  }

  /** Sorting yields a sorted sequence with the same counts below and up to any value. */
  lemma {:induction false} SortCorrect(s: seq<real>, v: real)
    ensures Sorted(Sort(s))
    ensures CountBelow(Sort(s), v) == CountBelow(s, v)
    ensures CountUpTo(Sort(s), v) == CountUpTo(s, v)
  {
    if s != [] {
      SortCorrect(s[1..], v);
      InsertSorted(s[0], Sort(s[1..]));
      InsertCounts(s[0], Sort(s[1..]), v);
    }
  }

  /** Nothing in `s` below `v` counts nothing below `v`. */
  lemma {:induction false} NoneBelow(s: seq<real>, v: real)
    requires forall i :: 0 <= i < |s| ==> v <= s[i]
    ensures CountBelow(s, v) == 0
  {
    if s != [] {
      NoneBelow(s[1..], v);
    }
  }

  /** In a sorted sequence, fewer than `k + 1` elements lie below `s[k]` and more than `k` are at most `s[k]`. */
  lemma {:induction false} SortedRank(s: seq<real>, k: nat)
    requires Sorted(s) && k < |s|
    ensures CountBelow(s, s[k]) <= k
    ensures CountUpTo(s, s[k]) >= k + 1
  {
    var t := s[1..];
    assert Sorted(t);
    if k == 0 {
      NoneBelow(t, s[0]);
    } else {
      assert s[k] == t[k - 1];
      SortedRank(t, k - 1);
    }
  }

  /**
   * With at least one good day, the threshold is the 25th percentile of the
   * good days' HRV in the sense of `len // 4`: at most `len // 4` good days
   * lie below it and more than `len // 4` are at or below it (so it is one
   * of the good readings). Without good days it is 30.
   */
  lemma HrvThresholdRank(days: seq<DayPerf>)
    ensures GoodHrv(days) == [] ==> HrvThreshold(days) == DefaultThreshold
    ensures var good := GoodHrv(days);
      var r := HrvThreshold(days);
      good != [] ==> CountBelow(good, r) <= |good| / 4 < CountUpTo(good, r)
  {
    var good := GoodHrv(days);
    if good != [] {
      var r := HrvThreshold(days);
      SortCorrect(good, r);
      SortedRank(Sort(good), |good| / 4);
    }
  }

  /**
   * The good list is a filter: over two stretches of days it is the two
   * stretches' good lists in order, and a single day contributes its HRV
   * exactly when its quality is at least 80.
   */
  lemma {:induction false} GoodHrvFilters(a: seq<DayPerf>, b: seq<DayPerf>)
    ensures GoodHrv(a + b) == GoodHrv(a) + GoodHrv(b)
    ensures forall d :: GoodHrv([d]) == if d.quality >= GoodQuality then [d.hrv] else []
  {
    if a != [] {
      GoodHrvFilters(a[1..], b);
      assert (a + b)[1..] == a[1..] + b;
    } else {
      assert a + b == b;
    }
    forall d ensures GoodHrv([d]) == if d.quality >= GoodQuality then [d.hrv] else [] {
      assert [d][1..] == [];
    }
  }
}
