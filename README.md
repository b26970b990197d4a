# Cycling training core in Dafny

This project models the computational core of a cycling-training tool. The
tool keeps a Performance Management Chart (PMC) and derives several figures
from it and from the workout history. The model covers:

- **PMC engine** (`pmc.dfy`). This is `_calc_pmc_inner`. Chronic training
  load (CTL, 42 days) and acute training load (ATL, 7 days) are
  exponentially weighted averages of the daily training stress (TSS). Form
  is TSB = CTL − ATL. A run either walks forward from an anchor row (the
  latest stored row, when its CTL exceeds 10) or restarts from zero at the
  first workout date. Either way it walks day by day through today, and the
  rows are upserted into the `training_load` table. The table is a
  `map<int, LoadPoint>` keyed by day number. The daily loop is a method
  (`ForwardFill`) proved equal to the specification function `Walk`. The
  whole run is `CalcPmc`, proved equal to `PmcRun`.
- **Workout quality score** (`quality.dfy`): `calc_workout_quality`.
- **Flat-ground speed solver** (`speed.dfy`). This is `_calc_speed_kph`, a
  50-step guarded Newton iteration on the power equation.
- **Power-zone bucket mapping** (`power_zones.dfy`): `_map_bucket_to_zones`.
  It spreads a power bucket's time over the coach's zones in proportion to
  their overlap.
- **Taper projection and training phase** (`taper.dfy`). This covers
  `cmd_taper` and the identical loop in the dashboard.
- **FTP projection** (`ftp_projection.dfy`). This covers the linear
  projection of `ftp_project`, the dashboard's projected race FTP and its
  month-by-month FTP list.
- **Workout zone classification** (`workout_zones.dfy`). This covers
  `_classify_zone` and the dashboard's fallback accounting of hours per
  zone.
- **Dashboard insights** (`insights.dfy`): the adherence streak and the HRV
  threshold.
- **Workout structure description** (`workout_structure.dfy`):
  `_parse_structure` in the coaching module.
- **Environment file loader** (`env_file.dfy`): `load_env`.

Two support modules model the Python built-ins the code relies on:

- `text.dfy`: `strip`, `lower`, `in`, `join` and `str(int)`.
- `numeric.dfy`: `int()` truncation and `round()` with ties to even.

`wrappers.dfy` holds the `Option` type.

Loops in the source are methods with loop invariants. Each method is proved
equal to a specification function. The promises are then proved as lemmas
about that function: the recurrence, history preservation, conservation of
time and hours, the round trips, and the bounds.

## Model

| member | source | states |
|---|---|---|
| EnvFile.IndexOf | cycling_training.py:211 | None exactly when `=` is absent; otherwise the index of the first `=` (none before it) |
| EnvFile.IndexOfFirst | cycling_training.py:211 | an `=` with no `=` before it is the one the split uses |
| EnvFile.LoadEnv | cycling_training.py:205-213 | a missing file gives no settings; otherwise the settings are the fold of the parsed lines, later lines overriding earlier ones |
| EnvFile.SettingsStep | cycling_training.py:208-212 | each line applies its parsed entry on top of the settings of the lines before it |
| EnvFile.ParseLineRoundTrip | cycling_training.py:209-212 | a line `KEY=value` with a plain key and value parses back to exactly that key and value |
| EnvFile.QuotedValue | cycling_training.py:212 | `KEY="value"` parses to the same value as `KEY=value` |
| EnvFile.KeyValueLine | cycling_training.py:210-212 | a stripped line with a plain key splits at the `=` after the key, with the value stripped of spaces and then of double quotes |
| EnvFile.ParseLineCases | cycling_training.py:209-212 | blank, `#` and `=`-less lines give nothing; any other line splits at its first `=` with both halves stripped |
| EnvFile.StripQuotes | cycling_training.py:212 | stripping double quotes from `"v"` gives back a plain `v` |
| EnvFile.SkippedLines | cycling_training.py:209-210 | blank lines, comment lines and lines without `=` set nothing |
| EnvFile.LastLineWins | cycling_training.py:208-212 | if line i sets k to v and no later line sets k, the result maps k to v |
| EnvFile.KeysFromEntries | cycling_training.py:208-212 | a key is set iff some line sets it, and its value is the one from the last line that sets it |
| Text.TrimStart | cycling_training.py:209 | the result is a suffix; everything removed is droppable; the result does not start with a droppable character |
| Text.TrimEnd | cycling_training.py:209 | the result is a prefix; everything removed is droppable; the result does not end with a droppable character |
| Text.StripUnpaddedResult | cycling_training.py:209 | after a strip, neither end holds whitespace (or the stripped character) |
| Text.StripUnpadded | cycling_training.py:212 | a string with nothing to strip is unchanged by the strip |
| Text.StripIdempotent | cycling_training.py:209-212 | stripping twice is the same as stripping once |
| Text.Lower | dashboard_generator.py:107 | same length; each character lowered by ASCII `lower()` |
| Text.ContainsInside | dashboard_generator.py:108-117 | a keyword is found in any title that contains it |
| Text.Join | coaching_llm.py:78 | joining nothing gives the empty string; joining one part gives that part |
| Text.JoinLength | coaching_llm.py:78 | the joined length is the parts' total plus one separator between each pair |
| Text.NatToString | coaching_llm.py:69 | `str(n)` is a non-empty string of decimal digits |
| Text.NatToStringRoundTrip | coaching_llm.py:75 | the digits of `str(n)` read back as n |
| Text.IntToString | coaching_llm.py:77 | `str(n)` of any integer is non-empty |
| Text.IntToStringRoundTrip | coaching_llm.py:75 | `int(str(n)) == n` for every integer, so distinct counts print distinctly |
| Numeric.Trunc | dashboard_generator.py:554 | `int(x)` truncates toward zero: the result lies within one of x, on the zero side |
| Numeric.RoundHalfEven | coaching_llm.py:67-68 | `round(x)` is within 0.5 of x, and a tie goes to the even integer |
| Numeric.RoundBetween | dashboard_generator.py:712 | rounding a value between two integers stays between them |
| Numeric.RoundMonotone | coaching_llm.py:67-68 | rounding is monotone |
| Numeric.RoundInteger | dashboard_generator.py:712 | rounding an integer leaves it unchanged |
| Quality.TssAdherence | cycling_training.py:411 | TSS adherence is at most 100, and exactly 100 once the actual TSS reaches 1.2 times the plan |
| Quality.IfAdherence | cycling_training.py:412 | for a positive planned IF: at most 100, and exactly 100 iff the actual IF equals the plan |
| Quality.Score | cycling_training.py:411-413 | the score is clamped to [0, 100] |
| Quality.WorkoutQuality | cycling_training.py:405-413 | None iff an input is missing or the planned TSS or IF is zero; otherwise a score in [0, 100] |
| Quality.FullScore | cycling_training.py:411-413 | the score is 100 iff actual TSS ≥ 1.2 × planned and actual IF = planned IF |
| Quality.OnPlanScore | cycling_training.py:411-413 | riding exactly the plan scores 275/3 (≈ 91.7), not 100 |
| Quality.ExampleScore | cycling_training.py:405-413 | plan 100 TSS at IF 0.80, ridden as 110 at 0.78, scores 1135/12 |
| Quality.MoreTssNeverLowers | cycling_training.py:411-413 | more actual TSS never lowers the score |
| Speed.NewtonStep | cycling_training.py:2135-2141 | the Newton update v − f/f′, replaced by 1 m/s when it is negative; so a step never yields a negative speed, and a non-negative root is a fixed point |
| Speed.SpeedKph | cycling_training.py:2126-2142 | the 50-iteration loop (with its early exit on a zero derivative) returns the iterate from 8 m/s, times 3.6 |
| Speed.SolveNonNegative | cycling_training.py:2134-2141 | iterating from a non-negative speed stays non-negative |
| Speed.SpeedNonNegative | cycling_training.py:2140-2142 | the reported speed is never negative |
| Speed.RootIsFixed | cycling_training.py:2135-2139 | iteration started at a root stays there |
| Speed.FlatSlopeStops | cycling_training.py:2137-2138 | a zero derivative stops the loop at the current speed |
| Speed.DegenerateRider | cycling_training.py:2133-2142 | with CdA = Crr = 0 the loop exits at once and reports the initial guess, 28.8 km/h |
| Speed.RollingOnly | cycling_training.py:2134-2141 | with no air drag, one Newton step reaches the exact root P/(Crr·m·g), which is then kept |
| PowerZones.EffectiveMax | cycling_training.py:1217-1218 | an open-ended bucket (max −1) ends at least 50 W above its minimum and at least at 1000 W; others keep their maximum |
| PowerZones.FirstContaining | cycling_training.py:1223-1226 | the first zone whose closed range holds the watts, and None iff no zone holds them |
| PowerZones.Overlap | cycling_training.py:1231-1235 | an overlap width is never negative |
| PowerZones.SpreadStep | cycling_training.py:1230-1238 | each zone adds its share on top of the previous zones' result |
| PowerZones.SpreadOverlaps | cycling_training.py:1230-1238 | the zone loop computes the proportional spread |
| PowerZones.MapBucketToZones | cycling_training.py:1202-1244 | the whole mapping, early returns included, equals the specification `BucketZones` |
| PowerZones.EarlyReturns | cycling_training.py:1208-1214 | no time gives an empty result; the 0 W/0 W bucket goes entirely to recovery |
| PowerZones.PointBucket | cycling_training.py:1220-1228 | a zero-width bucket goes entirely to one zone, and to neuromuscular when no zone holds it |
| PowerZones.NeverEmpty | cycling_training.py:1240-1243 | positive time always lands in some zone |
| PowerZones.SpreadOmits | cycling_training.py:1230-1238 | the spread only names the coach's zones |
| PowerZones.ShareAdds | cycling_training.py:1237-1238 | shares of two overlaps add up to the share of their sum |
| PowerZones.SpreadSums | cycling_training.py:1230-1238 | the time spread over the zones is the bucket's time times the total overlap over the bucket width |
| PowerZones.TilingOverlap | cycling_training.py:1231-1235 | with half-open bounds, contiguous zones overlap a bucket by exactly its intersection with their span |
| PowerZones.HalfOpenSpreadConserves | cycling_training.py:1230-1238 | with half-open bounds, a bucket inside contiguous zones is spread without loss |
| PowerZones.ShareWhole | cycling_training.py:1237 | a full-width overlap takes all of the time |
| PowerZones.HalfOpenConservesTime | cycling_training.py:1202-1244 | corrected mapping: every second of a bucket inside the zones is assigned |
| PowerZones.ClosedBoundsLoseTime | cycling_training.py:1231-1236 | as written, bucket [200, 250] over zones [197, 236] and [237, 275] assigns 49 of 50 s |
| WorkoutZones.ContainsAnyMember | dashboard_generator.py:108 | a keyword of a list found in the title makes the list match |
| WorkoutZones.ThresholdKeywordWins | dashboard_generator.py:107-109 | a threshold keyword anywhere in the lower-cased title classifies as Threshold/VO2, whatever the IF |
| WorkoutZones.NoKeywordUsesIf | dashboard_generator.py:118-129 | without any keyword, the IF decides, and a missing IF gives "Other High Int." |
| WorkoutZones.IfClassMonotone | dashboard_generator.py:119-129 | a higher IF never gets an easier class; the bands start exactly at 0.56, 0.76, 0.84 and 0.91 |
| WorkoutZones.UntitledLowIf | dashboard_generator.py:105-129 | an untitled ride at IF 0.5 classifies as "Other High Int." |
| WorkoutZones.FallbackStep | dashboard_generator.py:469-488 | each workout adds its hours to the zones of its class |
| WorkoutZones.CreditWorkout | dashboard_generator.py:475-488 | one class's hours are credited as the branch table says |
| WorkoutZones.FallbackZoneHours | dashboard_generator.py:459-488 | the loop computes the specification fold over the workouts |
| WorkoutZones.CreditTotal | dashboard_generator.py:476-486 | crediting a zone raises the total by exactly the credited hours |
| WorkoutZones.AddHoursConserves | dashboard_generator.py:475-488 | every class's split (0.6/0.4, 0.7/0.3, whole) credits exactly the workout's hours |
| WorkoutZones.FallbackConserves | dashboard_generator.py:460-488 | the zone hours add up to the workouts' hours |
| WorkoutZones.AddHoursSkipsEnds | dashboard_generator.py:475-488 | no class credits Recovery or Neuromuscular |
| WorkoutZones.FallbackSkipsEnds | dashboard_generator.py:460-488 | Recovery and Neuromuscular stay at 0 hours |
| WorkoutZones.MissingIfAsDefault | dashboard_generator.py:472-473 | a missing or zero IF counts as 0.65, that is, TSS/42.25 hours |
| WorkoutZones.LowIfCountsAnaerobic | dashboard_generator.py:469-484 | an untitled ride at IF 0.5 puts TSS/25 hours in Anaerobic |
| Insights.Streak | dashboard_generator.py:596-606 | the loop returns the number of leading completed workouts among the 30 most recent |
| Insights.LeadingRunIsFirstGap | dashboard_generator.py:601-606 | the count covers only completed workouts and stops at the first one not completed |
| Insights.StreakMeaning | dashboard_generator.py:596-606 | the streak is at most 30; the newest `streak` workouts were completed; the next one (if within the 30) was not |
| Insights.GoodHrvFilters | dashboard_generator.py:623 | the good list is an order-keeping filter: a day contributes its HRV iff its quality is at least 80 |
| Insights.InsertSorted | dashboard_generator.py:629 | insertion keeps a sorted list sorted |
| Insights.InsertMembers | dashboard_generator.py:629 | insertion adds no element other than the inserted one |
| Insights.InsertCounts | dashboard_generator.py:629 | insertion changes each count by exactly the inserted element |
| Insights.SortCorrect | dashboard_generator.py:629 | `sorted` gives a sorted list with the same counts below and up to every value |
| Insights.SortedRank | dashboard_generator.py:630 | in a sorted list, at most k elements lie below `s[k]` and more than k lie at or below it |
| Insights.HrvThresholdRank | dashboard_generator.py:627-632 | 30 without good days; otherwise at most ⌊n/4⌋ good readings lie below the threshold and more than ⌊n/4⌋ at or below it |
| FtpProjection.FtpProject | cycling_training.py:882-935 | None iff there is no history; the current FTP is the latest test; the weekly gain is the one needed from it to reach the target by the target date; the next-test, race and target-date figures are the linear projections at that gain; the status is graded from that gain; a historical rate iff there are two or more tests |
| FtpProjection.ReachesTarget | cycling_training.py:903-910 | with a week or more to go, the projection hits the target exactly on the target date |
| FtpProjection.PastIsCurrent | cycling_training.py:907-913 | a date already past projects the current FTP |
| FtpProjection.ProjectionBetween | cycling_training.py:903-913 | up to the target date, the projection lies between the current FTP and the target |
| FtpProjection.StatusByGap | cycling_training.py:935 | on track iff the gap is at most 1 W per week; very aggressive iff it exceeds 1.5 W per week |
| FtpProjection.RaceFtpBetween | dashboard_generator.py:708-712 | the rounded race FTP lies between the current FTP and the target |
| FtpProjection.FtpByMonth | dashboard_generator.py:543-561 | eleven entries, February to December, each the month's target |
| FtpProjection.MonthEntry | dashboard_generator.py:548-561 | one month's branch chain computes the month's target |
| FtpProjection.BasePlateau | dashboard_generator.py:549-550 | February and March hold the current FTP |
| FtpProjection.FallCapped | dashboard_generator.py:559-561 | autumn entries never exceed the target; below the target they are the truncated portion of the gap |
| FtpProjection.BuildWithin | dashboard_generator.py:553-556 | May and June lie between the current FTP and the target |
| FtpProjection.SummerUncapped | dashboard_generator.py:557-561 | the July and August entries are not capped: 250 W toward 252 W gives 253 and 255, then 251 in September |
| Taper.Schedule | cycling_training.py:2492-2505 | the projection plans a load for exactly days 0 .. days_to_race − 1 |
| Taper.ProjectRace | cycling_training.py:2488-2514 | the loop yields the projected CTL/ATL; no days leaves them unchanged; TSB = CTL − ATL; on target iff 15 ≤ TSB ≤ 25 |
| Taper.ScheduleAt | cycling_training.py:2492-2505 | each projected day gets the load of its weeks-out band |
| Taper.PlannedTss | cycling_training.py:2493-2505 | the branch chain computes the band's daily load |
| Taper.StepWalk | cycling_training.py:2506-2507 | each projected day applies the PMC recurrence to the previous day's CTL and ATL |
| Taper.StressByDaysLeft | cycling_training.py:2493-2505 | the bands by days left: >84 base, 43-84 500/7, 22-42 600/7, 15-21 60, 3-14 300/7, ≤2 easy 15 |
| Taper.ScheduleWithin | cycling_training.py:2494-2505 | every planned load lies between 15 and max(base, 600/7) |
| Taper.ProjectionWithin | cycling_training.py:2492-2508 | the projected CTL and ATL stay within any bound that covers the start values and the planned loads |
| Taper.PhaseMatchesSchedule | cycling_training.py:2519-2535 | the phase agrees with the first projected day's load; TAPER iff that load is at most 300/7 |
| Taper.NoDaysLeft | dashboard_generator.py:687-706 | with no days left, the projection is the current CTL and ATL |
| WorkoutStructure.StepParts | coaching_llm.py:56-77 | one part per step |
| WorkoutStructure.ParseStructure | coaching_llm.py:46-80 | the nested block/step loop returns the specification description |
| WorkoutStructure.FormatStep | coaching_llm.py:57-77 | one step is formatted from its minutes, name, target, repetition and note |
| WorkoutStructure.FormatTarget | coaching_llm.py:62-69 | the target text is built only for targets in percent of FTP |
| WorkoutStructure.PartsAppend | coaching_llm.py:55-77 | the parts of consecutive blocks are concatenated in order |
| WorkoutStructure.PartsSnoc | coaching_llm.py:55-77 | one more block appends its steps' parts |
| WorkoutStructure.OneBlock | coaching_llm.py:56-77 | a block yields one part per step, in order |
| WorkoutStructure.PartsCount | coaching_llm.py:54-77 | there are as many parts as steps in all blocks |
| WorkoutStructure.DescribeNone | coaching_llm.py:46-80 | None iff the text is absent or empty, does not decode, or holds no steps |
| WorkoutStructure.SingleStep | coaching_llm.py:77-78 | a single step is described by its part alone, with no separator |
| WorkoutStructure.Minutes | coaching_llm.py:58-60 | minutes are the seconds floor-divided by 60; a non-second length counts 0 |
| WorkoutStructure.TargetShown | coaching_llm.py:62-64 | a target is shown iff there are targets and the metric is percent of FTP |
| WorkoutStructure.WattsNearPercent | coaching_llm.py:67-68 | watts are within 0.5 W of the percentage of FTP, and a lower percentage never gives more watts |
| WorkoutStructure.RepShown | coaching_llm.py:74-75 | ` xN` appears iff reps > 1, and N reads back as the repetition count |
| WorkoutStructure.NoteShown | coaching_llm.py:71-72 | a note appears iff the step has non-empty notes, and then the text contains them |
| WorkoutStructure.HalfWattsToEven | coaching_llm.py:67-68 | ties round to even: 95 % of 250 W is 238 W and 105 % is 262 W |
| Pmc.LatestDay | cycling_training.py:685 | the greatest stored date |
| Pmc.LatestRow | cycling_training.py:685-686 | the anchor query returns the stored row with the greatest date, or nothing for an empty table |
| Pmc.LatestQualifyingRow | cycling_training.py:703 | corrected anchor: the latest row whose CTL exceeds 10, or nothing when none does |
| Pmc.TssByDate | cycling_training.py:701 | the stress map has exactly the dates of the workout rows |
| Pmc.FirstColdRow | cycling_training.py:742-748 | a walk seeded with CTL = ATL = 0 starts with that day's stress over 42 and over 7 |
| Pmc.TssByDateAt | cycling_training.py:701 | with ascending dates, each date maps to its row's TSS |
| Pmc.Walk | cycling_training.py:715-724 | the forward loop produces one row per day from the start date through today |
| Pmc.Upsert | cycling_training.py:726-733 | the upsert adds the run's dates, writes each result at its date, and keeps every other row |
| Pmc.UpsertSplit | cycling_training.py:726-733 | an upsert batch is its front followed by its last row, at a date of its own |
| Pmc.StartOf | cycling_training.py:703-742 | anchored: the day after the anchor, with its CTL/ATL; otherwise the first workout date with 0/0 |
| Pmc.RunFrom | cycling_training.py:695-760 | no rows: nothing changes; an anchor at or after today: nothing changes; otherwise a write |
| Pmc.ForwardFill | cycling_training.py:716-724 | the daily `while d <= today` loop computes `Walk` |
| Pmc.CalcPmc | cycling_training.py:680-760 | the whole run, anchor query included, computes `PmcRun` |
| Pmc.WalkShape | cycling_training.py:719-722 | each row holds that day's TSS (0 without workouts), and TSB = CTL − ATL |
| Pmc.WalkRecurrence | cycling_training.py:718-724 | CTL += (TSS − CTL)/42 and ATL += (TSS − ATL)/7 from the seed, then day after day |
| Pmc.WalkSplit | cycling_training.py:715-724 | a walk is its head followed by the walk resumed from the head's end state |
| Pmc.WalkWithin | cycling_training.py:718-724 | CTL and ATL stay within any bound covering the seed and all the stress values |
| Pmc.UpsertConsecutive | cycling_training.py:726-733 | writing consecutive days stores exactly them and leaves every other row |
| Pmc.RunFromWrites | cycling_training.py:703-760 | a write stores the walk from `StartOf` through today |
| Pmc.AnchoredRun | cycling_training.py:703-733 | the anchored run writes today − anchor rows, dated from the day after the anchor |
| Pmc.AnchoredRunKeepsHistory | cycling_training.py:703-733 | an anchored run changes nothing on or before the anchor |
| Pmc.UpToDateRun | cycling_training.py:695-713 | no workouts, or an anchor dated today or later, leaves the table as it was |
| Pmc.ColdStartRun | cycling_training.py:739-760 | a cold start walks from the first workout date from 0/0, so the first row has CTL = TSS/42 and ATL = TSS/7 |
| Pmc.StoreKeepsRowsConsistent | cycling_training.py:722-733 | storing a walk keeps every row keyed by its date and keeps TSB = CTL − ATL |
| Pmc.RunStores | cycling_training.py:703-760 | a writing run's table is the old table with the walk stored over it |
| Pmc.RunKeepsRowsConsistent | cycling_training.py:715-760 | every run keeps rows keyed by date and the TSB identity |
| Pmc.AnchoredRunKeepsDense | cycling_training.py:715-733 | an anchored run leaves a gap-free table gap-free |
| Pmc.AppendKeepsDense | cycling_training.py:726-733 | rows appended right after the latest stored day keep the table gap-free |
| Pmc.WalkResume | cycling_training.py:715-724 | resuming from any row of a walk reproduces the rest of the walk |
| Pmc.WalkPrefix | cycling_training.py:718 | the walk through an earlier today is a prefix of the walk through a later one |
| Pmc.RewalkAgrees | cycling_training.py:668-671 | a rerun seeded from inside the previous walk reproduces all earlier stored days |
| Pmc.RewalkSameDay | cycling_training.py:668-671 | such a rerun on the same day rewrites the table to itself |
| Pmc.QualifyingUnique | cycling_training.py:703 | the latest qualifying row is unique |
| Pmc.ResumeInsideWalk | cycling_training.py:703-724 | resuming at a stored row of the walk continues the walk |
| Pmc.QualifyingOutsideWalk | cycling_training.py:703 | if the new walk holds no qualifying row, the qualifying anchor is unchanged |
| Pmc.ResumedAgrees | cycling_training.py:703-733 | a rerun anchored inside the previous walk keeps all earlier days, and the same day changes nothing |
| Pmc.RerunResumed | cycling_training.py:703-760 | the same for the resumed case of two engine runs |
| Pmc.RerunRestarted | cycling_training.py:703-760 | the same when the second run starts where the first one did |
| Pmc.RerunKeepsFrom | cycling_training.py:665-672 | two runs with the qualifying anchor agree on all days up to the first run's today |
| Pmc.FixedRerunKeepsHistory | cycling_training.py:668-671 | corrected engine, with exact stored values: a later run keeps every earlier stored day, and a same-day rerun is idempotent |
| Pmc.FixedRunKeepsAnchor | cycling_training.py:668-671 | corrected engine: no run writes on or before its anchor (the latest row with CTL above 10), so the seeded anchor and the days before it are never overwritten |
| Pmc.AnchorKept | cycling_training.py:703-733 | a run from an anchor never changes the anchor or the days before it |
| Pmc.AnchorDemotionRewritesHistory | cycling_training.py:685-703 | as written: a table {day 5: CTL 10.2} and a rest day make the next run cold-start and rewrite day 5 |
| Pmc.FirstRunDecays | cycling_training.py:703-733 | the first run adds day 6, with CTL decayed below 10 |
| Pmc.SecondRunRestarts | cycling_training.py:739-760 | the second run finds day 6 as its anchor candidate, cold-starts, and rewrites day 5 with CTL 0 |
| Pmc.FixedAnchorKeepsHistory | cycling_training.py:668-671 | corrected: the same input keeps day 5 and a rerun changes nothing |

## Left out

- PostgreSQL. The tables are values: `training_load` is a map from day
  number to row, and a query's answer is a parameter. Transactions,
  `fetchall` and connection handling are not modelled.
- Network calls (TrainingPeaks, Strava, weather, the LLM), HTML rendering,
  printing and the command-line interface are not modelled.
- Dates are day numbers. `date.today()` is a parameter.
- Insights.Streak: the completion flags are booleans. The `completed`
  column is nullable and the source tests it by truthiness (line 602), so
  the caller maps NULL to false, which ends the streak as in the source.
- Pmc.ForwardFill: stored values are not rounded to two decimals. The
  source's `round(x, 2)` on stored CTL, ATL and TSB (lines 723 and 750) is
  left out, so the model's stored rows hold the exact recurrence values. The
  source's loop carries unrounded values but stores rounded ones. Two
  consequences follow.
  - The rerun lemmas hold only for exact stored values. These are
    Pmc.RewalkAgrees, Pmc.RewalkSameDay, Pmc.ResumedAgrees,
    Pmc.RerunResumed, Pmc.RerunKeepsFrom and Pmc.FixedRerunKeepsHistory.
    In the source, a rerun resumed at a stored row inside an earlier walk
    starts from a rounded seed. It can then rewrite the later days by about
    0.01, so same-day idempotence does not carry over.
  - The anchor test at line 703 reads the stored, rounded CTL. A CTL just
    above 10 (below 10.005) is stored as 10.0. The source then cold-starts
    where Pmc.CalcPmc anchors.
  - What survives rounding is that no run writes on or before its anchor
    (Pmc.AnchorKept, Pmc.FixedRunKeepsAnchor).
- Floats are exact reals throughout (quality, speed, zones, projections).
  Binary rounding error is not modelled.
- Speed.SpeedKph: convergence of the Newton iteration is not proved. The
  contract ties the result to the 50-step iteration. The lemmas cover
  non-negativity, fixed roots and closed-form cases.
- Strings are sequences of characters. `lower()`, `strip()` and `isspace()`
  are modelled for ASCII only. `splitlines()` is not modelled: the
  environment file is given as its list of lines.
- WorkoutStructure.ParseStructure: `json.loads` is a parameter. Text that
  does not decode is `None`.
- WorkoutStructure.ParseStructure: JSON values of the wrong type are not
  modelled. Examples are a `null` or string repetition count, a non-object
  block, or a non-integer step value, which raise `TypeError` or
  `AttributeError` in the source. Step values are integers.
- The stress values in the PMC and taper loops come from the database or
  from constants. The grouped TSS query (`COALESCE(SUM(...))`) is taken as
  its result rows.
- `config.py` is not part of this model. `COACH_ZONES` and the FTP targets
  are parameters.
- The dashboard's other statistics, the display rows (`LIMIT 7`) and the
  printed trend text are left out. So are the remaining commands (post-ride
  analysis, statistics reports, weather, coaching prompts).
- WorkoutZones.FallbackZoneHours: the query's filter (completed workouts
  with positive TSS) is not modelled. The loop is modelled over whatever
  workouts are given.
- The `else` branch at dashboard_generator.py:487-488 (a zone name not in
  the table) cannot be reached: every class `_classify_zone` returns is
  handled by an earlier branch. The model's class type leaves it out.
- The speed solver's calling scenarios (drafting bands, course penalty) are
  left out.
- A cold start walks from the first workout date through today (lines
  740-748), so the rest days after the last workout are stored too.
- The `calc_pmc` docstring (lines 666-668) speaks of the latest manually set
  anchor; the code takes the latest stored row (line 685), which can be a
  computed row; see Findings.

## Findings

| source | as written | input that shows it | evidently intended | confidence | as-written member | corrected member |
|---|---|---|---|---|---|---|
| cycling_training.py:685-703 | the anchor is the latest stored row; when its CTL has decayed to 10 or less, the run cold-starts and rewrites the whole history, the seeded anchor included | table {day 5: CTL 10.2, ATL 10.2}, one workout row (day 5, TSS 0), today = day 6, run twice: the first run stores day 6 with CTL ≈ 9.96, the second cold-starts and rewrites day 5 with CTL 0 | "Never overwrites the anchor or days before it" (lines 668-671): anchor at the latest row whose CTL exceeds 10, so no run writes on or before it; full rerun idempotence (Pmc.FixedRerunKeepsHistory) holds for exact stored values only | not executed | Pmc.AnchorDemotionRewritesHistory | Pmc.FixedRunKeepsAnchor |
| cycling_training.py:1231-1236 | overlap width is `min(max, zmax) − max(min, zmin)` with closed zone bounds, so the watt between two adjacent zones (236 to 237) is counted by neither | bucket [200, 250] with 50 s over zones [197, 236] and [237, 275]: 36/50 + 13/50 of the time, 49 s in total | all of a bucket's time assigned ("proportional splitting", line 1203; the "shouldn't happen" fallback, line 1240). One fix that conserves time treats zone ranges as half-open [zmin, zmax + 1). That fix changes the comment's own example at line 1236 from 36 W to 37 W | not executed | PowerZones.ClosedBoundsLoseTime | PowerZones.HalfOpenConservesTime |
