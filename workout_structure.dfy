/**
 * `_parse_structure` of coaching_llm.py: a planned workout's structure
 * (blocks of steps, each block possibly repeated) flattened into one line
 * of text, one part per step, joined with " → ". The JSON decoding is an
 * oracle: the caller passes the decoded structure, or `None` when the text
 * does not decode.
 */
module WorkoutStructure {
  import opened Wrappers
  import opened Text
  import opened Numeric

  /** A `length` object: its `unit` and `value` keys, either possibly absent. */
  datatype Length = Length(unit: Option<string>, value: Option<int>)

  /** One entry of a step's `targets`: `minValue` and `maxValue`. */
  datatype Target = Target(minValue: Option<int>, maxValue: Option<int>)

  /** A step; every key may be absent. */
  datatype Step = Step(name: Option<string>, length: Option<Length>,
                       targets: Option<seq<Target>>, notes: Option<string>)

  /** A block: its steps and its `length`, whose `value` is the repetition count. */
  datatype Block = Block(steps: Option<seq<Step>>, length: Option<Length>)

  /** The decoded document: `structure` and `primaryIntensityMetric`. */
  datatype Structure = Structure(structure: Option<seq<Block>>, metric: Option<string>)

  const DefaultMetric: string := "percentOfFtp"
  const DefaultName: string := "Unknown"
  const Separator: string := " → "

  function StepsOf(b: Block): seq<Step> { b.steps.GetOr([]) }
  function BlocksOf(data: Structure): seq<Block> { data.structure.GetOr([]) }
  function MetricOf(data: Structure): string { data.metric.GetOr(DefaultMetric) }

  /** The step's duration in seconds: its length's value when the unit is "second", else 0. */
  function DurationSec(step: Step): int {
    match step.length
    case None => 0
    case Some(len) => if len.unit == Some("second") then len.value.GetOr(0) else 0
  }

  /** Whole minutes, rounded down as Python's `//` does. */
  function DurationMin(step: Step): int {
    DurationSec(step) / 60
  }

  /** The watts for a percentage of FTP, rounded as Python's `round`. */
  function Watts(ftp: int, pct: int): int {
    RoundHalfEven((ftp * pct) as real / 100.0)
  }

  /** ` (low-high% FTP, lowW-highW W)` from the first target, when there are targets and the metric is percent of FTP. */
  function TargetText(step: Step, metric: string, ftp: int): string {
    var targets := step.targets.GetOr([]);
    if targets != [] && metric == DefaultMetric then
      var low := targets[0].minValue.GetOr(0);
      var high := targets[0].maxValue.GetOr(0);
      TargetLabel(low, high, Watts(ftp, low), Watts(ftp, high))
    else ""
  }

  /** The f-string ` ({low}-{high}% FTP, {low_w}-{high_w}W)`. */
  function TargetLabel(low: int, high: int, lowW: int, highW: int): string {
    " (" + IntToString(low) + "-" + IntToString(high) + "% FTP, "
      + IntToString(lowW) + "-" + IntToString(highW) + "W)"
  }

  /** The block's repetition count: its length's value, 1 when absent. */
  function Reps(b: Block): int {
    match b.length
    case None => 1
    case Some(len) => len.value.GetOr(1)
  }

  /** ` xN` for a block repeated more than once. */
  function RepText(b: Block): string {
    if Reps(b) > 1 then RepLabel(Reps(b)) else ""
  }

  /** The f-string ` x{reps}`. */
  function RepLabel(reps: int): string {
    " x" + IntToString(reps)
  }

  /** ` — "notes"` when the step has notes. */
  function NoteText(step: Step): string {
    var notes := step.notes.GetOr("");
    if notes != "" then NoteLabel(notes) else ""
  }

  /** The f-string ` — "{notes}"`. */
  function NoteLabel(notes: string): string {
    " — \"" + notes + "\""
  }

  /** The part describing one step of block `b`. */
  function StepPart(b: Block, step: Step, metric: string, ftp: int): string {
    PartText(DurationMin(step), step.name.GetOr(DefaultName), TargetText(step, metric, ftp), RepText(b), NoteText(step))
  }

  /** The f-string `{duration_min}min {name}{target_str}{rep_str}{note_str}`. */
  function PartText(minutes: int, name: string, target: string, rep: string, note: string): string {
    IntToString(minutes) + "min " + name + target + rep + note
  }

  /** The parts of the given steps of block `b`, in order. */
  function StepParts(b: Block, steps: seq<Step>, metric: string, ftp: int): (parts: seq<string>)
    ensures |parts| == |steps|
  {
    seq(|steps|, j requires 0 <= j < |steps| => StepPart(b, steps[j], metric, ftp))
  }

  /** The parts of one block's steps. */
  function BlockParts(b: Block, metric: string, ftp: int): seq<string> {
    StepParts(b, StepsOf(b), metric, ftp)
  }

  /** The parts of all steps of all blocks, block by block. */
  function Parts(blocks: seq<Block>, metric: string, ftp: int): seq<string> {
    if blocks == [] then [] else BlockParts(blocks[0], metric, ftp) + Parts(blocks[1..], metric, ftp)
  }

  /** How many steps the blocks hold together. */
  function StepCount(blocks: seq<Block>): nat {
    if blocks == [] then 0 else |StepsOf(blocks[0])| + StepCount(blocks[1..])
  }

  /**
   * What `_parse_structure` returns: nothing for absent or empty text, text
   * that does not decode, or a structure without steps; otherwise the parts
   * joined with " → ".
   */
  function Describe(raw: Option<string>, decoded: Option<Structure>, ftp: int): Option<string> {
    if raw.None? || raw.value == [] || decoded.None? then None
    else
      var data := decoded.value;
      var parts := Parts(BlocksOf(data), MetricOf(data), ftp);
      if parts == [] then None else Some(Join(parts, Separator))
  }

  /** `_parse_structure(structure_json, ftp)`, with `decoded` the result of `json.loads`. */
  method ParseStructure(raw: Option<string>, decoded: Option<Structure>, ftp: int) returns (r: Option<string>)
    ensures r == Describe(raw, decoded, ftp)
  {
    if raw.None? || raw.value == [] {
      return None;
    }
    if decoded.None? {
      return None;
    }
    var data := decoded.value;
    var blocks := data.structure.GetOr([]);
    var metric := data.metric.GetOr(DefaultMetric);
    var parts: seq<string> := [];
    for i := 0 to |blocks|
      invariant parts == Parts(blocks[..i], metric, ftp)
    {
      var block := blocks[i];
      var steps := block.steps.GetOr([]);
      ghost var before := parts;
      for j := 0 to |steps|
        invariant parts == before + StepParts(block, steps[..j], metric, ftp)
      {
        var part := FormatStep(block, steps[j], metric, ftp);
        parts := parts + [part];
        assert StepParts(block, steps[..j + 1], metric, ftp) == StepParts(block, steps[..j], metric, ftp) + [part];
      }
      assert steps[..|steps|] == steps;
      assert blocks[..i + 1] == blocks[..i] + [block];
      PartsSnoc(blocks[..i], block, metric, ftp);
    }
    assert blocks[..|blocks|] == blocks;
    if parts == [] {
      return None;
    }
    return Some(Join(parts, Separator));
  }

  /** The body of the inner loop: one step's part, piece by piece. */
  method FormatStep(block: Block, step: Step, metric: string, ftp: int) returns (part: string)
    ensures part == StepPart(block, step, metric, ftp)
  {
    var name := step.name.GetOr(DefaultName);
    var length := step.length.GetOr(Length(None, None));
    var durationSec := if length.unit == Some("second") then length.value.GetOr(0) else 0;
    var durationMin := if durationSec != 0 then durationSec / 60 else 0;
    assert durationMin == DurationMin(step);

    var targetStr := FormatTarget(step, metric, ftp);

    var notes := step.notes.GetOr("");
    var noteStr := if notes != "" then NoteLabel(notes) else "";

    var reps := match block.length case None => 1 case Some(len) => len.value.GetOr(1);
    var repStr := if reps > 1 then RepLabel(reps) else "";

    part := PartText(durationMin, name, targetStr, repStr, noteStr);
  }

  /** The target text of a step: from its first target, only for a percent-of-FTP structure. */
  method FormatTarget(step: Step, metric: string, ftp: int) returns (targetStr: string)
    ensures targetStr == TargetText(step, metric, ftp)
  {
    var targets := step.targets.GetOr([]);
    targetStr := "";
    if targets != [] && metric == DefaultMetric {
      var low := targets[0].minValue.GetOr(0);
      var high := targets[0].maxValue.GetOr(0);
      var lowW := Watts(ftp, low);
      var highW := Watts(ftp, high);
      targetStr := TargetLabel(low, high, lowW, highW);
    }
  }

  // ---------------------------------------------------------------------
  // Properties
  // ---------------------------------------------------------------------

  /** Flattening distributes over the blocks: the parts of `a + b` are those of `a`, then those of `b`. */
  lemma {:induction false} PartsAppend(a: seq<Block>, b: seq<Block>, metric: string, ftp: int)
    ensures Parts(a + b, metric, ftp) == Parts(a, metric, ftp) + Parts(b, metric, ftp)
  {
    if a == [] {
      assert a + b == b;
    } else {
      assert (a + b)[0] == a[0];
      assert (a + b)[1..] == a[1..] + b;
      PartsAppend(a[1..], b, metric, ftp);
    }
  }

  /** Appending a block appends its steps' parts. */
  lemma PartsSnoc(blocks: seq<Block>, b: Block, metric: string, ftp: int)
    ensures Parts(blocks + [b], metric, ftp) == Parts(blocks, metric, ftp) + BlockParts(b, metric, ftp)
  {
    PartsAppend(blocks, [b], metric, ftp);
    assert [b][1..] == [];
  }

  /** A single block contributes one part per step, in step order. */
  lemma OneBlock(b: Block, metric: string, ftp: int)
    ensures var parts := Parts([b], metric, ftp);
      && |parts| == |StepsOf(b)|
      && forall j :: 0 <= j < |parts| ==> parts[j] == StepPart(b, StepsOf(b)[j], metric, ftp)
  {
    assert [b][1..] == [];
  }

  /** There is exactly one part per step. */
  lemma {:induction false} PartsCount(blocks: seq<Block>, metric: string, ftp: int)
    ensures |Parts(blocks, metric, ftp)| == StepCount(blocks)
  {
    if blocks != [] {
      PartsCount(blocks[1..], metric, ftp);
    }
  }

  /**
   * The result is absent exactly when the text is absent or empty, does not
   * decode, or the structure holds no step at all.
   */
  lemma DescribeNone(raw: Option<string>, decoded: Option<Structure>, ftp: int)
    ensures Describe(raw, decoded, ftp).None? <==>
      raw.None? || raw.value == [] || decoded.None? || StepCount(BlocksOf(decoded.value)) == 0
  {
    if decoded.Some? {
      PartsCount(BlocksOf(decoded.value), MetricOf(decoded.value), ftp);
    }
  }

  /** A structure with a single step describes just that step's part, with no separator. */
  lemma SingleStep(raw: string, b: Block, metric: Option<string>, ftp: int)
    requires raw != [] && |StepsOf(b)| == 1
    ensures Describe(Some(raw), Some(Structure(Some([b]), metric)), ftp)
      == Some(StepPart(b, StepsOf(b)[0], metric.GetOr(DefaultMetric), ftp))
  {
    OneBlock(b, metric.GetOr(DefaultMetric), ftp);
  }

  /** The minutes are the seconds rounded down to whole minutes; a length in another unit counts as no time. */
  lemma Minutes(step: Step)
    ensures DurationMin(step) * 60 <= DurationSec(step) < DurationMin(step) * 60 + 60
    ensures (step.length.None? || step.length.value.unit != Some("second")) ==> DurationMin(step) == 0
  {
  }

  /** The target text appears exactly when the step has targets and the metric is percent of FTP. */
  lemma TargetShown(step: Step, metric: string, ftp: int)
    ensures TargetText(step, metric, ftp) != "" <==>
      step.targets.GetOr([]) != [] && metric == DefaultMetric
  {
  }

  /**
   * The watts shown are within half a watt of the percentage of FTP, and a
   * lower percentage never shows more watts than a higher one.
   */
  lemma WattsNearPercent(ftp: int, low: int, high: int)
    ensures -0.5 <= Watts(ftp, low) as real - (ftp * low) as real / 100.0 <= 0.5
    ensures ftp >= 0 && low <= high ==> Watts(ftp, low) <= Watts(ftp, high)
  {
    if ftp >= 0 && low <= high {
      assert ftp * low <= ftp * high by {
        MulMonotone(ftp, low, high);
      }
      RoundMonotone((ftp * low) as real / 100.0, (ftp * high) as real / 100.0);
    }
  }

  lemma MulMonotone(a: int, x: int, y: int)
    requires a >= 0 && x <= y
    ensures a * x <= a * y
  {
  }

  /** The repetition suffix appears exactly when the block repeats, and reads back as the count. */
  lemma RepShown(b: Block)
    ensures RepText(b) != "" <==> Reps(b) > 1
    ensures Reps(b) > 1 ==> RepText(b)[..2] == " x" && ParseInt(RepText(b)[2..]) == Reps(b)
  {
    if Reps(b) > 1 {
      var t := RepText(b);
      assert t[2..] == IntToString(Reps(b));
      IntToStringRoundTrip(Reps(b));
    }
  }

  /** The note appears exactly when the step has non-empty notes, and then quotes them in full. */
  lemma NoteShown(step: Step)
    ensures NoteText(step) != "" <==> step.notes.GetOr("") != ""
    ensures step.notes.GetOr("") != "" ==> Contains(NoteText(step), step.notes.value)
  {
    var notes := step.notes.GetOr("");
    if notes != "" {
      assert NoteText(step) == " — \"" + notes + "\"";
      ContainsInside(" — \"", notes, "\"");
    }
  }

  /**
   * Halves round to even, as Python's `round` does: at 95% and 105% of a
   * 250 W FTP, 237.5 W shows as 238 W and 262.5 W as 262 W.
   */
  lemma HalfWattsToEven()
    ensures Watts(250, 95) == 238 && Watts(250, 105) == 262
  {
    assert (250 * 95) as real / 100.0 == 237.5;
    assert (250 * 105) as real / 100.0 == 262.5;
  }
}
