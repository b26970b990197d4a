/**
 * `load_env` of cycling_training.py: `KEY=value` lines of an environment
 * file, skipping blank lines, comments and lines without `=`, with
 * surrounding whitespace and double quotes removed from the value; a later
 * line overrides an earlier one with the same key.
 */
module EnvFile {
  import opened Wrappers
  import opened Text

  /** The position of the first `c` in `s`, if any. */
  function IndexOf(s: string, c: char): (k: Option<nat>)
    ensures k.None? <==> c !in s
    ensures k.Some? ==> k.value < |s| && s[k.value] == c && c !in s[..k.value]
  {
    if s == [] then None
    else if s[0] == c then Some(0)
    else
      match IndexOf(s[1..], c)
      case None => None
      case Some(k) =>
        assert s[..k + 1] == [s[0]] + s[1..][..k];
        Some(k + 1)
  }

  /** The first `c` is the one with no `c` before it. */
  lemma {:induction false} IndexOfFirst(s: string, c: char, i: nat)
    requires i < |s| && s[i] == c && c !in s[..i]
    ensures IndexOf(s, c) == Some(i)
  {
    if i > 0 {
      assert s[0] in s[..i];
      assert s[1..][..i - 1] == s[1..i];
      assert s[1..i] == s[..i][1..];
      IndexOfFirst(s[1..], c, i - 1);
    }
  }

  /** One line: the key and value it sets, or nothing for a blank, comment or `=`-less line. */
  function ParseLine(raw: string): (r: Option<(string, string)>)
  {
    var line := Strip(raw);
    if line == [] || line[0] == '#' then None
    else
      match IndexOf(line, '=')
      case None => None
      case Some(k) => Some((Strip(line[..k]), StripChar(Strip(line[k + 1..]), '"')))
  }

  /** What one line contributes: a key and its value, or nothing. */
  type Entry = Option<(string, string)>

  /** Every line parsed, in file order. */
  function Parsed(lines: seq<string>): (entries: seq<Entry>)
    ensures |entries| == |lines|
    ensures forall i :: 0 <= i < |lines| ==> entries[i] == ParseLine(lines[i])
  {
    seq(|lines|, i requires 0 <= i < |lines| => ParseLine(lines[i]))
  }

  /** The settings the entries build up: each entry overrides its key. */
  function Fold(entries: seq<Entry>): map<string, string> {
    if entries == [] then map[]
    else Apply(Fold(entries[..|entries| - 1]), entries[|entries| - 1])
  }

  /** One entry applied to the settings so far. */
  function Apply(env: map<string, string>, entry: Entry): map<string, string> {
    match entry
    case None => env
    case Some(kv) => env[kv.0 := kv.1]
  }

  /** The settings a file's lines produce. */
  function Settings(lines: seq<string>): map<string, string> {
    Fold(Parsed(lines))
  }

  /** `load_env(path)`: no file means no settings; `lines` is the file's `splitlines()`. */
  method LoadEnv(file: Option<seq<string>>) returns (env: map<string, string>)
    ensures file.None? ==> env == map[]
    ensures file.Some? ==> env == Settings(file.value)
  {
    env := map[];
    if file.None? {
      return;
    }
    var lines := file.value;
    for i := 0 to |lines|
      invariant env == Settings(lines[..i])
    {
      SettingsStep(lines, i);
      ParseLineCases(lines[i]);
      var line := Strip(lines[i]);
      if line != [] && line[0] != '#' && '=' in line {
        var k := IndexOf(line, '=').value;
        var key, value := Strip(line[..k]), StripChar(Strip(line[k + 1..]), '"');
        env := env[key := value];
      }
    }
    assert lines[..|lines|] == lines;
  }

  /** The settings after line `i` are those before it with line `i` applied. */
  lemma SettingsStep(lines: seq<string>, i: nat)
    requires i < |lines|
    ensures Settings(lines[..i + 1]) == Apply(Settings(lines[..i]), ParseLine(lines[i]))
  {
    var es := Parsed(lines[..i + 1]);
    assert es[..i] == Parsed(lines[..i]);
  }

  // ---------------------------------------------------------------------
  // Properties
  // ---------------------------------------------------------------------

  /** A key as it can be written and read back: no `=`, no surrounding whitespace, no leading `#`. */
  predicate PlainKey(k: string) {
    '=' !in k && Unpadded(k, false, ' ') && (k != [] ==> k[0] != '#')
  }

  /** A value as it can be read back: no surrounding whitespace or double quotes. */
  predicate PlainValue(v: string) {
    Unpadded(v, false, ' ') && Unpadded(v, true, '"')
  }

  /** Writing `KEY=value` and parsing it gives the key and value back. */
  lemma ParseLineRoundTrip(k: string, v: string)
    requires PlainKey(k) && PlainValue(v)
    ensures ParseLine(k + "=" + v) == Some((k, v))
  {
    EndsOfLine(k, v);
    KeyValueLine(k, v);
    StripUnpadded(v, false, ' ');
    StripUnpadded(v, true, '"');
  }

  /** The value may be quoted: `KEY="value"` reads the same as `KEY=value`. */
  lemma QuotedValue(k: string, v: string)
    requires PlainKey(k) && PlainValue(v)
    ensures ParseLine(k + "=\"" + v + "\"") == Some((k, v))
  {
    var q := "\"" + v + "\"";
    assert k + "=\"" + v + "\"" == k + "=" + q;
    EndsOfLine(k, q);
    KeyValueLine(k, q);
    StripUnpadded(q, false, ' ');
    StripQuotes(v);
  }

  /** `KEY=rest` has no surrounding whitespace when the key has none at its start and `rest` none at its end. */
  lemma EndsOfLine(k: string, rest: string)
    requires Unpadded(k, false, ' ') && Unpadded(rest, false, ' ')
    ensures Unpadded(k + "=" + rest, false, ' ')
  {
    var line := k + "=" + rest;
    if k != [] {
      assert line[0] == k[0];
    }
    if rest != [] {
      assert line[|line| - 1] == rest[|rest| - 1];
    }
  }

  /** A line `KEY=rest` with a plain key and no surrounding whitespace splits at the `=` after the key. */
  lemma KeyValueLine(k: string, rest: string)
    requires PlainKey(k) && Unpadded(k + "=" + rest, false, ' ')
    ensures ParseLine(k + "=" + rest) == Some((k, StripChar(Strip(rest), '"')))
  {
    var line := k + "=" + rest;
    StripUnpadded(line, false, ' ');
    assert line[..|k|] == k && line[|k|] == '=' && line[|k| + 1..] == rest;
    IndexOfFirst(line, '=', |k|);
    assert line[0] != '#' by {
      if k != [] {
        assert line[0] == k[0];
      }
    }
    StripUnpadded(k, false, ' ');
    ParseLineShape(line, |k|);
  }

  /** How a line that strips to itself, does not start with `#` and has its first `=` at `i` parses. */
  lemma ParseLineShape(line: string, i: nat)
    requires Strip(line) == line && line != [] && line[0] != '#'
    requires IndexOf(line, '=') == Some(i)
    ensures ParseLine(line) == Some((Strip(line[..i]), StripChar(Strip(line[i + 1..]), '"')))
  {
  }

  /** How a line parses once it is stripped: blank, comment, no `=`, or split at the first `=`. */
  lemma ParseLineCases(raw: string)
    ensures var line := Strip(raw);
      && (line == [] || line[0] == '#' || '=' !in line ==> ParseLine(raw) == None)
      && (line != [] && line[0] != '#' && '=' in line ==>
            var i := IndexOf(line, '=').value;
            ParseLine(raw) == Some((Strip(line[..i]), StripChar(Strip(line[i + 1..]), '"'))))
  {
  }

  /** Stripping double quotes from a quoted plain value leaves the value. */
  lemma StripQuotes(v: string)
    requires PlainValue(v)
    ensures StripChar("\"" + v + "\"", '"') == v
  {
    var q := "\"" + v + "\"";
    assert q[1..] == v + "\"";
    assert TrimStart(q, true, '"') == TrimStart(v + "\"", true, '"');
    if v == [] {
      assert TrimStart("\"", true, '"') == [];
    } else {
      assert TrimStart(v + "\"", true, '"') == v + "\"";
      assert (v + "\"")[..|v|] == v;
    }
  }

  /** Blank lines, comments and lines without `=` set nothing. */
  lemma SkippedLines(raw: string)
    ensures Strip(raw) == [] ==> ParseLine(raw) == None
    ensures Strip(raw) != [] && Strip(raw)[0] == '#' ==> ParseLine(raw) == None
    ensures '=' !in Strip(raw) ==> ParseLine(raw) == None
  {
  }

  /** Entry `e` sets key `k`. */
  predicate SetsKey(e: Entry, k: string) {
    e.Some? && e.value.0 == k
  }

  /**
   * The last entry setting a key decides its value: if entry `i` sets `k`
   * to `v` and no later entry sets `k`, the settings map `k` to `v`.
   */
  lemma {:induction false} LastLineWins(entries: seq<Entry>, i: nat, k: string, v: string)
    requires i < |entries| && entries[i] == Some((k, v))
    requires forall j :: i < j < |entries| ==> !SetsKey(entries[j], k)
    ensures k in Fold(entries) && Fold(entries)[k] == v
  {
    var front := entries[..|entries| - 1];
    if i < |entries| - 1 {
      assert forall j :: i < j < |front| ==> front[j] == entries[j];
      LastLineWins(front, i, k, v);
      assert !SetsKey(entries[|entries| - 1], k);
    }
  }

  /** The last entry that sets `k`, or -1 when none does. */
  function LastSetter(entries: seq<Entry>, k: string): (j: int)
    ensures -1 <= j < |entries|
  {
    if entries == [] then -1
    else if SetsKey(entries[|entries| - 1], k) then |entries| - 1
    else LastSetter(entries[..|entries| - 1], k)
  }

  /**
   * A key is set exactly when some entry sets it, and its value is the one
   * the last such entry gives: no later entry sets the key again.
   */
  lemma {:induction false} KeysFromEntries(entries: seq<Entry>, k: string)
    ensures var j := LastSetter(entries, k);
      && (k in Fold(entries) <==> j >= 0)
      && (j >= 0 ==> SetsKey(entries[j], k) && Fold(entries)[k] == entries[j].value.1)
      && (forall i :: j < i < |entries| ==> !SetsKey(entries[i], k))
  {
    if entries != [] {
      var n := |entries| - 1;
      var front := entries[..n];
      KeysFromEntries(front, k);
      if !SetsKey(entries[n], k) {
        var j := LastSetter(front, k);
        assert k in Fold(entries) <==> k in Fold(front);
        if j >= 0 {
          assert entries[j] == front[j];
        }
        forall i | j < i < |entries| ensures !SetsKey(entries[i], k) {
          if i < n {
            assert entries[i] == front[i];
          }
        }
      }
    }
  }
}
