/** `findDeprecatedInPassage` and `findDeprecatedInScript`: warnings for
    SugarCube 1 idioms, in a passage and in the Twine user script. A warning
    names its key by its index in the key table. */
module Deprecations {
  import opened Wrappers
  import opened JsStrings
  import opened Diagnostics
  import opened Readings

  /** The keys of `findDeprecatedInPassage`, in the order they are checked. */
  const PassageKeys: seq<string> := [
    "<<click", "<<endclick>>", "<</click>>", "<<endif>>", "<<endnobr>>",
    "<<endsilently>>", "<<endfor>>", "<<endscript>>", "<<endbutton>>",
    "<<endappend>>", "<<endprepend>>", "<<endreplace>>", "<<endwidget>>",
    "<<setplaylist", "<<stopallaudio>>", "<<display", "<<forget", "<<remember",
    "state.active.variables", "State.initPRNG(", ".containsAll(", ".containsAny(",
    ".flatten("]

  /** The keys of `findDeprecatedInScript`, in the order they are checked. */
  const ScriptKeys: seq<string> := [
    "state.active.variables", "State.initPRNG(", ".containsAll(", ".containsAny(",
    ".flatten(", "macros."]

  /** `pos` is the first occurrence of `key` in `html`. */
  predicate FirstOccurrence(html: string, key: string, pos: nat) {
    MatchAt(html, key, pos) && forall j :: 0 <= j < pos ==> !MatchAt(html, key, j)
  }

  /** The loop of `findDeprecatedInPassage` from key `k` on: one warning per
      key that occurs, at its first occurrence, in key order. */
  function PassageFrom(html: string, keys: seq<string>, k: nat): (r: seq<Diag>)
    ensures forall i :: 0 <= i < |r| ==>
      && r[i].DeprecatedInPassage?
      && k <= r[i].key < |keys|
      && FirstOccurrence(html, keys[r[i].key], r[i].pos)
    ensures forall i, j :: 0 <= i < j < |r| ==> r[i].key < r[j].key
    decreases |keys| - k
  {
    if k >= |keys| then []
    else
      IndexOfSpec(html, keys[k], 0);
      var index := IndexOf(html, keys[k], 0);
      (if index != -1 then [DeprecatedInPassage(k, index)] else []) + PassageFrom(html, keys, k + 1)
  }

  function FindDeprecatedInPassage(html: string): seq<Diag> {
    PassageFrom(html, PassageKeys, 0)
  }

  /** Every key that occurs is reported, at its first occurrence. */
  lemma {:induction false} PassageFromComplete(html: string, keys: seq<string>, k: nat, j: nat, pos: nat)
    requires k <= j < |keys| && FirstOccurrence(html, keys[j], pos)
    ensures DeprecatedInPassage(j, pos) in PassageFrom(html, keys, k)
    decreases |keys| - k
  {
    var index := IndexOf(html, keys[k], 0);
    if j == k {
      IndexOfFound(html, keys[k], 0, pos);
    } else {
      PassageFromComplete(html, keys, k + 1, j, pos);
    }
  }

  // ---- the user script ----

  /** The line `findDeprecatedInScript` reports for a key found at `start`,
      as written: the lines of `fileData.substring(0, endOfLineIndex)`, where
      `endOfLineIndex` is -1 when no line break follows. */
  function LineAsWritten(file: string, start: nat): (nat, string) {
    var eol := CharFrom(file, '\n', start);
    var lines := Split(Substring(file, 0, eol), '\n');
    (|lines|, Trim(lines[|lines| - 1]))
  }

  /** The line reported, reading a missing line break as the end of the file. */
  function LineIntended(file: string, start: nat): (nat, string) {
    var eol := CharFrom(file, '\n', start);
    var end := if eol == -1 then |file| else eol;
    var lines := Split(file[..end], '\n');
    (|lines|, Trim(lines[|lines| - 1]))
  }

  /** The intended line is the line holding `start`: its number counts the
      line breaks before `start`, and its text is that whole line, trimmed. */
  lemma LineIntendedSpec(file: string, start: nat) returns (b: nat, e: nat)
    requires start <= |file|
    ensures b <= start <= e <= |file|
    ensures '\n' !in file[b..e]
    ensures (b == 0 || file[b - 1] == '\n') && (e == |file| || file[e] == '\n')
    ensures LineIntended(file, start) == (CountChar(file[..start], '\n') + 1, Trim(file[b..e]))
  {
    var eol := CharFrom(file, '\n', start);
    e := if eol == -1 then |file| else eol;
    var j := SplitLast(file[..e], '\n');
    b := j;
    assert file[..e][j..] == file[b..e];
    assert j > 0 ==> file[j - 1] == file[..e][j - 1];
    SplitCount(file[..e], '\n');
    assert file[..e] == file[..start] + file[start..e];
    CountCharConcat(file[..start], file[start..e], '\n');
    assert '\n' !in file[start..e] by {
      forall t | start <= t < e
        ensures file[t] != '\n'
      {
      }
    }
    CountCharZero(file[start..e], '\n');
  }

  /** As written, a key on the last line, with no line break after it, is
      reported as line 1 with an empty text, wherever it is. */
  lemma LastLineAsWritten(file: string, start: nat)
    requires start <= |file| && '\n' !in file[start..]
    ensures LineAsWritten(file, start) == (1, "")
  {
    forall t | start <= t < |file|
      ensures file[t] != '\n'
    {
      assert file[t] == file[start..][t - start];
    }
    assert Substring(file, 0, -1) == "";
    assert Split("", '\n') == [""];
  }

  /** Wherever a line break follows the key, the two readings agree. */
  lemma LinesAgreeBeforeBreak(file: string, start: nat)
    requires start <= |file| && '\n' in file[start..]
    ensures LineAsWritten(file, start) == LineIntended(file, start)
  {
    var t :| 0 <= t < |file[start..]| && file[start..][t] == '\n';
    assert file[start + t] == '\n';
  }

  /** A key on the second and last line of a script, with no line break
      after it, is reported as line 1 with an empty text instead of line 2:
      for instance the key `state.active.variables` in
      `<script id="twine-user-script">` + line break +
      `state.active.variables</script>`. */
  lemma SecondLineMisreported(pre: string, rest: string)
    requires '\n' !in pre && '\n' !in rest
    ensures LineAsWritten(pre + "\n" + rest, |pre| + 1) == (1, "")
    ensures LineIntended(pre + "\n" + rest, |pre| + 1).0 == 2
  {
    var file := pre + "\n" + rest;
    var start := |pre| + 1;
    assert file[start..] == rest;
    LastLineAsWritten(file, start);
    var b, e := LineIntendedSpec(file, start);
    assert file[..start] == pre + "\n";
    CountCharConcat(pre, "\n", '\n');
    CountCharZero(pre, '\n');
  }

  /** A line the script check skips as commented out: one that starts with
      two slashes, or with a slash and a star. */
  predicate IsCommentLine(line: string) {
    |line| >= 2 && line[0] == '/' && (line[1] == '/' || line[1] == '*')
  }

  /** The special case of `macros.`: the key counts only when the character
      before it (`substr(start - 1, 1)`, the last character of the file when
      the key starts it) is not one of `[._a-z0-9]`, case-insensitively. */
  predicate StandAlone(file: string, start: nat) {
    var before := Substr(file, start - 1, 1);
    !(|before| == 1 && (IsWordChar(before[0]) || before[0] == '.'))
  }

  /** The next occurrence of `key` from `cur` on, when it starts before `max`. */
  function NextHit(file: string, key: string, cur: int, max: int): (r: Option<nat>)
    requires |key| > 0
    ensures r.Some? ==> Clamp(cur, |file|) <= r.value < max && MatchAt(file, key, r.value)
    ensures r.Some? ==> forall j :: Clamp(cur, |file|) <= j < r.value ==> !MatchAt(file, key, j)
    ensures r.None? ==> forall j :: Clamp(cur, |file|) <= j < max ==> !MatchAt(file, key, j)
  {
    IndexOfSpec(file, key, cur);
    var start := IndexOf(file, key, cur);
    if start == -1 || start >= max then None else Some(start)
  }

  /** The occurrences the inner loop of `findDeprecatedInScript` visits for
      one key: from `cur` on, before `max`, each search resuming after the
      previous occurrence. */
  function ScriptHits(file: string, key: string, cur: int, max: int): (hs: seq<nat>)
    requires |key| > 0 && cur <= |file|
    ensures forall i :: 0 <= i < |hs| ==> Clamp(cur, |file|) <= hs[i] < max && MatchAt(file, key, hs[i])
    decreases |file| + 1 - cur
  {
    match NextHit(file, key, cur, max)
    case None => []
    case Some(start) => [start] + ScriptHits(file, key, start + |key|, max)
  }

  /** The line reported for a key found at `start`, as the reading has it. */
  function Line(file: string, start: nat, reading: Reading): (nat, string) {
    if reading == AsWritten then LineAsWritten(file, start) else LineIntended(file, start)
  }

  /** As written, the reported line is the line holding the key wherever a
      line break follows the key, and line 1 with empty text where none does;
      corrected, it is always the line holding the key. */
  lemma LineSpec(file: string, start: nat, reading: Reading) returns (b: nat, e: nat)
    requires start <= |file|
    ensures b <= start <= e <= |file| && '\n' !in file[b..e]
    ensures (b == 0 || file[b - 1] == '\n') && (e == |file| || file[e] == '\n')
    ensures reading == Intended || '\n' in file[start..] ==>
      Line(file, start, reading) == (CountChar(file[..start], '\n') + 1, Trim(file[b..e]))
    ensures reading == AsWritten && '\n' !in file[start..] ==> Line(file, start, reading) == (1, "")
  {
    b, e := LineIntendedSpec(file, start);
    if '\n' in file[start..] {
      LinesAgreeBeforeBreak(file, start);
    } else {
      LastLineAsWritten(file, start);
    }
  }

  /** What an occurrence at `pos` reports: nothing when it is not stand-alone
      though it has to be, or when its line is commented out; otherwise the
      number and the text of its line. */
  function Report(file: string, k: nat, pos: nat, standAlone: bool, reading: Reading): (r: seq<Diag>)
    ensures |r| <= 1
    ensures |r| == 1 ==> r[0] == DeprecatedInScript(Line(file, pos, reading).0, Line(file, pos, reading).1, k, pos)
    ensures |r| == 1 <==> (standAlone ==> StandAlone(file, pos)) && !IsCommentLine(Line(file, pos, reading).1)
  {
    var line := Line(file, pos, reading);
    if (standAlone && !StandAlone(file, pos)) || IsCommentLine(line.1) then []
    else [DeprecatedInScript(line.0, line.1, k, pos)]
  }

  /** The reports of a list of occurrences, in order. */
  function Reports(file: string, k: nat, hits: seq<nat>, standAlone: bool, reading: Reading): (r: seq<Diag>)
    ensures |r| <= |hits|
    ensures forall i :: 0 <= i < |r| ==> r[i].DeprecatedInScript? && r[i].key == k
    decreases |hits|
  {
    if |hits| == 0 then []
    else Report(file, k, hits[0], standAlone, reading) + Reports(file, k, hits[1..], standAlone, reading)
  }

  /** The inner loop of `findDeprecatedInScript` for one key. */
  function ScriptFrom(file: string, key: string, k: nat, cur: int, max: int, standAlone: bool, reading: Reading)
    : (r: seq<Diag>)
    requires |key| > 0 && cur <= |file|
    ensures forall i :: 0 <= i < |r| ==> r[i].DeprecatedInScript? && r[i].key == k
  {
    Reports(file, k, ScriptHits(file, key, cur, max), standAlone, reading)
  }

  /** A report for key `k` at `d.pos`: stand-alone where that is required,
      with the number and text of its line as the reading has them, which is
      not commented out. */
  predicate Reported(file: string, k: nat, standAlone: bool, reading: Reading, d: Diag) {
    && d.DeprecatedInScript? && d.key == k
    && (standAlone ==> StandAlone(file, d.pos))
    && (d.line, d.text) == Line(file, d.pos, reading)
    && !IsCommentLine(d.text)
  }

  /** A warning of the script check for key `k`: at an occurrence of its key
      in the window, stand-alone where that is required, with the number and
      text of its line as the reading reports it, which is not commented out. */
  predicate ScriptWarning(file: string, key: string, k: nat, lo: nat, max: int, standAlone: bool, reading: Reading,
                          d: Diag) {
    && Reported(file, k, standAlone, reading, d)
    && lo <= d.pos < max
    && MatchAt(file, key, d.pos)
  }

  /** The one report an occurrence can make is about that occurrence. */
  lemma ReportOne(file: string, k: nat, pos: nat, standAlone: bool, reading: Reading)
    ensures |Report(file, k, pos, standAlone, reading)| == 1 ==>
      var d := Report(file, k, pos, standAlone, reading)[0];
      Reported(file, k, standAlone, reading, d) && d.pos == pos
  {
  }

  /** Every report is a warning about one of the occurrences. */
  lemma {:induction false} ReportsSound(file: string, k: nat, hits: seq<nat>, standAlone: bool, reading: Reading,
                                        i: nat)
    requires i < |Reports(file, k, hits, standAlone, reading)|
    ensures Reported(file, k, standAlone, reading, Reports(file, k, hits, standAlone, reading)[i])
    ensures Reports(file, k, hits, standAlone, reading)[i].pos in hits
    decreases |hits|
  {
    var all := Reports(file, k, hits, standAlone, reading);
    var here := Report(file, k, hits[0], standAlone, reading);
    var rest := Reports(file, k, hits[1..], standAlone, reading);
    assert all == here + rest;
    if i < |here| {
      ReportOne(file, k, hits[0], standAlone, reading);
      assert all[i] == here[0];
    } else {
      ReportsSound(file, k, hits[1..], standAlone, reading, i - |here|);
      assert all[i] == rest[i - |here|];
      assert rest[i - |here|].pos in hits[1..];
    }
  }

  /** Every occurrence that passes the filters is reported. */
  lemma {:induction false} ReportsComplete(file: string, k: nat, hits: seq<nat>, standAlone: bool, reading: Reading,
                                           j: nat)
    requires j < |hits|
    requires standAlone ==> StandAlone(file, hits[j])
    requires !IsCommentLine(Line(file, hits[j], reading).1)
    ensures var line := Line(file, hits[j], reading);
      DeprecatedInScript(line.0, line.1, k, hits[j]) in Reports(file, k, hits, standAlone, reading)
    decreases |hits|
  {
    var here := Report(file, k, hits[0], standAlone, reading);
    var rest := Reports(file, k, hits[1..], standAlone, reading);
    assert Reports(file, k, hits, standAlone, reading) == here + rest;
    if j > 0 {
      assert hits[j] == hits[1..][j - 1];
      ReportsComplete(file, k, hits[1..], standAlone, reading, j - 1);
    } else {
      assert |here| == 1;
    }
  }

  /** Each warning of the inner loop is a warning about its key, in the window. */
  lemma ScriptFromSound(file: string, key: string, k: nat, cur: int, max: int, standAlone: bool, reading: Reading,
                        i: nat)
    requires |key| > 0 && cur <= |file|
    requires i < |ScriptFrom(file, key, k, cur, max, standAlone, reading)|
    ensures ScriptWarning(file, key, k, Clamp(cur, |file|), max, standAlone, reading,
                          ScriptFrom(file, key, k, cur, max, standAlone, reading)[i])
  {
    ReportsSound(file, k, ScriptHits(file, key, cur, max), standAlone, reading, i);
  }

  /** A key no proper suffix of which is also a prefix: its occurrences
      never overlap. */
  predicate NoBorder(key: string) {
    forall d :: 0 < d < |key| ==> key[d..] != key[..|key| - d]
  }

  lemma FirstUniqueNoBorder(key: string)
    requires |key| > 0 && key[0] !in key[1..]
    ensures NoBorder(key)
  {
    forall d | 0 < d < |key|
      ensures key[d..] != key[..|key| - d]
    {
      assert key[d..][0] == key[1..][d - 1];
    }
  }

  /** Every script key but the first begins with a character it does not
      repeat, so the script check finds all of its occurrences; the first,
      `state.active.variables`, begins and ends with `s`. */
  lemma ScriptKeysNoBorder(key: string)
    requires key in ScriptKeys[1..]
    ensures NoBorder(key)
  {
    var t :| 0 <= t < |ScriptKeys[1..]| && ScriptKeys[1..][t] == key;
    if t == 0 {
      assert key == "State.initPRNG(" && key[0] !in key[1..];
    } else if t == 1 {
      assert key == ".containsAll(" && key[0] !in key[1..];
    } else if t == 2 {
      assert key == ".containsAny(" && key[0] !in key[1..];
    } else if t == 3 {
      assert key == ".flatten(" && key[0] !in key[1..];
    } else {
      assert key == "macros." && key[0] !in key[1..];
    }
    FirstUniqueNoBorder(key);
  }

  /** Two overlapping occurrences of a key make it overlap itself. */
  lemma Overlap(s: string, key: string, a: nat, b: nat)
    requires MatchAt(s, key, a) && MatchAt(s, key, b) && a < b < a + |key|
    ensures key[b - a..] == key[..|key| - (b - a)]
  {
    var d := b - a;
    forall t | 0 <= t < |key| - d
      ensures key[d..][t] == key[..|key| - d][t]
    {
      assert key[d + t] == s[a..a + |key|][d + t] == s[b..b + |key|][t];
    }
  }

  /** For a key that cannot overlap itself, no occurrence in the window is
      skipped. */
  lemma {:induction false} ScriptHitsComplete(file: string, key: string, cur: int, max: int, j: nat)
    requires |key| > 0 && cur <= |file| && NoBorder(key)
    requires Clamp(cur, |file|) <= j < max && MatchAt(file, key, j)
    ensures j in ScriptHits(file, key, cur, max)
    decreases |file| + 1 - cur
  {
    var start := NextHit(file, key, cur, max).value;
    if start != j {
      if j < start + |key| {
        Overlap(file, key, start, j);
        assert false;
      }
      ScriptHitsComplete(file, key, start + |key|, max, j);
    }
  }

  /** For a key that cannot overlap itself, every occurrence in the window
      that is stand-alone where required and not on a commented-out line is
      reported. */
  lemma ScriptFromComplete(file: string, key: string, k: nat, cur: int, max: int, standAlone: bool, reading: Reading,
                           j: nat)
    requires |key| > 0 && cur <= |file| && NoBorder(key)
    requires Clamp(cur, |file|) <= j < max && MatchAt(file, key, j)
    requires standAlone ==> StandAlone(file, j)
    requires !IsCommentLine(Line(file, j, reading).1)
    ensures var line := Line(file, j, reading);
      DeprecatedInScript(line.0, line.1, k, j) in ScriptFrom(file, key, k, cur, max, standAlone, reading)
  {
    var hits := ScriptHits(file, key, cur, max);
    ScriptHitsComplete(file, key, cur, max, j);
    var t :| 0 <= t < |hits| && hits[t] == j;
    ReportsComplete(file, k, hits, standAlone, reading, t);
  }

  lemma AllScriptFromSound(file: string, key: string, k: nat, cur: int, max: int, standAlone: bool, reading: Reading)
    requires |key| > 0 && cur <= |file|
    ensures forall i :: 0 <= i < |ScriptFrom(file, key, k, cur, max, standAlone, reading)| ==>
      ScriptWarning(file, key, k, Clamp(cur, |file|), max, standAlone, reading,
                    ScriptFrom(file, key, k, cur, max, standAlone, reading)[i])
  {
    forall i | 0 <= i < |ScriptFrom(file, key, k, cur, max, standAlone, reading)|
      ensures ScriptWarning(file, key, k, Clamp(cur, |file|), max, standAlone, reading,
                            ScriptFrom(file, key, k, cur, max, standAlone, reading)[i])
    {
      ScriptFromSound(file, key, k, cur, max, standAlone, reading, i);
    }
  }

  /** `macros.` is the one key that must stand alone. */
  predicate MustStandAlone(key: string) {
    key == "macros."
  }

  /** A warning of the script check for one of `keys`, in the window from
      `lo` up to `max`. */
  predicate KeyWarning(file: string, keys: seq<string>, lo: nat, max: int, reading: Reading, d: Diag) {
    && d.DeprecatedInScript?
    && d.key < |keys|
    && ScriptWarning(file, keys[d.key], d.key, lo, max, MustStandAlone(keys[d.key]), reading, d)
  }

  /** The loop of `findDeprecatedInScript` over the keys from `k` on, all
      searched from `initial` up to `max`: every warning is about one of
      those keys, in the window, and the warnings come in key order. */
  function ScriptKeysFrom(file: string, keys: seq<string>, k: nat, initial: int, max: int, reading: Reading)
    : (r: seq<Diag>)
    requires initial <= |file|
    requires forall i :: 0 <= i < |keys| ==> |keys[i]| > 0
    ensures forall i :: 0 <= i < |r| ==> KeyWarning(file, keys, Clamp(initial, |file|), max, reading, r[i]) && k <= r[i].key
    ensures forall i, j :: 0 <= i < j < |r| ==> r[i].DeprecatedInScript? && r[j].DeprecatedInScript? && r[i].key <= r[j].key
    decreases |keys| - k
  {
    if k >= |keys| then []
    else
      var here := ScriptFrom(file, keys[k], k, initial, max, MustStandAlone(keys[k]), reading);
      AllScriptFromSound(file, keys[k], k, initial, max, MustStandAlone(keys[k]), reading);
      here + ScriptKeysFrom(file, keys, k + 1, initial, max, reading)
  }

  /** The warnings of key `t`'s inner loop are among those of the key loop. */
  lemma {:induction false} ScriptKeysHolds(file: string, keys: seq<string>, k: nat, t: nat, initial: int, max: int,
                                           reading: Reading, d: Diag)
    requires initial <= |file|
    requires forall i :: 0 <= i < |keys| ==> |keys[i]| > 0
    requires k <= t < |keys|
    requires d in ScriptFrom(file, keys[t], t, initial, max, MustStandAlone(keys[t]), reading)
    ensures d in ScriptKeysFrom(file, keys, k, initial, max, reading)
    decreases t - k
  {
    var here := ScriptFrom(file, keys[k], k, initial, max, MustStandAlone(keys[k]), reading);
    var rest := ScriptKeysFrom(file, keys, k + 1, initial, max, reading);
    assert ScriptKeysFrom(file, keys, k, initial, max, reading) == here + rest;
    if k < t {
      ScriptKeysHolds(file, keys, k + 1, t, initial, max, reading, d);
    }
  }

  /** Where the script lies: from the user script's `id` attribute (from the
      start when there is none) up to the next `</script>`. */
  function ScriptStart(file: string): int {
    IndexOf(file, "id=\"twine-user-script\"", 0)
  }

  function ScriptEnd(file: string): int {
    IndexOf(file, "</script>", ScriptStart(file))
  }

  /** `findDeprecatedInScript`: every warning is about a key occurring in the
      window, with no `</script>` nothing is reported. */
  function FindDeprecatedInScript(file: string, keys: seq<string>, reading: Reading): (r: seq<Diag>)
    requires forall i :: 0 <= i < |keys| ==> |keys[i]| > 0
    ensures forall i :: 0 <= i < |r| ==> KeyWarning(file, keys, Clamp(ScriptStart(file), |file|), ScriptEnd(file), reading, r[i])
    ensures forall i, j :: 0 <= i < j < |r| ==> r[i].DeprecatedInScript? && r[j].DeprecatedInScript? && r[i].key <= r[j].key
    ensures ScriptEnd(file) == -1 ==> r == []
  {
    var initial := ScriptStart(file);
    var max := ScriptEnd(file);
    NoWindow(file, keys, 0, initial, max, reading);
    ScriptKeysFrom(file, keys, 0, initial, max, reading)
  }

  /** Every occurrence in the window of a key that cannot overlap itself is
      reported, with its line as the reading has it, unless that line is a
      comment or the key is a `macros.` that does not stand alone. */
  lemma ScriptCheckComplete(file: string, keys: seq<string>, reading: Reading, t: nat, j: nat)
    requires forall i :: 0 <= i < |keys| ==> |keys[i]| > 0
    requires t < |keys| && NoBorder(keys[t])
    requires Clamp(ScriptStart(file), |file|) <= j < ScriptEnd(file) && MatchAt(file, keys[t], j)
    requires MustStandAlone(keys[t]) ==> StandAlone(file, j)
    requires !IsCommentLine(Line(file, j, reading).1)
    ensures var line := Line(file, j, reading);
      DeprecatedInScript(line.0, line.1, t, j) in FindDeprecatedInScript(file, keys, reading)
  {
    var initial := ScriptStart(file);
    var line := Line(file, j, reading);
    ScriptFromComplete(file, keys[t], t, initial, ScriptEnd(file), MustStandAlone(keys[t]), reading, j);
    ScriptKeysHolds(file, keys, 0, t, initial, ScriptEnd(file), reading, DeprecatedInScript(line.0, line.1, t, j));
  }

  lemma {:induction false} NoWindow(file: string, keys: seq<string>, k: nat, initial: int, max: int, reading: Reading)
    requires initial <= |file|
    requires forall i :: 0 <= i < |keys| ==> |keys[i]| > 0
    ensures max == -1 ==> ScriptKeysFrom(file, keys, k, initial, max, reading) == []
    decreases |keys| - k
  {
    if k < |keys| {
      NoWindow(file, keys, k + 1, initial, max, reading);
    }
  }

  /** Every warning of the script check lies in the window, at an occurrence
      of its key. Its line is the line that holds it, except that as written
      a key with no line break after it is reported on line 1 with empty text. */
  lemma ScriptWarningsSound(file: string, key: string, k: nat, cur: int, max: int, standAlone: bool,
                            reading: Reading, i: nat)
    requires |key| > 0 && cur <= |file|
    requires i < |ScriptFrom(file, key, k, cur, max, standAlone, reading)|
    ensures var d := ScriptFrom(file, key, k, cur, max, standAlone, reading)[i];
      && Clamp(cur, |file|) <= d.pos < max
      && MatchAt(file, key, d.pos)
      && (reading == Intended || '\n' in file[d.pos..] ==> d.line == CountChar(file[..d.pos], '\n') + 1)
      && (reading == AsWritten && '\n' !in file[d.pos..] ==> d.line == 1 && d.text == "")
  {
    ScriptFromSound(file, key, k, cur, max, standAlone, reading, i);
    var d := ScriptFrom(file, key, k, cur, max, standAlone, reading)[i];
    var b, e := LineSpec(file, d.pos, reading);
  }
}
