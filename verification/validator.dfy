/** `validate(fileData, localStorage)`: the driver. It cuts the story file
    into passages, builds the macro registry (built-ins, the evaluated
    user-script definitions, the saved overrides, the widgets), runs the
    per-passage checks, and ends with the deprecation scan of the user
    script. The diagnostics are kept in the order they are filed.
    `Validate` is the run as the source is written; `ValidateIntended` is the
    same run with the defects of the source corrected. */
module Validator {
  import opened Wrappers
  import opened JsStrings
  import opened Diagnostics
  import opened Readings
  import opened Exclusions
  import opened Document
  import opened Registry
  import opened Quotes
  import opened Balance
  import opened Tags
  import opened Deprecations
  import opened Widgets

  /** What ends a whole run with an exception instead of a result. */
  datatype RunError =
      // a passage start tag without a close tag, met while cutting the file
    | SplitFailed(error: SplitError)
      // a passage header without a `tags` attribute, met by `findAllWidgets`
    | MissingTags(header: string)

  /** What the condition and setter checks of a passage's text yield: what
      they file, in order, under the passage, and whether they end by
      throwing (the condition check reads its second pattern before the line
      that declares it, so it throws at the first condition it examines). */
  datatype ExpressionOut = ExpressionOut(found: seq<(Severity, Diag)>, threw: bool)

  type ExpressionChecks = string -> ExpressionOut

  function FileChecks(key: Key, cs: seq<(Severity, Diag)>): (r: seq<Entry>)
    ensures |r| == |cs|
    ensures forall i :: 0 <= i < |cs| ==> r[i] == Entry(key, cs[i].0, cs[i].1)
  {
    if |cs| == 0 then [] else [Entry(key, cs[0].0, cs[0].1)] + FileChecks(key, cs[1..])
  }

  /** Every entry is filed under `key`. */
  predicate AllUnder(es: seq<Entry>, key: Key) {
    forall i :: 0 <= i < |es| ==> es[i].key == key
  }

  /** Every entry is a warning. */
  predicate AllWarnings(es: seq<Entry>) {
    forall i :: 0 <= i < |es| ==> es[i].severity == Warning
  }

  /** Every entry is filed under some passage. */
  predicate InPassages(es: seq<Entry>) {
    forall i :: 0 <= i < |es| ==> es[i].key.PassageKey?
  }

  /** What the checks of one passage find, before anything is filed. */
  datatype Findings = Findings(
    quotes: seq<Diag>,                  // matchQuotes
    balance: Result<(), Diag>,          // matchGTLT
    tags: MatchOut,                     // matchTags
    deprecated: seq<Diag>,              // findDeprecatedInPassage
    expressions: ExpressionOut,         // findInvalidConditions, findInvalidSetters
    widget: Option<Diag>)               // checkInvalidWidgets

  function Gather(p: Passage, reg: Registry, checks: ExpressionChecks, reading: Reading): Findings {
    Findings(MatchQuotes(p.content), MatchGTLT(p.content), MatchTags(p.content, reg, reading),
             FindDeprecatedInPassage(p.content), checks(p.content), CheckInvalidWidgets(p.content, p.header))
  }

  /** The `try` around the checks of one passage, filing under `key`: the
      quote warnings, then the balance check, whose error is thrown, then the
      automaton's warnings and its thrown error, then the deprecations and
      the expression checks, then the widget check. A thrown error ends the
      passage: the errors the checks throw themselves are strings and file
      nothing more, an exception of the expression checks files an
      `Unhandled Exception` error. */
  function File(key: Key, f: Findings): (out: seq<Entry>)
    ensures AllUnder(out, key)
    ensures |FileAll(key, Warning, f.quotes)| <= |out| && out[..|f.quotes|] == FileAll(key, Warning, f.quotes)
  {
    var quotes := FileAll(key, Warning, f.quotes);
    var rest :=
      if f.balance.Failure? then [Entry(key, Error, f.balance.error)]
      else
        FileAll(key, Warning, f.tags.warnings) +
        if f.tags.error.Some? then [Entry(key, Error, f.tags.error.value)]
        else
          FileAll(key, Warning, f.deprecated) + FileChecks(key, f.expressions.found) +
          if f.expressions.threw then [Entry(key, Error, UnhandledException)]
          else if f.widget.Some? then [Entry(key, Error, f.widget.value)] else [];
    assert (quotes + rest)[..|quotes|] == quotes;
    quotes + rest
  }

  /** The checks of one passage: all filed under it, the quote warnings
      first; an unbalanced `<<` or `>>` leaves nothing but the quote warnings
      before its error, and an error of the automaton is the last entry. */
  function CheckPassage(p: Passage, reg: Registry, checks: ExpressionChecks, reading: Reading): (out: seq<Entry>)
    ensures AllUnder(out, PassageKey(p.header))
    ensures var quotes := FileAll(PassageKey(p.header), Warning, MatchQuotes(p.content));
      |quotes| <= |out| && out[..|quotes|] == quotes
    ensures MatchGTLT(p.content).Failure? ==>
      out == FileAll(PassageKey(p.header), Warning, MatchQuotes(p.content))
        + [Entry(PassageKey(p.header), Error, MatchGTLT(p.content).error)]
    ensures MatchGTLT(p.content).Success? && MatchTags(p.content, reg, reading).error.Some? ==>
      |out| > 0 && out[|out| - 1] == Entry(PassageKey(p.header), Error, MatchTags(p.content, reg, reading).error.value)
  {
    var f := Gather(p, reg, checks, reading);
    FileOrder(PassageKey(p.header), f);
    File(PassageKey(p.header), f)
  }

  lemma FileOrder(key: Key, f: Findings)
    ensures var out := File(key, f);
      && (f.balance.Failure? ==> out == FileAll(key, Warning, f.quotes) + [Entry(key, Error, f.balance.error)])
      && (f.balance.Success? && f.tags.error.Some? ==> |out| > 0 && out[|out| - 1] == Entry(key, Error, f.tags.error.value))
  {
    if f.balance.Failure? {
      BalanceErrorStops(key, f);
    } else if f.tags.error.Some? {
      TagsErrorStops(key, f);
    }
  }

  /** An unbalanced `<<` or `>>` ends the passage: its error is the last
      entry, and only the quote warnings come before it. */
  lemma BalanceErrorStops(key: Key, f: Findings)
    requires f.balance.Failure?
    ensures File(key, f) == FileAll(key, Warning, f.quotes) + [Entry(key, Error, f.balance.error)]
  {
  }

  /** An error of the automaton ends the passage: it is the last entry, and
      only the quote warnings and the automaton's own warnings precede it. */
  lemma TagsErrorStops(key: Key, f: Findings)
    requires f.balance.Success? && f.tags.error.Some?
    ensures File(key, f) == FileAll(key, Warning, f.quotes) + FileAll(key, Warning, f.tags.warnings)
      + [Entry(key, Error, f.tags.error.value)]
  {
  }

  /** An exception of the expression checks ends the passage after what
      they filed: an `Unhandled Exception` error is the last entry, and the
      widget check does not run. */
  lemma ExpressionThrowStops(key: Key, f: Findings)
    requires f.balance.Success? && f.tags.error.None? && f.expressions.threw
    ensures File(key, f) == FileAll(key, Warning, f.quotes) + (FileAll(key, Warning, f.tags.warnings)
      + (FileAll(key, Warning, f.deprecated) + FileChecks(key, f.expressions.found)
      + [Entry(key, Error, UnhandledException)]))
  {
  }

  /** A passage that nothing stops has every check file all it finds, the
      widget error last. */
  lemma UnstoppedRunsAll(key: Key, f: Findings)
    requires f.balance.Success? && f.tags.error.None? && !f.expressions.threw
    ensures var out := File(key, f);
      && (forall d :: d in f.tags.warnings ==> Entry(key, Warning, d) in out)
      && (forall d :: d in f.deprecated ==> Entry(key, Warning, d) in out)
      && (forall c :: c in f.expressions.found ==> Entry(key, c.0, c.1) in out)
      && (f.widget.Some? ==> out[|out| - 1] == Entry(key, Error, f.widget.value))
  {
    var out := File(key, f);
    var tags := FileAll(key, Warning, f.tags.warnings);
    var deps := FileAll(key, Warning, f.deprecated);
    var exprs := FileChecks(key, f.expressions.found);
    var widget := if f.widget.Some? then [Entry(key, Error, f.widget.value)] else [];
    assert out == FileAll(key, Warning, f.quotes) + (tags + (deps + exprs + widget));
    FiledAll(key, Warning, f.tags.warnings);
    FiledAll(key, Warning, f.deprecated);
    ChecksFiled(key, f.expressions.found);
  }

  /** A warning of `matchQuotes`. */
  predicate IsQuoteWarning(d: Diag) {
    d.UnevenDoubleQuotes? || d.UnevenDualQuotes? || d.UnevenDualSlashes?
  }

  /** The quote warnings a passage gathers are those of `matchQuotes`, its
      automaton warnings are stack warnings. */
  lemma CheckPassageWarnings(p: Passage, reg: Registry, checks: ExpressionChecks, reading: Reading)
    ensures var f := Gather(p, reg, checks, reading);
      && (forall d :: d in f.quotes ==> IsQuoteWarning(d))
      && (forall d :: d in f.tags.warnings ==> IsStackWarning(d))
  {
  }

  lemma FiledAll(key: Key, sev: Severity, ds: seq<Diag>)
    ensures forall d :: d in ds ==> Entry(key, sev, d) in FileAll(key, sev, ds)
  {
    forall d | d in ds
      ensures Entry(key, sev, d) in FileAll(key, sev, ds)
    {
      var i :| 0 <= i < |ds| && ds[i] == d;
      assert FileAll(key, sev, ds)[i] == Entry(key, sev, d);
    }
  }

  lemma ChecksFiled(key: Key, cs: seq<(Severity, Diag)>)
    ensures forall c :: c in cs ==> Entry(key, c.0, c.1) in FileChecks(key, cs)
  {
    forall c | c in cs
      ensures Entry(key, c.0, c.1) in FileChecks(key, cs)
    {
      var i :| 0 <= i < |cs| && cs[i] == c;
      assert FileChecks(key, cs)[i] == Entry(key, c.0, c.1);
    }
  }

  /** The per-passage loop, for any check of one passage. */
  function CheckAll<P>(ps: seq<P>, check: P -> seq<Entry>): (out: seq<Entry>)
    decreases |ps|
  {
    if |ps| == 0 then [] else check(ps[0]) + CheckAll(ps[1..], check)
  }

  /** The passages are checked independently: the loop over two runs of
      passages files what the two loops file, one after the other. */
  lemma {:induction false} CheckAllConcat<P>(ps: seq<P>, qs: seq<P>, check: P -> seq<Entry>)
    ensures CheckAll(ps + qs, check) == CheckAll(ps, check) + CheckAll(qs, check)
    decreases |ps|
  {
    if |ps| == 0 {
      assert ps + qs == qs;
    } else {
      assert (ps + qs)[0] == ps[0];
      assert (ps + qs)[1..] == ps[1..] + qs;
      CheckAllConcat(ps[1..], qs, check);
    }
  }

  /** So an error that stops one passage takes nothing from the others: the
      passages before and after it are checked in full, as if it were not
      there. */
  lemma FatalStopsOnlyItsPassage<P>(ps: seq<P>, i: nat, check: P -> seq<Entry>)
    requires i < |ps|
    ensures CheckAll(ps, check) == CheckAll(ps[..i], check) + check(ps[i]) + CheckAll(ps[i + 1..], check)
  {
    var tail := ps[i..];
    assert ps == ps[..i] + tail;
    CheckAllConcat(ps[..i], tail, check);
    CheckAllCons(tail, check);
    assert tail[1..] == ps[i + 1..];
  }

  lemma CheckAllCons<P>(ps: seq<P>, check: P -> seq<Entry>)
    requires |ps| > 0
    ensures CheckAll(ps, check) == check(ps[0]) + CheckAll(ps[1..], check)
  {
  }

  /** What the passage loop files is filed under passages when each
      passage's checks are. */
  lemma {:induction false} CheckAllInPassages<P>(ps: seq<P>, check: P -> seq<Entry>)
    requires forall i :: 0 <= i < |ps| ==> InPassages(check(ps[i]))
    ensures InPassages(CheckAll(ps, check))
    decreases |ps|
  {
    if |ps| > 0 {
      assert forall i :: 1 <= i < |ps| ==> ps[1..][i - 1] == ps[i];
      CheckAllInPassages(ps[1..], check);
      var here: seq<Entry> := check(ps[0]);
      var rest: seq<Entry> := CheckAll(ps[1..], check);
      assert CheckAll(ps, check) == here + rest;
      forall i | 0 <= i < |here + rest|
        ensures (here + rest)[i].key.PassageKey?
      {
        if i >= |here| {
          assert (here + rest)[i] == rest[i - |here|];
        }
      }
    }
  }

  // ---------------------------------------------------------------------
  // The run

  /** The warnings `parsePassage` files while the file is cut: an exclusion
      opener without its closer, under the passage. */
  function ParseWarnings(ps: seq<Passage>): (out: seq<Entry>)
    ensures forall i :: 0 <= i < |out| ==> out[i].severity == Warning && out[i].diag.UnclosedExclusion?
    ensures InPassages(out)
    ensures |out| <= |ps|
    decreases |ps|
  {
    if |ps| == 0 then []
    else
      (match ps[0].warning
       case None => []
       case Some(o) => [Entry(PassageKey(ps[0].header), Warning, UnclosedExclusion(o.entry, o.pos))])
      + ParseWarnings(ps[1..])
  }

  /** A header without a `tags` attribute. */
  predicate Untagged(p: Passage) {
    GetHTMLAttr(p.header, "tags").None?
  }

  /** The first loop over the passages, `findAllWidgets` on each: it throws
      out of the run at the first passage without a `tags` attribute;
      otherwise it only adds names, and files widget errors. */
  function AllWidgets(ps: seq<Passage>, reg: Registry): (r: Result<(Registry, seq<Entry>), RunError>)
    ensures r.Failure? ==> r.error.MissingTags?
    ensures r.Success? ==> reg.known <= r.value.0.known
    ensures r.Success? ==> InPassages(r.value.1)
    ensures r.Success? ==> forall i :: 0 <= i < |r.value.1| ==>
      r.value.1[i].severity == Error &&
      (r.value.1[i].diag.WidgetRedefinition? || r.value.1[i].diag.InvalidWidgetDefinition?)
    decreases |ps|
  {
    if |ps| == 0 then Success((reg, []))
    else
      match FindAllWidgets(ps[0].content, ps[0].header, reg)
      case None => Failure(MissingTags(ps[0].header))
      case Some(found) =>
        WidgetKinds(ps[0].content, found.1);
        match AllWidgets(ps[1..], found.0)
        case Failure(e) => Failure(e)
        case Success(rest) => Success((rest.0, FileAll(PassageKey(ps[0].header), Error, found.1) + rest.1))
  }

  /** The widget loop fails exactly when some passage has no `tags`
      attribute, and then at the first such passage. */
  lemma {:induction false} AllWidgetsFails(ps: seq<Passage>, reg: Registry)
    ensures AllWidgets(ps, reg).Failure? <==> exists i :: 0 <= i < |ps| && Untagged(ps[i])
    ensures AllWidgets(ps, reg).Failure? ==>
      exists i :: 0 <= i < |ps| && Untagged(ps[i]) && AllWidgets(ps, reg).error.header == ps[i].header &&
        forall j :: 0 <= j < i ==> !Untagged(ps[j])
    decreases |ps|
  {
    if |ps| > 0 {
      assert forall i :: 1 <= i < |ps| ==> ps[i] == ps[1..][i - 1];
      match FindAllWidgets(ps[0].content, ps[0].header, reg)
      case None =>
        assert Untagged(ps[0]);
      case Some(found) =>
        AllWidgetsFails(ps[1..], found.0);
        if AllWidgets(ps[1..], found.0).Failure? {
          var i :| 0 <= i < |ps[1..]| && Untagged(ps[1..][i]) &&
            AllWidgets(ps[1..], found.0).error.header == ps[1..][i].header &&
            forall j :: 0 <= j < i ==> !Untagged(ps[1..][j]);
          assert Untagged(ps[i + 1]);
          forall j | 0 <= j < i + 1
            ensures !Untagged(ps[j])
          {
            if j > 0 {
              assert ps[j] == ps[1..][j - 1];
            }
          }
        }
    }
  }

  lemma WidgetKinds(html: string, ds: seq<Diag>)
    requires forall i :: 0 <= i < |ds| ==> IsWidgetError(html, ds[i])
    ensures forall i :: 0 <= i < |ds| ==> ds[i].WidgetRedefinition? || ds[i].InvalidWidgetDefinition?
  {
  }

  lemma ScriptKeysNonEmpty()
    ensures forall i :: 0 <= i < |ScriptKeys| ==> |ScriptKeys[i]| > 0
  {
  }

  /** The script check with the keys of the source. */
  function ScriptCheck(file: string, reading: Reading): (r: seq<Diag>)
    ensures forall i :: 0 <= i < |r| ==> r[i].DeprecatedInScript?
  {
    ScriptKeysNonEmpty();
    FindDeprecatedInScript(file, ScriptKeys, reading)
  }

  /** The order of a run's result: it opens with the `front` warnings of
      unclosed exclusions, and the entries filed under the script
      deprecations are exactly the last ones, the warnings of the script
      check `back`. */
  predicate Layout(out: seq<Entry>, front: nat, back: seq<Diag>) {
    && front + |back| <= |out|
    && (forall i :: 0 <= i < front ==> out[i].severity == Warning && out[i].diag.UnclosedExclusion?)
    && (forall i :: 0 <= i < |out| ==> (out[i].key == ScriptDeprecations <==> |out| - |back| <= i))
    && out[|out| - |back|..] == FileAll(ScriptDeprecations, Warning, back)
  }

  /** What a run yields from the cut of the file: an unclosed passage ends it
      without a result; otherwise it fails exactly when some passage has no
      `tags` attribute, and a result has the order of `Layout`. */
  predicate Outcome(file: string, split: Result<seq<Passage>, SplitError>, reading: Reading,
                    r: Result<seq<Entry>, RunError>) {
    && (split.Failure? ==> r == Failure(SplitFailed(split.error)))
    && (split.Success? ==> (r.Failure? <==> exists i :: 0 <= i < |split.value| && Untagged(split.value[i])))
    && (split.Success? && r.Success? ==> Layout(r.value, |ParseWarnings(split.value)|, ScriptCheck(file, reading)))
  }

  /** `validate(fileData, localStorage)` as written, with the evaluated
      user-script definitions `defs` (those of `Macro.add`), the saved
      overrides `saved`, and the condition and setter checks `checks` as
      inputs. */
  function Validate(file: string, defs: seq<Definition>, saved: map<string, Macro>, checks: ExpressionChecks)
    : (r: Result<seq<Entry>, RunError>)
    ensures Outcome(file, SplitPassages(file, AsWritten), AsWritten, r)
  {
    Start(file, SplitPassages(file, AsWritten), Register(BuiltIns(), defs), saved, checks, AsWritten)
  }

  /** The same run with the defects of the source corrected: the built-in
      table with `optionsfrom` spelled right, exclusions closed at the end of
      the passage, own names only in the registry, and the script's last
      line reported as itself. */
  function ValidateIntended(file: string, defs: seq<Definition>, saved: map<string, Macro>, checks: ExpressionChecks)
    : (r: Result<seq<Entry>, RunError>)
    ensures Outcome(file, SplitPassages(file, Intended), Intended, r)
  {
    Start(file, SplitPassages(file, Intended), Register(BuiltInsIntended(), defs), saved, checks, Intended)
  }

  /** The run from the cut of the file (`split`) and the registration of the
      user-script definitions (`registered`: the registry and the
      conflicts). */
  function Start(file: string, split: Result<seq<Passage>, SplitError>, registered: (Registry, seq<Diag>),
                 saved: map<string, Macro>, checks: ExpressionChecks, reading: Reading)
    : (r: Result<seq<Entry>, RunError>)
    ensures Outcome(file, split, reading, r)
  {
    match split
    case Failure(e) => Failure(SplitFailed(e))
    case Success(ps) => Run(file, ps, registered, saved, checks, reading)
  }

  /** The run once the passages are cut: the parse warnings, the conflicts
      under the user script, the widget errors, the checks of every passage
      against the final registry, and the deprecations of the user script,
      in that order. */
  function Run(file: string, ps: seq<Passage>, registered: (Registry, seq<Diag>), saved: map<string, Macro>,
               checks: ExpressionChecks, reading: Reading): (r: Result<seq<Entry>, RunError>)
    ensures r.Failure? <==> exists i :: 0 <= i < |ps| && Untagged(ps[i])
    ensures r.Success? ==> Layout(r.value, |ParseWarnings(ps)|, ScriptCheck(file, reading))
  {
    var loaded := LoadIgnoredMacros(registered.0, saved, reading);
    AllWidgetsFails(ps, loaded);
    match AllWidgets(ps, loaded)
    case Failure(e) => Failure(e)
    case Success(widgets) =>
      RunLayout(file, ps, registered.1, widgets.1, widgets.0, checks, reading);
      Success(Assemble(file, ps, registered.1, widgets.1, widgets.0, checks, reading))
  }

  /** The parts of a run's result, in the order they are filed. */
  function Assemble(file: string, ps: seq<Passage>, conflicts: seq<Diag>, widgetErrors: seq<Entry>, reg: Registry,
                    checks: ExpressionChecks, reading: Reading): seq<Entry> {
    ParseWarnings(ps)
      + (FileAll(UserScript, Warning, conflicts) + widgetErrors
         + CheckAll(ps, (p: Passage) => CheckPassage(p, reg, checks, reading)))
      + FileAll(ScriptDeprecations, Warning, ScriptCheck(file, reading))
  }

  lemma RunLayout(file: string, ps: seq<Passage>, conflicts: seq<Diag>, widgetErrors: seq<Entry>, reg: Registry,
                  checks: ExpressionChecks, reading: Reading)
    requires InPassages(widgetErrors)
    ensures Layout(Assemble(file, ps, conflicts, widgetErrors, reg, checks, reading), |ParseWarnings(ps)|,
                   ScriptCheck(file, reading))
  {
    var check := (p: Passage) => CheckPassage(p, reg, checks, reading);
    var passages := CheckAll(ps, check);
    var middle := FileAll(UserScript, Warning, conflicts) + widgetErrors + passages;
    forall i | 0 <= i < |ps|
      ensures InPassages(check(ps[i]))
    {
      assert AllUnder(check(ps[i]), PassageKey(ps[i].header));
    }
    CheckAllInPassages(ps, check);
    forall i | 0 <= i < |middle|
      ensures middle[i].key != ScriptDeprecations
    {
      if i >= |conflicts| + |widgetErrors| {
        assert middle[i] == passages[i - |conflicts| - |widgetErrors|];
      } else if i >= |conflicts| {
        assert middle[i] == widgetErrors[i - |conflicts|];
      }
    }
    Arranged(ParseWarnings(ps), middle, ScriptCheck(file, reading));
  }

  /** Parse warnings in front, nothing under the script deprecations in the
      middle, and the script check's warnings behind give the run's order. */
  lemma Arranged(front: seq<Entry>, middle: seq<Entry>, back: seq<Diag>)
    requires forall i :: 0 <= i < |front| ==> front[i].severity == Warning && front[i].diag.UnclosedExclusion?
    requires InPassages(front)
    requires forall i :: 0 <= i < |middle| ==> middle[i].key != ScriptDeprecations
    ensures Layout(front + middle + FileAll(ScriptDeprecations, Warning, back), |front|, back)
  {
    var out := front + middle + FileAll(ScriptDeprecations, Warning, back);
    assert out[|out| - |back|..] == FileAll(ScriptDeprecations, Warning, back);
    forall i | 0 <= i < |out|
      ensures out[i].key == ScriptDeprecations <==> |out| - |back| <= i
    {
      if i < |front| {
        assert out[i] == front[i];
      } else if i < |front| + |middle| {
        assert out[i] == middle[i - |front|];
      }
    }
  }
}
