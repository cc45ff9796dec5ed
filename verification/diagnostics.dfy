/** Diagnostics of the validator, reduced to a kind, the positions involved
    and the key they are filed under (the message text is not modelled). */
module Diagnostics {

  datatype Diag =
    // passage extraction: an exclusion opener (index into the table) without closer
    | UnclosedExclusion(entry: nat, pos: nat)
    // quote parity
    | UnevenDoubleQuotes
    | UnevenDualQuotes
    | UnevenDualSlashes
    // quick `<<` / `>>` balance check
    | UnmatchedCloseGTLT(pos: nat)
    | UnmatchedOpenGTLT(pos: nat)
    // tag / macro stack automaton
    | UnmatchedHtmlClose(pos: nat)
    | DiscardedAtEnd(tagPos: nat)
    | DiscardedBefore(tagPos: nat, pos: nat)
    | UnmatchedTag(pos: nat)
    | BrokenClosingMacro(pos: nat)
    | UnrecognizedMacro(pos: nat)
    | UnrecognizedMacroClose(pos: nat)
    | MacroShouldNotBeClosed(pos: nat)
    | UnrecognizedClosing(pos: nat)
    | InvalidMacro(pos: nat)
    | BrokenClosingTag(pos: nat)
    | MissingParent(parent: string, pos: nat)
    | MangledTag(pos: nat, hiderPos: nat)
    | BranchInLastStage(pos: nat)
    // a JavaScript ReferenceError or TypeError caught at the passage boundary
    | UnhandledException
    // deprecated usage
    | DeprecatedInPassage(key: nat, pos: nat)
    | DeprecatedInScript(line: nat, text: string, key: nat, pos: nat)
    // registry and widgets
    | MacroConflict(name: string, pos: nat)
    | WidgetRedefinition(name: string, pos: nat)
    | InvalidWidgetDefinition(pos: nat)
    | WidgetWithoutTag(pos: nat)

  /** The header a diagnostic is filed under: a passage's raw header text, the
      user-script bucket, or the bucket of deprecated user-script code. */
  datatype Key = PassageKey(header: string) | UserScript | ScriptDeprecations

  datatype Severity = Error | Warning

  datatype Entry = Entry(key: Key, severity: Severity, diag: Diag)

  /** Files every diagnostic of `ds` under `key` with one severity. */
  function FileAll(key: Key, sev: Severity, ds: seq<Diag>): (r: seq<Entry>)
    ensures |r| == |ds|
    ensures forall i :: 0 <= i < |ds| ==> r[i] == Entry(key, sev, ds[i])
  {
    if |ds| == 0 then [] else [Entry(key, sev, ds[0])] + FileAll(key, sev, ds[1..])
  }
}
