/** `matchTags`: the automaton that walks a passage from one `<` to the next,
    keeping a stack of open macros and HTML tags. */
module Tags {
  import opened Wrappers
  import opened JsStrings
  import opened Diagnostics
  import opened Registry
  import opened Names
  import opened Stack
  import opened Readings

  /** The HTML tags the automaton keeps track of; any other `<name` is text. */
  const HtmlTags: set<string> := {
    "div", "b", "strong", "strike", "u", "i", "li", "ul", "h1", "h2", "h3", "p",
    "table", "tbody", "th", "tr", "td", "label", "span", "a", "link", "button", "center"}

  /** What one `<` asks the automaton to do. */
  datatype Action =
    | Skip(cursor: nat)                                    // `continue` with the cursor where it stands
    | Fatal(diag: Diag)                                    // `throwError`
    | Push(frame: Frame)                                   // an opening macro or HTML tag
    | Sub(main: string, ordered: bool, last: bool)         // a sub-tag such as `elseif` or `case`
    | Close(tag: string, mode: DigMode)                    // a closing macro or HTML tag

  /** A `<` at `q`: every position the automaton reports is one. */
  predicate AtTag(html: string, q: int) {
    0 <= q < |html| && html[q] == '<'
  }

  /** The diagnostics `matchTags` files, each pointing at the `<` of a tag. */
  predicate DiagAtTag(html: string, d: Diag) {
    match d
    case UnmatchedHtmlClose(q) => AtTag(html, q)
    case DiscardedAtEnd(q) => AtTag(html, q)
    case DiscardedBefore(q, q') => AtTag(html, q) && AtTag(html, q')
    case UnmatchedTag(q) => AtTag(html, q)
    case BrokenClosingMacro(q) => AtTag(html, q)
    case UnrecognizedMacro(q) => AtTag(html, q)
    case UnrecognizedMacroClose(q) => AtTag(html, q)
    case MacroShouldNotBeClosed(q) => AtTag(html, q)
    case UnrecognizedClosing(q) => AtTag(html, q)
    case InvalidMacro(q) => AtTag(html, q)
    case BrokenClosingTag(q) => AtTag(html, q)
    case MissingParent(_, q) => AtTag(html, q)
    case MangledTag(q, q') => AtTag(html, q) && AtTag(html, q')
    case BranchInLastStage(q) => AtTag(html, q)
    case UnhandledException => true
    case _ => false
  }

  /** The warnings the automaton files without stopping. */
  predicate IsStackWarning(d: Diag) {
    d.UnmatchedHtmlClose? || d.DiscardedAtEnd? || d.DiscardedBefore?
  }

  /** A frame the automaton pushes: a real tag, read in full, at a `<`, whose
      stage is 0 for HTML tags and at most 2 for macros. */
  predicate FrameOk(html: string, f: Frame) {
    && f.kind != Placeholder
    && IsTagName(f.tag)
    && AtTag(html, f.pos)
    && f.stage <= 2
    && (f.kind == HtmlTag ==> f.stage == 0)
  }

  predicate StackOk(html: string, stack: seq<Frame>) {
    forall i :: 0 <= i < |stack| ==> FrameOk(html, stack[i])
  }

  /** The part of the loop body after a macro name was read at `p` and, for a
      close, found followed by `>>`: the entry decides. */
  function MacroAction(name: string, closing: bool, entry: Option<Macro>, stack: seq<Frame>, p: nat): (a: Action)
    ensures entry.None? ==> a == Fatal(if closing then UnrecognizedMacroClose(p) else UnrecognizedMacro(p))
    ensures entry.Some? && !entry.value.closed && closing ==> a == Fatal(MacroShouldNotBeClosed(p))
    ensures entry.Some? && entry.value.closed ==> a == if closing then Close(name, Strict) else Push(Frame(name, 0, MacroTag, p))
    ensures entry.Some? && !entry.value.closed && !closing && entry.value.replacend != "" ==>
      a == Close(entry.value.replacend, Strict)
    ensures a.Skip? ==> a.cursor == p + 2 && !closing
    ensures a.Push? ==> a.frame == Frame(name, 0, MacroTag, p)
    ensures a.Close? ==> a.mode == Strict
    ensures a.Fatal? ==> a.diag in {UnrecognizedMacro(p), UnrecognizedMacroClose(p), MacroShouldNotBeClosed(p), UnhandledException}
  {
    match entry
    case None => Fatal(if closing then UnrecognizedMacroClose(p) else UnrecognizedMacro(p))
    case Some(m) =>
      if !m.closed then
        if closing then Fatal(MacroShouldNotBeClosed(p))
        else if m.replacend != "" then Close(m.replacend, Strict)
        else if |m.ctx| == 0 then Skip(p + 2)
        else match ChooseContext(m.ctx, stack)
          case SkipOrder => Fatal(UnhandledException)
          case Chosen(c) => Sub(c.main, c.ordered, c.last)
      else if closing then Close(name, Strict)
      else Push(Frame(name, 0, MacroTag, p))
  }

  /** The `<<` at `p` is a close, `<</`. */
  predicate ClosingAt(html: string, p: nat) {
    p + 2 < |html| && html[p + 2] == '/'
  }

  /** The bounds of the name read after the `<<` or `<</` at `p`. */
  function MacroNameAt(html: string, p: nat): (nat, nat) {
    TagNameAt(html, if ClosingAt(html, p) then p + 3 else p + 2)
  }

  /** A `<<` at `p` followed by a name. */
  predicate MacroTagAt(html: string, p: nat) {
    PairAt(html, '<', p) && MacroNameAt(html, p).0 < MacroNameAt(html, p).1
  }

  function MacroName(html: string, p: nat): string
    requires MacroTagAt(html, p)
  {
    html[MacroNameAt(html, p).0..MacroNameAt(html, p).1]
  }

  /** A close's name is followed by `>>`; an opening needs nothing. */
  predicate CloseWellFormed(html: string, p: nat) {
    ClosingAt(html, p) ==> PairAt(html, '>', MacroNameAt(html, p).1)
  }

  /** The name has an entry, and it is not a closed macro. */
  predicate UnclosedEntry(reg: Registry, name: string, reading: Reading) {
    Find(reg, name, reading).Some? && !Find(reg, name, reading).value.closed
  }

  /** The loop body of `matchTags` for the `<` at `p`, up to the stack update. */
  function ClassifyIn(html: string, reg: Registry, stack: seq<Frame>, p: nat, reading: Reading): (a: Action)
    requires AtTag(html, p)
    ensures a.Skip? ==> p < a.cursor <= p + 3
    ensures a.Push? ==> FrameOk(html, a.frame) && a.frame.pos == p
    ensures a.Fatal? ==> DiagAtTag(html, a.diag)
    ensures a.Close? ==> a.mode == Strict || a.mode == HtmlClose
    ensures !PairAt(html, '<', p) ==>
      || a.Skip?
      || (a.Fatal? && a.diag == BrokenClosingTag(p))
      || (a.Push? && a.frame.kind == HtmlTag && a.frame.tag in HtmlTags)
      || (a.Close? && a.mode == HtmlClose && a.tag in HtmlTags)
    ensures PairAt(html, '<', p) ==> !(a.Close? && a.mode == HtmlClose) && !(a.Push? && a.frame.kind == HtmlTag)
    // the fatal cases of a macro tag
    ensures MacroTagAt(html, p) && !CloseWellFormed(html, p) ==> a == Fatal(BrokenClosingMacro(p))
    ensures MacroTagAt(html, p) && CloseWellFormed(html, p) && Find(reg, MacroName(html, p), reading).None? ==>
      a == Fatal(if ClosingAt(html, p) then UnrecognizedMacroClose(p) else UnrecognizedMacro(p))
    ensures MacroTagAt(html, p) && CloseWellFormed(html, p) && ClosingAt(html, p) &&
            UnclosedEntry(reg, MacroName(html, p), reading)
      ==> a == Fatal(MacroShouldNotBeClosed(p))
    ensures PairAt(html, '<', p) && !MacroTagAt(html, p) && ClosingAt(html, p) ==> a == Fatal(UnrecognizedClosing(p))
  {
    if p + 1 < |html| && html[p + 1] == '<' then
      var closing := ClosingAt(html, p);
      var from := if closing then p + 3 else p + 2;
      var nameAt := MacroNameAt(html, p);
      if nameAt.0 != nameAt.1 then
        var name := html[nameAt.0..nameAt.1];
        if closing && !PairAt(html, '>', nameAt.1) then Fatal(BrokenClosingMacro(p))
        else MacroAction(name, closing, Find(reg, name, reading), stack, p)
      else if closing then Fatal(UnrecognizedClosing(p))
      else if CharAt(html, nameAt.0) != "-" && CharAt(html, nameAt.0) != "=" then Fatal(InvalidMacro(p))
      else Skip(from)
    else
      var closing := p + 1 < |html| && html[p + 1] == '/';
      var from := if closing then p + 2 else p + 1;
      var nameAt := TagNameAt(html, from);
      if nameAt.0 != nameAt.1 && html[nameAt.0..nameAt.1] in HtmlTags then
        var name := html[nameAt.0..nameAt.1];
        if !closing then Push(Frame(name, 0, HtmlTag, p))
        else if CharAt(html, nameAt.1) != ">" then Fatal(BrokenClosingTag(p))
        else Close(name, HtmlClose)
      else Skip(from)
  }

  /** The outcome of one pass of the loop: go on from `cursor` with the new
      stack, or stop with an error; either way with the warnings filed. */
  datatype Step =
    | Continue(stack: seq<Frame>, warnings: seq<Diag>, cursor: nat)
    | Stop(warnings: seq<Diag>, error: Diag)

  /** The error of a failed search: `hiderTag` tells a mangled nesting from a
      missing parent or unmatched close. */
  function NotFound(stack: seq<Frame>, tag: string, p: nat, missing: Diag): Diag {
    match HiderTag(stack, tag)
    case None => missing
    case Some(h) => MangledTag(p, h.pos)
  }

  /** The stack update of the loop body (lines after the `nextPos` test). */
  function Apply(a: Action, stack: seq<Frame>, p: nat): (s: Step)
  {
    match a
    case Skip(c) => Continue(stack, [], c)
    case Fatal(d) => Stop([], d)
    case Push(f) => Continue(stack + [f], [], p + 3)
    case Sub(main, ordered, last) =>
      var d := Dig(stack, main, if ordered then Strict else Unordered, p);
      if d.index == 0 then Stop(d.warnings, NotFound(d.stack, main, p, MissingParent(main, p)))
      else if !ordered then Continue(d.stack, d.warnings, p + 3)
      else
        var top := d.stack[|d.stack| - 1];
        if top.stage == 2 then Stop(d.warnings, BranchInLastStage(p))
        else Continue(d.stack[..|d.stack| - 1] + [top.(stage := if last then 2 else 1, pos := p)], d.warnings, p + 3)
    case Close(tag, mode) =>
      var d := Dig(stack, tag, mode, p);
      if d.index == 0 then Stop(d.warnings, NotFound(d.stack, tag, p, UnmatchedTag(p)))
      else Continue(d.stack[..|d.stack| - 1], d.warnings, p + 3)
  }

  /** The end of the text: the strict search for no tag discards the HTML
      frames on top; a macro frame left over is an unmatched tag. */
  function Finish(stack: seq<Frame>): (o: MatchOut) {
    var d := DigStrict(stack, "", 0, true);
    if |d.stack| > 0 then MatchOut(d.warnings, Some(UnmatchedTag(d.stack[|d.stack| - 1].pos)))
    else MatchOut(d.warnings, None)
  }

  /** What `matchTags` leaves behind: the warnings it filed, and the error it
      threw, if any. */
  datatype MatchOut = MatchOut(warnings: seq<Diag>, error: Option<Diag>)

  /** The loop of `matchTags` from `cursor` with `stack`. */
  function MatchFrom(html: string, reg: Registry, stack: seq<Frame>, cursor: nat, reading: Reading): (o: MatchOut)
    requires StackOk(html, stack)
    ensures forall i :: 0 <= i < |o.warnings| ==> IsStackWarning(o.warnings[i]) && DiagAtTag(html, o.warnings[i])
    ensures o.error.Some? ==> DiagAtTag(html, o.error.value)
    // with no `<` left, the end-of-text check decides
    ensures CharFrom(html, '<', cursor) == -1 ==> o == Finish(stack)
    decreases |html| + 3 - cursor
  {
    var p := CharFrom(html, '<', cursor);
    if p == -1 then
      FinishSpec(html, stack);
      Finish(stack)
    else
      var a := ClassifyIn(html, reg, stack, p, reading);
      ApplyOk(html, a, stack, p);
      match Apply(a, stack, p)
      case Stop(ws, d) => MatchOut(ws, Some(d))
      case Continue(s, ws, c) =>
        var o := MatchFrom(html, reg, s, c, reading);
        MatchOut(ws + o.warnings, o.error)
  }

  /** `matchTags(html, passage)`. */
  function MatchTags(html: string, reg: Registry, reading: Reading): (o: MatchOut)
    ensures forall i :: 0 <= i < |o.warnings| ==> IsStackWarning(o.warnings[i]) && DiagAtTag(html, o.warnings[i])
    ensures o.error.Some? ==> DiagAtTag(html, o.error.value)
    ensures CharFrom(html, '<', 0) == -1 ==> o == MatchOut([], None)
  {
    MatchFrom(html, reg, [], 0, reading)
  }

  /** A fatal tag ends the automaton where it stands: when the next `<`
      from the cursor is a close without `>>` after its name, a macro name
      without an entry, or a close of an unclosed macro, the automaton stops
      with that error and files nothing more. */
  lemma MacroErrorsStop(html: string, reg: Registry, stack: seq<Frame>, cursor: nat, reading: Reading, p: nat)
    requires StackOk(html, stack)
    requires p == CharFrom(html, '<', cursor) && MacroTagAt(html, p)
    ensures !CloseWellFormed(html, p) ==>
      MatchFrom(html, reg, stack, cursor, reading) == MatchOut([], Some(BrokenClosingMacro(p)))
    ensures CloseWellFormed(html, p) && Find(reg, MacroName(html, p), reading).None? ==>
      MatchFrom(html, reg, stack, cursor, reading)
        == MatchOut([], Some(if ClosingAt(html, p) then UnrecognizedMacroClose(p) else UnrecognizedMacro(p)))
    ensures CloseWellFormed(html, p) && ClosingAt(html, p) && UnclosedEntry(reg, MacroName(html, p), reading) ==>
      MatchFrom(html, reg, stack, cursor, reading) == MatchOut([], Some(MacroShouldNotBeClosed(p)))
  {
  }

  // ---------------------------------------------------------------------
  // The stack update keeps the frames well formed

  predicate StepOk(html: string, s: Step, cursor: nat) {
    && (forall i :: 0 <= i < |s.warnings| ==> IsStackWarning(s.warnings[i]) && DiagAtTag(html, s.warnings[i]))
    && (s.Stop? ==> DiagAtTag(html, s.error))
    && (s.Continue? ==> StackOk(html, s.stack) && cursor < s.cursor <= |html| + 3)
  }

  lemma StrictWarningsAt(html: string, stack: seq<Frame>, tag: string, p: nat, atEnd: bool)
    requires StackOk(html, stack) && (atEnd || AtTag(html, p))
    ensures var d := DigStrict(stack, tag, p, atEnd);
      && StackOk(html, d.stack)
      && forall i :: 0 <= i < |d.warnings| ==> IsStackWarning(d.warnings[i]) && DiagAtTag(html, d.warnings[i])
  {
    DigStrictSpec(stack, tag, p, atEnd);
    var d := DigStrict(stack, tag, p, atEnd);
    forall i | 0 <= i < |d.warnings|
      ensures IsStackWarning(d.warnings[i]) && DiagAtTag(html, d.warnings[i])
    {
      assert FrameOk(html, stack[|stack| - 1 - i]);
    }
    forall i | 0 <= i < |d.stack|
      ensures FrameOk(html, d.stack[i])
    {
      assert d.stack[i] == stack[i];
    }
  }

  lemma NotFoundAt(html: string, stack: seq<Frame>, tag: string, p: nat, missing: Diag)
    requires StackOk(html, stack) && AtTag(html, p) && DiagAtTag(html, missing)
    ensures DiagAtTag(html, NotFound(stack, tag, p, missing))
  {
    HiderTagSpec(stack, tag);
    if HiderTag(stack, tag).Some? {
      assert FrameOk(html, stack[|stack| - 1]);
    }
  }

  lemma ApplyOk(html: string, a: Action, stack: seq<Frame>, p: nat)
    requires StackOk(html, stack) && AtTag(html, p)
    requires a.Skip? ==> p < a.cursor <= p + 3
    requires a.Push? ==> FrameOk(html, a.frame)
    requires a.Fatal? ==> DiagAtTag(html, a.diag)
    ensures StepOk(html, Apply(a, stack, p), p)
  {
    match a
    case Skip(_) =>
    case Fatal(_) =>
    case Push(f) =>
    case Sub(main, ordered, last) => ApplySubOk(html, main, ordered, last, stack, p);
    case Close(tag, mode) =>
      if mode == HtmlClose {
        ApplyHtmlCloseOk(html, tag, stack, p);
      } else if mode != Unordered {
        ApplyStrictCloseOk(html, tag, mode, stack, p);
      } else {
        ApplyUnorderedCloseOk(html, tag, stack, p);
      }
  }

  lemma ApplySubOk(html: string, main: string, ordered: bool, last: bool, stack: seq<Frame>, p: nat)
    requires StackOk(html, stack) && AtTag(html, p)
    ensures StepOk(html, Apply(Sub(main, ordered, last), stack, p), p)
  {
    var mode := if ordered then Strict else Unordered;
    var d := Dig(stack, main, mode, p);
    if ordered {
      StrictWarningsAt(html, stack, main, p, false);
      DigStrictSpec(stack, main, p, false);
    }
    if d.index == 0 {
      NotFoundAt(html, d.stack, main, p, MissingParent(main, p));
    } else if ordered {
      var top := d.stack[|d.stack| - 1];
      assert FrameOk(html, top);
      var s := d.stack[..|d.stack| - 1] + [top.(stage := if last then 2 else 1, pos := p)];
      forall i | 0 <= i < |s|
        ensures FrameOk(html, s[i])
      {
        if i < |d.stack| - 1 {
          assert s[i] == d.stack[i];
        }
      }
    }
  }

  lemma ApplyHtmlCloseOk(html: string, tag: string, stack: seq<Frame>, p: nat)
    requires StackOk(html, stack) && AtTag(html, p)
    ensures StepOk(html, Apply(Close(tag, HtmlClose), stack, p), p)
  {
    var d := Dig(stack, tag, HtmlClose, p);
    var pop := d.stack[..|d.stack| - 1];
    forall i | 0 <= i < |pop|
      ensures FrameOk(html, pop[i])
    {
      assert pop[i] == stack[i];
    }
  }

  lemma ApplyStrictCloseOk(html: string, tag: string, mode: DigMode, stack: seq<Frame>, p: nat)
    requires mode == Strict || mode == EndOfText
    requires StackOk(html, stack) && AtTag(html, p)
    ensures StepOk(html, Apply(Close(tag, mode), stack, p), p)
  {
    var d := Dig(stack, tag, mode, p);
    var atEnd := mode == EndOfText;
    assert d == DigStrict(stack, tag, p, atEnd);
    StrictWarningsAt(html, stack, tag, p, atEnd);
    if d.index == 0 {
      NotFoundAt(html, d.stack, tag, p, UnmatchedTag(p));
    } else {
      var pop := d.stack[..|d.stack| - 1];
      forall i | 0 <= i < |pop|
        ensures FrameOk(html, pop[i])
      {
        assert pop[i] == d.stack[i];
      }
    }
  }

  lemma ApplyUnorderedCloseOk(html: string, tag: string, stack: seq<Frame>, p: nat)
    requires StackOk(html, stack) && AtTag(html, p)
    ensures StepOk(html, Apply(Close(tag, Unordered), stack, p), p)
  {
    var d := Dig(stack, tag, Unordered, p);
    if d.index == 0 {
      NotFoundAt(html, stack, tag, p, UnmatchedTag(p));
    } else {
      var pop := d.stack[..|d.stack| - 1];
      forall i | 0 <= i < |pop|
        ensures FrameOk(html, pop[i])
      {
        assert pop[i] == stack[i];
      }
    }
  }

  // ---------------------------------------------------------------------
  // The end of the text

  /** Reference reading: the index of the topmost macro frame, or -1. */
  function TopMacro(stack: seq<Frame>): (k: int)
    ensures -1 <= k < |stack|
    ensures k >= 0 ==> stack[k].kind == MacroTag
    ensures forall j :: k < j < |stack| ==> stack[j].kind != MacroTag
    decreases |stack|
  {
    if |stack| == 0 then -1
    else if stack[|stack| - 1].kind == MacroTag then |stack| - 1
    else TopMacro(stack[..|stack| - 1])
  }

  /** At the end of the text the HTML frames above the topmost macro frame
      each get a warning, and the text fails exactly when a macro frame is
      left, at the position of the topmost one. */
  lemma FinishSpec(html: string, stack: seq<Frame>)
    requires StackOk(html, stack)
    ensures var o := Finish(stack); var k := TopMacro(stack);
      && o.error == (if k == -1 then None else Some(UnmatchedTag(stack[k].pos)))
      && |o.warnings| == |stack| - 1 - k
      && (forall i :: 0 <= i < |o.warnings| ==> IsStackWarning(o.warnings[i]) && DiagAtTag(html, o.warnings[i]))
      && (o.error.Some? ==> DiagAtTag(html, o.error.value))
  {
    DigStrictSpec(stack, "", 0, true);
    StrictWarningsAt(html, stack, "", 0, true);
    var d := DigStrict(stack, "", 0, true);
    var k := TopMacro(stack);
    if |d.stack| > 0 {
      assert d.stack[|d.stack| - 1] == stack[|d.stack| - 1];
      assert k == |d.stack| - 1;
      assert FrameOk(html, stack[k]);
    } else {
      assert k == -1;
    }
  }

  // ---------------------------------------------------------------------
  // Properties of single steps

  /** Closing an HTML tag never stops the automaton: a matching tag on top is
      popped, anything else leaves the stack as it was, with a warning when
      the stack was not empty. */
  lemma HtmlCloseNeverFails(stack: seq<Frame>, tag: string, p: nat)
    ensures var s := Apply(Close(tag, HtmlClose), stack, p);
      && s.Continue?
      && s.stack == (if |stack| > 0 && Matches(stack[|stack| - 1], tag, HtmlTag) then stack[..|stack| - 1] else stack)
      && s.warnings == (if |stack| > 0 && !Matches(stack[|stack| - 1], tag, HtmlTag) then [UnmatchedHtmlClose(p)] else [])
  {
  }

  /** An unordered sub-tag never changes the stack: it passes when its macro
      is open anywhere, and otherwise stops the automaton. */
  lemma UnorderedSubKeepsStack(stack: seq<Frame>, main: string, last: bool, p: nat)
    ensures var s := Apply(Sub(main, false, last), stack, p);
      && (s.Continue? <==> exists j :: 0 <= j < |stack| && Matches(stack[j], main, MacroTag))
      && (s.Continue? ==> s.stack == stack && s.warnings == [])
  {
    DigUnorderedFinds(stack, main);
  }

  /** An ordered `last` sub-tag (`else`, `default`) moves its macro to stage
      2, after which a further ordered sub-tag of it stops the automaton. */
  lemma LastStageIsFinal(stack: seq<Frame>, main: string, p: nat, q: nat, last: bool)
    requires Apply(Sub(main, true, true), stack, p).Continue?
    ensures var s := Apply(Sub(main, true, true), stack, p).stack;
      && |s| > 0 && s[|s| - 1].stage == 2 && s[|s| - 1].tag == main && s[|s| - 1].pos == p
      && Apply(Sub(main, true, last), s, q) == Stop([], BranchInLastStage(q))
  {
    var d := DigStrict(stack, main, p, false);
    DigStrictSpec(stack, main, p, false);
  }

  /** A `<<endX>>` registered by `addDeprecatedEndMacro` is read as the
      close `<</X>>`. */
  lemma DeprecatedEndCloses(r: Registry, name: string, stack: seq<Frame>, p: nat)
    requires |name| > 3
    ensures MacroAction(name, false, Lookup(AddDeprecatedEndMacro(r, name), name), stack, p)
      == Close(name[3..], Strict)
  {
    DeprecatedEndSpec(r, name, name);
  }

  /** Reading `<<toString>>` where no macro of that name was registered: the
      lookup through the prototype chain finds the inherited method and the
      tag is passed over in silence; the own-property lookup reports it. */
  lemma InheritedNameSkipped(reg: Registry)
    requires "toString" !in reg.macros
    ensures ClassifyIn("<<toString>>", reg, [], 0, AsWritten) == Skip(2)
    ensures ClassifyIn("<<toString>>", reg, [], 0, Intended) == Fatal(UnrecognizedMacro(0))
  {
    var html := "<<toString>>";
    assert html == "<<" + "" + "toString" + ">>";
    TagNameRoundTrip("<<", "", "toString", ">>");
  }

  /** Read as an own property, a macro name without an entry always stops
      the automaton, and an opening `<<name` is reported as unrecognized. */
  lemma UnknownMacroRejected(html: string, reg: Registry, stack: seq<Frame>, p: nat)
    requires AtTag(html, p) && PairAt(html, '<', p)
    requires var from := if p + 2 < |html| && html[p + 2] == '/' then p + 3 else p + 2;
      var n := TagNameAt(html, from);
      n.0 < n.1 && html[n.0..n.1] !in reg.macros
    ensures ClassifyIn(html, reg, stack, p, Intended).Fatal?
    ensures !(p + 2 < |html| && html[p + 2] == '/') ==> ClassifyIn(html, reg, stack, p, Intended) == Fatal(UnrecognizedMacro(p))
  {
  }

  /** With `endif` registered as the deprecated alias of `if`, `<<endif>>`
      closes an `<<if>>`. */
  lemma EndifCloses(reg: Registry, stack: seq<Frame>, reading: Reading)
    requires Lookup(reg, "endif") == Some(Macro(false, "if", []))
    ensures ClassifyIn("<<endif>>", reg, stack, 0, reading) == Close("if", Strict)
  {
    var html := "<<endif>>";
    assert html == "<<" + "" + "endif" + ">>";
    TagNameRoundTrip("<<", "", "endif", ">>");
  }
}
