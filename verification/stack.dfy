/** The open-tag stack of the tag automaton: `digStackForTag` in its four
    modes, `hiderTag`, and the choice among the contexts of a sub-tag. */
module Stack {
  import opened Wrappers
  import opened Diagnostics
  import opened Registry

  /** `tagtype`: a macro (0), an HTML tag (1), or the empty object `{}` an
      unmatched HTML close pushes for its caller to pop. */
  datatype Kind = MacroTag | HtmlTag | Placeholder

  /** A stack entry; `stage` is the `type` field a sub-tag sets (1, or 2 for
      a macro's last sub-tag) and `pos` the position of the tag, or of the
      latest sub-tag. */
  datatype Frame = Frame(tag: string, stage: nat, kind: Kind, pos: nat)

  const PlaceholderFrame: Frame := Frame("", 0, Placeholder, 0)

  predicate Matches(f: Frame, tag: string, kind: Kind) {
    f.tag == tag && f.kind == kind
  }

  /** How `digStackForTag` is asked to search: `subtype` 1, 2, 0 and -1. */
  datatype DigMode = HtmlClose | Unordered | Strict | EndOfText

  /** The index it returns (1-based, 0 for not found), the stack it leaves
      and the warnings it files. */
  datatype Dug = Dug(index: nat, stack: seq<Frame>, warnings: seq<Diag>)

  /** Mode 1, the close of an HTML tag: a match on top is reported at the
      top; anything else gets a placeholder pushed, and a warning unless the
      stack was empty, so the caller's pop never fails. */
  function DigHtml(stack: seq<Frame>, tag: string, pos: nat): (d: Dug)
    ensures d.index == |d.stack| > 0
    ensures d.stack[..|d.stack| - 1]
      == if |stack| > 0 && Matches(stack[|stack| - 1], tag, HtmlTag) then stack[..|stack| - 1] else stack
    ensures d.warnings
      == if |stack| > 0 && !Matches(stack[|stack| - 1], tag, HtmlTag) then [UnmatchedHtmlClose(pos)] else []
  {
    var n := |stack|;
    if n != 0 && Matches(stack[n - 1], tag, HtmlTag) then Dug(n, stack, [])
    else
      assert (stack + [PlaceholderFrame])[..n] == stack;
      Dug(n + 1, stack + [PlaceholderFrame], if n != 0 then [UnmatchedHtmlClose(pos)] else [])
  }

  /** Mode 2, an unordered sub-tag: the 1-based index of the topmost open
      macro with the tag, or 0; the stack is not touched. */
  function DigUnordered(stack: seq<Frame>, tag: string): (i: nat)
    ensures i <= |stack|
    ensures i > 0 ==> Matches(stack[i - 1], tag, MacroTag)
    ensures forall j :: i <= j < |stack| ==> !Matches(stack[j], tag, MacroTag)
    decreases |stack|
  {
    if |stack| == 0 then 0
    else if Matches(stack[|stack| - 1], tag, MacroTag) then |stack|
    else DigUnordered(stack[..|stack| - 1], tag)
  }

  /** Modes 0 and -1: HTML frames (and placeholders) are popped from the top,
      with a warning each, until a macro frame or the bottom is reached; the
      search succeeds only when that macro frame has the tag. */
  function DigStrict(stack: seq<Frame>, tag: string, pos: nat, atEnd: bool): (d: Dug)
    ensures |d.stack| <= |stack| && d.stack == stack[..|d.stack|]
    ensures |d.warnings| == |stack| - |d.stack|
    ensures d.index == 0 || d.index == |d.stack|
    decreases |stack|
  {
    if |stack| == 0 then Dug(0, [], [])
    else
      var last := stack[|stack| - 1];
      if Matches(last, tag, MacroTag) then Dug(|stack|, stack, [])
      else if last.kind == MacroTag then Dug(0, stack, [])
      else
        var w := if atEnd then DiscardedAtEnd(last.pos) else DiscardedBefore(last.pos, pos);
        var d := DigStrict(stack[..|stack| - 1], tag, pos, atEnd);
        Dug(d.index, d.stack, [w] + d.warnings)
  }

  /** `digStackForTag(stack, tag, subtype, pos, ...)`. */
  function Dig(stack: seq<Frame>, tag: string, mode: DigMode, pos: nat): Dug {
    match mode
    case HtmlClose => DigHtml(stack, tag, pos)
    case Unordered => Dug(DigUnordered(stack, tag), stack, [])
    case Strict => DigStrict(stack, tag, pos, false)
    case EndOfText => DigStrict(stack, tag, pos, true)
  }

  /** The warning the strict search files for a discarded frame. */
  function Discarded(f: Frame, pos: nat, atEnd: bool): Diag {
    if atEnd then DiscardedAtEnd(f.pos) else DiscardedBefore(f.pos, pos)
  }

  /** The strict search discards only non-macro frames, from the top down,
      one warning each naming the frame, and stops at the first macro frame;
      it succeeds exactly when that frame has the tag, and then the frame is
      on top. */
  lemma {:induction false} DigStrictSpec(stack: seq<Frame>, tag: string, pos: nat, atEnd: bool)
    ensures var d := DigStrict(stack, tag, pos, atEnd);
      && (forall j :: |d.stack| <= j < |stack| ==> stack[j].kind != MacroTag)
      && (forall k :: 0 <= k < |d.warnings| ==> d.warnings[k] == Discarded(stack[|stack| - 1 - k], pos, atEnd))
      && (|d.stack| == 0 || d.stack[|d.stack| - 1].kind == MacroTag)
      && (d.index != 0 <==> |d.stack| > 0 && Matches(d.stack[|d.stack| - 1], tag, MacroTag))
    decreases |stack|
  {
    if |stack| > 0 {
      var last := stack[|stack| - 1];
      if !Matches(last, tag, MacroTag) && last.kind != MacroTag {
        var rest := stack[..|stack| - 1];
        var d := DigStrict(rest, tag, pos, atEnd);
        DigStrictSpec(rest, tag, pos, atEnd);
        var dd := DigStrict(stack, tag, pos, atEnd);
        assert dd.warnings == [Discarded(last, pos, atEnd)] + d.warnings;
        forall j | |dd.stack| <= j < |stack|
          ensures stack[j].kind != MacroTag
        {
          if j < |rest| {
            assert stack[j] == rest[j];
          }
        }
        forall k | 0 <= k < |dd.warnings|
          ensures dd.warnings[k] == Discarded(stack[|stack| - 1 - k], pos, atEnd)
        {
          if k > 0 {
            assert dd.warnings[k] == d.warnings[k - 1];
            assert stack[|stack| - 1 - k] == rest[|rest| - 1 - (k - 1)];
          }
        }
      }
    }
  }

  /** The unordered search finds an open macro frame exactly when there is
      one with the tag, and it finds the topmost. */
  lemma DigUnorderedFinds(stack: seq<Frame>, tag: string)
    ensures DigUnordered(stack, tag) == 0 <==> forall j :: 0 <= j < |stack| ==> !Matches(stack[j], tag, MacroTag)
  {
  }

  /** `hiderTag` as written: pops frames with another tag, remembering them,
      until one with the tag shows up; then the first remembered frame. */
  function HiderFrom(stack: seq<Frame>, tag: string, hider: seq<Frame>): Option<Frame>
    decreases |stack|
  {
    if |stack| == 0 then None
    else if stack[|stack| - 1].tag != tag then HiderFrom(stack[..|stack| - 1], tag, hider + [stack[|stack| - 1]])
    else if |hider| > 0 then Some(hider[0])
    else None
  }

  /** `hiderTag(stack, tag)`. */
  function HiderTag(stack: seq<Frame>, tag: string): Option<Frame> {
    HiderFrom(stack, tag, [])
  }

  predicate HasTagBelow(stack: seq<Frame>, tag: string) {
    exists j :: 0 <= j < |stack| && stack[j].tag == tag
  }

  /** The frame `hiderTag` blames is the top one, and there is one exactly
      when the top has another tag and some frame below has this one. */
  lemma HiderTagSpec(stack: seq<Frame>, tag: string)
    ensures var h := HiderTag(stack, tag);
      && (h.Some? <==> |stack| > 0 && stack[|stack| - 1].tag != tag && HasTagBelow(stack, tag))
      && (h.Some? ==> h.value == stack[|stack| - 1])
  {
    if |stack| > 0 && stack[|stack| - 1].tag != tag {
      var rest := stack[..|stack| - 1];
      assert [] + [stack[|stack| - 1]] == [stack[|stack| - 1]];
      HiderFromSpec(rest, tag, [stack[|stack| - 1]]);
      if HasTagBelow(stack, tag) {
        var j :| 0 <= j < |stack| && stack[j].tag == tag;
        assert rest[j] == stack[j];
      }
      if HasTagBelow(rest, tag) {
        var j :| 0 <= j < |rest| && rest[j].tag == tag;
        assert stack[j] == rest[j];
      }
    }
  }

  lemma {:induction false} HiderFromSpec(stack: seq<Frame>, tag: string, hider: seq<Frame>)
    requires |hider| > 0
    ensures HiderFrom(stack, tag, hider) == if HasTagBelow(stack, tag) then Some(hider[0]) else None
    decreases |stack|
  {
    if |stack| > 0 {
      var rest := stack[..|stack| - 1];
      if stack[|stack| - 1].tag != tag {
        HiderFromSpec(rest, tag, hider + [stack[|stack| - 1]]);
        if HasTagBelow(stack, tag) {
          var j :| 0 <= j < |stack| && stack[j].tag == tag;
          assert rest[j] == stack[j];
        }
        if HasTagBelow(rest, tag) {
          var j :| 0 <= j < |rest| && rest[j].tag == tag;
          assert stack[j] == rest[j];
        }
      }
    }
  }

  // ---------------------------------------------------------------------
  // Choosing the context of a sub-tag

  /** A context whose macro is open somewhere on the stack. */
  predicate IsOpen(c: Context, stack: seq<Frame>) {
    DigUnordered(stack, c.main) != 0
  }

  /** A context the search settles on: open, and on top if it is ordered. */
  predicate Fits(c: Context, stack: seq<Frame>) {
    var i := DigUnordered(stack, c.main);
    i != 0 && (!c.ordered || i == |stack|)
  }

  /** The outcome of choosing: a context, or the warning call that reads the
      undeclared `index` and so throws a `ReferenceError`. */
  datatype Choice = Chosen(ctx: Context) | SkipOrder

  /** The search loop over `ctxs[i..]`; `open` records whether an earlier
      context was open without fitting (`bestOption`). */
  function ChooseFrom(ctxs: seq<Context>, stack: seq<Frame>, i: nat, open: bool): Choice
    requires 0 < |ctxs| && i <= |ctxs|
    decreases |ctxs| - i
  {
    if i == |ctxs| then (if open then SkipOrder else Chosen(ctxs[0]))
    else if Fits(ctxs[i], stack) then Chosen(ctxs[i])
    else ChooseFrom(ctxs, stack, i + 1, open || IsOpen(ctxs[i], stack))
  }

  /** The context a sub-tag is checked against. */
  function ChooseContext(ctxs: seq<Context>, stack: seq<Frame>): Choice
    requires |ctxs| > 0
  {
    if |ctxs| == 1 then Chosen(ctxs[0]) else ChooseFrom(ctxs, stack, 0, false)
  }

  /** Reference reading: the first index at or after `i` whose context fits. */
  function FirstFit(ctxs: seq<Context>, stack: seq<Frame>, i: nat): (k: int)
    requires i <= |ctxs|
    ensures k == -1 || i <= k < |ctxs|
    ensures k == -1 <==> forall j :: i <= j < |ctxs| ==> !Fits(ctxs[j], stack)
    ensures k != -1 ==> Fits(ctxs[k], stack) && forall j :: i <= j < k ==> !Fits(ctxs[j], stack)
    decreases |ctxs| - i
  {
    if i == |ctxs| then -1
    else if Fits(ctxs[i], stack) then i
    else FirstFit(ctxs, stack, i + 1)
  }

  predicate SomeOpen(ctxs: seq<Context>, stack: seq<Frame>, i: nat) {
    exists j :: i <= j < |ctxs| && IsOpen(ctxs[j], stack)
  }

  lemma {:induction false} ChooseFromSpec(ctxs: seq<Context>, stack: seq<Frame>, i: nat, open: bool)
    requires 0 < |ctxs| && i <= |ctxs|
    ensures var k := FirstFit(ctxs, stack, i);
      ChooseFrom(ctxs, stack, i, open)
        == if k != -1 then Chosen(ctxs[k])
           else if open || SomeOpen(ctxs, stack, i) then SkipOrder
           else Chosen(ctxs[0])
    decreases |ctxs| - i
  {
    if i < |ctxs| && !Fits(ctxs[i], stack) {
      ChooseFromSpec(ctxs, stack, i + 1, open || IsOpen(ctxs[i], stack));
      if SomeOpen(ctxs, stack, i) && !IsOpen(ctxs[i], stack) {
        var j :| i <= j < |ctxs| && IsOpen(ctxs[j], stack);
        assert i + 1 <= j;
      }
      if SomeOpen(ctxs, stack, i + 1) {
        var j :| i + 1 <= j < |ctxs| && IsOpen(ctxs[j], stack);
        assert i <= j;
      }
    }
  }

  /** With several contexts, a sub-tag is checked against the first that
      fits; when none fits, the check throws exactly when one of them is open
      all the same, and otherwise falls back on the first context. A single
      context is taken without looking at the stack. */
  lemma ChooseContextSpec(ctxs: seq<Context>, stack: seq<Frame>)
    requires |ctxs| > 0
    ensures |ctxs| == 1 ==> ChooseContext(ctxs, stack) == Chosen(ctxs[0])
    ensures |ctxs| > 1 ==> var k := FirstFit(ctxs, stack, 0);
      ChooseContext(ctxs, stack)
        == if k != -1 then Chosen(ctxs[k])
           else if SomeOpen(ctxs, stack, 0) then SkipOrder
           else Chosen(ctxs[0])
  {
    if |ctxs| > 1 {
      ChooseFromSpec(ctxs, stack, 0, false);
    }
  }
}
