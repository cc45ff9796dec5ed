/** `matchGTLT`: the quick check that every `<<` of a passage has its `>>`,
    run before the tag automaton. */
module Balance {
  import opened Wrappers
  import opened JsStrings
  import opened Diagnostics

  datatype Token = Open(pos: nat) | Close(pos: nat)

  predicate IsTokenAt(html: string, t: Token) {
    match t
    case Open(p) => PairAt(html, '<', p)
    case Close(p) => PairAt(html, '>', p)
  }

  /** Whichever of `<<` and `>>` comes first at or after `cursor` (the two
      never start at the same index). */
  function NextToken(html: string, cursor: nat): (r: Option<Token>)
    ensures r.None? <==> PairFrom(html, '<', cursor) == -1 && PairFrom(html, '>', cursor) == -1
    ensures r.Some? ==> IsTokenAt(html, r.value) && cursor <= r.value.pos && r.value.pos + 2 <= |html|
    ensures r.Some? ==> forall j :: cursor <= j < r.value.pos ==> !PairAt(html, '<', j) && !PairAt(html, '>', j)
  {
    var s := PairFrom(html, '<', cursor);
    var e := PairFrom(html, '>', cursor);
    if s != -1 && (e == -1 || s < e) then Some(Open(s))
    else if e != -1 && (s == -1 || e < s) then Some(Close(e))
    else None
  }

  /** The search NextToken makes is JavaScript's `indexOf` of `<<` and `>>`. */
  lemma NextTokenIsIndexOf(html: string, cursor: nat)
    requires cursor <= |html|
    ensures PairFrom(html, '<', cursor) == IndexOf(html, "<<", cursor)
    ensures PairFrom(html, '>', cursor) == IndexOf(html, ">>", cursor)
  {
    PairFromIsIndexOf(html, '<', cursor);
    PairFromIsIndexOf(html, '>', cursor);
  }

  /** The `<<` / `>>` tokens from `cursor` on, as the loop meets them. */
  function Tokens(html: string, cursor: nat): (ts: seq<Token>)
    requires cursor <= |html|
    decreases |html| - cursor
  {
    match NextToken(html, cursor)
    case None => []
    case Some(t) => [t] + Tokens(html, t.pos + 2)
  }

  /** Every token is a `<<` or `>>` of the text at or after the cursor, and
      the list is empty exactly when neither occurs there. */
  lemma {:induction false} TokensFound(html: string, cursor: nat)
    requires cursor <= |html|
    ensures var ts := Tokens(html, cursor);
      && (forall i :: 0 <= i < |ts| ==> IsTokenAt(html, ts[i]) && cursor <= ts[i].pos)
      && (|ts| == 0 <==> PairFrom(html, '<', cursor) == -1 && PairFrom(html, '>', cursor) == -1)
    decreases |html| - cursor
  {
    match NextToken(html, cursor)
    case None =>
    case Some(t) =>
      var rest := Tokens(html, t.pos + 2);
      TokensFound(html, t.pos + 2);
      assert Tokens(html, cursor) == [t] + rest;
  }

  /** The reference reading: a depth counter started at `h`; `None` once a
      `>>` arrives at depth 0, otherwise the final depth. */
  function Walk(h: nat, ts: seq<Token>): (r: Option<nat>)
    decreases |ts|
  {
    if |ts| == 0 then Some(h)
    else if ts[0].Open? then Walk(h + 1, ts[1..])
    else if h == 0 then None
    else Walk(h - 1, ts[1..])
  }

  /** The loop of `matchGTLT` from `cursor` with the stack of open positions. */
  function CheckFrom(html: string, cursor: nat, stack: seq<nat>): (r: Result<(), Diag>)
    requires cursor <= |html|
    ensures r.Failure? ==> r.error.UnmatchedCloseGTLT? || r.error.UnmatchedOpenGTLT?
    decreases |html| - cursor
  {
    match NextToken(html, cursor)
    case None =>
      if |stack| > 0 then Failure(UnmatchedOpenGTLT(stack[|stack| - 1])) else Success(())
    case Some(t) =>
      if t.Open? then CheckFrom(html, t.pos + 2, stack + [t.pos])
      else if |stack| == 0 then Failure(UnmatchedCloseGTLT(t.pos))
      else CheckFrom(html, t.pos + 2, stack[..|stack| - 1])
  }

  /** `matchGTLT(html)`: `Success` or the error it throws. */
  function MatchGTLT(html: string): (r: Result<(), Diag>)
    ensures r.Failure? ==> r.error.UnmatchedCloseGTLT? || r.error.UnmatchedOpenGTLT?
  {
    CheckFrom(html, 0, [])
  }

  /** The loop of `matchGTLT` read over its tokens: the stack of open
      positions, pushed by `<<` and popped by `>>`. */
  function Automaton(ts: seq<Token>, stack: seq<nat>): (r: Result<(), Diag>)
    decreases |ts|
  {
    if |ts| == 0 then
      if |stack| > 0 then Failure(UnmatchedOpenGTLT(stack[|stack| - 1])) else Success(())
    else if ts[0].Open? then Automaton(ts[1..], stack + [ts[0].pos])
    else if |stack| == 0 then Failure(UnmatchedCloseGTLT(ts[0].pos))
    else Automaton(ts[1..], stack[..|stack| - 1])
  }

  /** The loop over the text is the automaton over the text's tokens. */
  lemma {:induction false} CheckIsAutomaton(html: string, cursor: nat, stack: seq<nat>)
    requires cursor <= |html|
    ensures CheckFrom(html, cursor, stack) == Automaton(Tokens(html, cursor), stack)
    decreases |html| - cursor
  {
    var ts := Tokens(html, cursor);
    match NextToken(html, cursor)
    case None =>
    case Some(t) =>
      assert ts == [t] + Tokens(html, t.pos + 2);
      assert ts[0] == t && ts[1..] == Tokens(html, t.pos + 2);
      if t.Open? {
        CheckIsAutomaton(html, t.pos + 2, stack + [t.pos]);
      } else if |stack| > 0 {
        CheckIsAutomaton(html, t.pos + 2, stack[..|stack| - 1]);
      }
  }

  /** The automaton agrees with the depth counter: it succeeds exactly when
      the depth never drops below zero and ends at zero, reports an unmatched
      `>>` exactly when the depth would drop below zero, and an unmatched
      `<<` exactly when the final depth is positive. */
  lemma {:induction false} AutomatonIsWalk(ts: seq<Token>, stack: seq<nat>)
    ensures var r := Automaton(ts, stack);
      var w := Walk(|stack|, ts);
      && (r.Success? <==> w == Some(0))
      && (r.Failure? && r.error.UnmatchedCloseGTLT? <==> w.None?)
      && (r.Failure? && r.error.UnmatchedOpenGTLT? <==> w.Some? && w.value > 0)
    decreases |ts|
  {
    if |ts| > 0 {
      if ts[0].Open? {
        var pushed := stack + [ts[0].pos];
        assert |pushed| == |stack| + 1;
        assert Walk(|stack|, ts) == Walk(|pushed|, ts[1..]);
        assert Automaton(ts, stack) == Automaton(ts[1..], pushed);
        AutomatonIsWalk(ts[1..], pushed);
      } else if |stack| > 0 {
        var popped := stack[..|stack| - 1];
        assert |popped| == |stack| - 1;
        assert Walk(|stack|, ts) == Walk(|popped|, ts[1..]);
        assert Automaton(ts, stack) == Automaton(ts[1..], popped);
        AutomatonIsWalk(ts[1..], popped);
      }
    }
  }

  /** The same over the text. */
  lemma CheckIsWalk(html: string, cursor: nat, stack: seq<nat>)
    requires cursor <= |html|
    ensures var r := CheckFrom(html, cursor, stack);
      var w := Walk(|stack|, Tokens(html, cursor));
      && (r.Success? <==> w == Some(0))
      && (r.Failure? && r.error.UnmatchedCloseGTLT? <==> w.None?)
      && (r.Failure? && r.error.UnmatchedOpenGTLT? <==> w.Some? && w.value > 0)
  {
    CheckIsAutomaton(html, cursor, stack);
    AutomatonIsWalk(Tokens(html, cursor), stack);
  }

  /** `matchGTLT` passes exactly when the `<<` / `>>` tokens balance. */
  lemma MatchGTLTBalanced(html: string)
    ensures MatchGTLT(html).Success? <==> Walk(0, Tokens(html, 0)) == Some(0)
  {
    CheckIsWalk(html, 0, []);
  }

  /** An unmatched `>>` is reported at the first token that would take the
      depth below zero. */
  lemma {:induction false} CloseErrorAt(ts: seq<Token>, stack: seq<nat>, p: nat) returns (k: nat)
    requires Automaton(ts, stack) == Failure(UnmatchedCloseGTLT(p))
    ensures k < |ts| && ts[k] == Close(p) && Walk(|stack|, ts[..k]) == Some(0)
    decreases |ts|
  {
    var rest := ts[1..];
    if ts[0].Open? {
      var k' := CloseErrorAt(rest, stack + [ts[0].pos], p);
      k := k' + 1;
      assert ts[..k][1..] == rest[..k'];
    } else if |stack| == 0 {
      k := 0;
    } else {
      var k' := CloseErrorAt(rest, stack[..|stack| - 1], p);
      k := k' + 1;
      assert ts[..k][1..] == rest[..k'];
    }
  }

  /** An unmatched `<<` is reported at the innermost one left open: either an
      entry of the initial stack, with the tokens closing exactly the entries
      above it, or a `<<` token after which the tokens balance exactly. */
  lemma {:induction false} OpenErrorAt(ts: seq<Token>, stack: seq<nat>, p: nat) returns (k: int)
    requires Automaton(ts, stack) == Failure(UnmatchedOpenGTLT(p))
    ensures
      || (k < 0 && -k <= |stack| && p == stack[|stack| + k] && Walk(-k - 1, ts) == Some(0))
      || (0 <= k < |ts| && ts[k] == Open(p) && Walk(0, ts[k + 1..]) == Some(0))
    decreases |ts|
  {
    if |ts| == 0 {
      k := -1;
    } else {
      var rest := ts[1..];
      if ts[0].Open? {
        var k' := OpenErrorAt(rest, stack + [ts[0].pos], p);
        if k' == -1 {
          k := 0;
        } else if k' < 0 {
          k := k' + 1;
        } else {
          k := k' + 1;
          assert ts[k + 1..] == rest[k' + 1..];
        }
      } else {
        var k' := OpenErrorAt(rest, stack[..|stack| - 1], p);
        if k' < 0 {
          k := k' - 1;
        } else {
          k := k' + 1;
          assert ts[k + 1..] == rest[k' + 1..];
        }
      }
    }
  }

  /** For a whole passage an unmatched `>>` is one of its tokens, before
      which the tokens balance. */
  lemma CloseErrorIsToken(html: string, p: nat) returns (k: nat)
    requires MatchGTLT(html) == Failure(UnmatchedCloseGTLT(p))
    ensures var ts := Tokens(html, 0);
      k < |ts| && ts[k] == Close(p) && Walk(0, ts[..k]) == Some(0)
  {
    CheckIsAutomaton(html, 0, []);
    k := CloseErrorAt(Tokens(html, 0), [], p);
  }

  /** For a whole passage the unmatched `<<` is always one of its tokens,
      after which the tokens balance. */
  lemma OpenErrorIsToken(html: string, p: nat) returns (k: nat)
    requires MatchGTLT(html) == Failure(UnmatchedOpenGTLT(p))
    ensures var ts := Tokens(html, 0);
      k < |ts| && ts[k] == Open(p) && Walk(0, ts[k + 1..]) == Some(0)
  {
    CheckIsAutomaton(html, 0, []);
    var k' := OpenErrorAt(Tokens(html, 0), [], p);
    k := k';
  }
}
