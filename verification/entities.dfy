/** The entity codec of lib/sugarValidatorLib.js: `decodeHTML` applies a fixed
    substitution table entry by entry, `recodeHTML` applies it backwards (from
    the last entry to the first, each replacement reversed).

    The proofs view a string as a sequence of pieces, two-space pairs and
    single characters, cut greedily from the left exactly as the first
    recoding pass (`"  "` to a tab) cuts it. Every later pass then rewrites
    whole pieces only, which is what makes the round trip go through. */
module Entities {
  import opened JsStrings

  /** The substitution table, in the order `decodeHTML` applies it. */
  const EntityMap: seq<(string, string)> :=
    [("&lt;", "<"), ("&gt;", ">"), ("&quot;", "\""), ("&#39;", "'"), ("&amp;", "&"), ("\t", "  ")]

  lemma EntityShape()
    ensures |EntityMap| == 6
    ensures forall k :: 0 <= k < |EntityMap| ==> |EntityMap[k].0| > 0 && |EntityMap[k].1| > 0
  {
  }

  /** Applies table entries k, k+1, ... in order. */
  function DecodeFrom(s: string, k: nat): string
    requires k <= |EntityMap|
    decreases |EntityMap| - k
  {
    EntityShape();
    if k == |EntityMap| then s
    else DecodeFrom(ReplaceAll(s, EntityMap[k].0, EntityMap[k].1), k + 1)
  }

  /** Applies table entries k-1, k-2, ..., 0 reversed. */
  function RecodeDownTo(s: string, k: nat): string
    requires k <= |EntityMap|
    decreases k
  {
    EntityShape();
    if k == 0 then s
    else RecodeDownTo(ReplaceAll(s, EntityMap[k - 1].1, EntityMap[k - 1].0), k - 1)
  }

  /** `decodeHTML`. */
  function DecodeHTML(s: string): string {
    DecodeFrom(s, 0)
  }

  /** `recodeHTML`. */
  function RecodeHTML(s: string): string {
    RecodeDownTo(s, |EntityMap|)
  }

  // ---------------------------------------------------------------------
  // Pieces

  datatype Piece = Pair | Chr(c: char)

  /** Greedy left-to-right cut into two-space pairs and single characters. */
  function Pieces(s: string): seq<Piece>
    decreases |s|
  {
    if |s| == 0 then []
    else if |s| >= 2 && s[0] == ' ' && s[1] == ' ' then [Pair] + Pieces(s[2..])
    else [Chr(s[0])] + Pieces(s[1..])
  }

  function Raw(p: Piece): string {
    match p
    case Pair => "  "
    case Chr(c) => [c]
  }

  /** What recoding makes of one piece. */
  function Enc(p: Piece): string {
    match p
    case Pair => "\t"
    case Chr(c) =>
      if c == '&' then "&amp;"
      else if c == '\'' then "&#39;"
      else if c == '"' then "&quot;"
      else if c == '>' then "&gt;"
      else if c == '<' then "&lt;"
      else [c]
  }

  function RawJoin(ps: seq<Piece>): string {
    if |ps| == 0 then "" else Raw(ps[0]) + RawJoin(ps[1..])
  }

  function EncJoin(ps: seq<Piece>): string {
    if |ps| == 0 then "" else Enc(ps[0]) + EncJoin(ps[1..])
  }

  lemma {:induction false} RawJoinPieces(s: string)
    ensures RawJoin(Pieces(s)) == s
    decreases |s|
  {
    if |s| == 0 {
    } else if |s| >= 2 && s[0] == ' ' && s[1] == ' ' {
      RawJoinPieces(s[2..]);
      assert s == "  " + s[2..];
    } else {
      RawJoinPieces(s[1..]);
      assert s == [s[0]] + s[1..];
    }
  }

  lemma {:induction false} PiecesNoTab(s: string)
    requires '\t' !in s
    ensures Chr('\t') !in Pieces(s)
    decreases |s|
  {
    if |s| == 0 {
    } else if |s| >= 2 && s[0] == ' ' && s[1] == ' ' {
      assert forall i :: 0 <= i < |s[2..]| ==> s[2..][i] == s[i + 2];
      PiecesNoTab(s[2..]);
    } else {
      assert forall i :: 0 <= i < |s[1..]| ==> s[1..][i] == s[i + 1];
      PiecesNoTab(s[1..]);
    }
  }

  /** A token is replaced by one pass exactly when it equals the pattern. */
  function SubstTok(t: string, pat: string, rep: string): string {
    if t == pat then rep else t
  }

  /** A token is aligned with a pattern when the pattern can match only at
      the start of the token, and only by being the whole token. */
  predicate TokAligned(t: string, pat: string) {
    && |pat| > 0
    && (forall j :: 1 <= j < |t| ==> t[j] != pat[0])
    && (|t| > 0 && t[0] == pat[0] && t != pat ==> |t| >= 2 && |pat| >= 2 && t[1] != pat[1])
  }

  lemma {:induction false} NoHead(x: string, y: string, pat: string, rep: string)
    requires |pat| > 0
    requires forall j :: 0 <= j < |x| ==> x[j] != pat[0]
    ensures ReplaceAll(x + y, pat, rep) == x + ReplaceAll(y, pat, rep)
    decreases |x|
  {
    if |x| == 0 {
      assert x + y == y;
    } else if |x + y| < |pat| {
      ShortReplace(x + y, pat, rep);
      ShortReplace(y, pat, rep);
    } else {
      var s := x + y;
      assert s[1..] == x[1..] + y;
      assert s[..|pat|][0] == x[0];
      NoHead(x[1..], y, pat, rep);
      calc {
        ReplaceAll(s, pat, rep);
        [s[0]] + ReplaceAll(s[1..], pat, rep);
        [x[0]] + (x[1..] + ReplaceAll(y, pat, rep));
        { assert [x[0]] + x[1..] == x; }
        x + ReplaceAll(y, pat, rep);
      }
    }
  }

  lemma ShortReplace(s: string, pat: string, rep: string)
    requires 0 < |pat| && |s| < |pat|
    ensures ReplaceAll(s, pat, rep) == s
  {
  }

  lemma TokStep(t: string, rest: string, pat: string, rep: string)
    requires TokAligned(t, pat)
    ensures ReplaceAll(t + rest, pat, rep) == SubstTok(t, pat, rep) + ReplaceAll(rest, pat, rep)
  {
    var s := t + rest;
    if |t| == 0 {
      assert s == rest;
    } else if t[0] != pat[0] {
      NoHead(t, rest, pat, rep);
    } else if t == pat {
      assert s[..|pat|] == pat;
      assert s[|pat|..] == rest;
    } else {
      assert s[1] == t[1];
      if |s| >= |pat| {
        assert s[..|pat|][1] == t[1];
      }
      assert s[1..] == t[1..] + rest;
      NoHead(t[1..], rest, pat, rep);
      assert [t[0]] + t[1..] == t;
    }
  }

  // ---------------------------------------------------------------------
  // Recoding, piece by piece

  /** A piece after the recoding passes for table entries 5, 4, ..., k. */
  function RecStage(p: Piece, k: nat): string
    requires k <= 5
    decreases 5 - k
  {
    if k == 5 then (match p case Pair => "\t" case Chr(c) => [c])
    else SubstTok(RecStage(p, k + 1), EntityMap[k].1, EntityMap[k].0)
  }

  function RecClosed(p: Piece, k: nat): string {
    match p
    case Pair => "\t"
    case Chr(c) =>
      if c == '&' then (if k <= 4 then "&amp;" else "&")
      else if c == '\'' then (if k <= 3 then "&#39;" else "'")
      else if c == '"' then (if k <= 2 then "&quot;" else "\"")
      else if c == '>' then (if k <= 1 then "&gt;" else ">")
      else if c == '<' then (if k == 0 then "&lt;" else "<")
      else [c]
  }

  lemma {:induction false} RecStageClosed(p: Piece, k: nat)
    requires k <= 5
    ensures RecStage(p, k) == RecClosed(p, k)
    decreases 5 - k
  {
    if k < 5 {
      RecStageClosed(p, k + 1);
    }
  }

  lemma RecAligned(p: Piece, k: nat)
    requires k < 5
    ensures TokAligned(RecStage(p, k + 1), EntityMap[k].1)
  {
    RecStageClosed(p, k + 1);
  }

  function RecJoin(ps: seq<Piece>, k: nat): string
    requires k <= 5
  {
    if |ps| == 0 then "" else RecStage(ps[0], k) + RecJoin(ps[1..], k)
  }

  lemma {:induction false} PairStep(s: string)
    ensures ReplaceAll(s, "  ", "\t") == RecJoin(Pieces(s), 5)
    decreases |s|
  {
    if |s| < 2 {
      if |s| == 1 {
        assert Pieces(s) == [Chr(s[0])] + Pieces(s[1..]);
        assert s == [s[0]];
      }
    } else if s[0] == ' ' && s[1] == ' ' {
      assert s[..2] == "  ";
      PairStep(s[2..]);
    } else {
      assert s[..2] != "  " by {
        assert s[..2][0] == s[0] && s[..2][1] == s[1];
      }
      PairStep(s[1..]);
    }
  }

  lemma {:induction false} RecJoinStep(ps: seq<Piece>, k: nat)
    requires k < 5
    ensures ReplaceAll(RecJoin(ps, k + 1), EntityMap[k].1, EntityMap[k].0) == RecJoin(ps, k)
  {
    if |ps| > 0 {
      RecAligned(ps[0], k);
      TokStep(RecStage(ps[0], k + 1), RecJoin(ps[1..], k + 1), EntityMap[k].1, EntityMap[k].0);
      RecJoinStep(ps[1..], k);
    }
  }

  lemma {:induction false} RecodeJoin(ps: seq<Piece>, k: nat)
    requires k <= 5
    ensures RecodeDownTo(RecJoin(ps, k), k) == RecJoin(ps, 0)
    decreases k
  {
    if k > 0 {
      RecJoinStep(ps, k - 1);
      RecodeJoin(ps, k - 1);
    }
  }

  lemma {:induction false} RecJoinZero(ps: seq<Piece>)
    ensures RecJoin(ps, 0) == EncJoin(ps)
  {
    if |ps| > 0 {
      RecStageClosed(ps[0], 0);
      RecJoinZero(ps[1..]);
    }
  }

  /** Recoding is the piecewise encoding. */
  lemma RecodeIsEncJoin(s: string)
    ensures RecodeHTML(s) == EncJoin(Pieces(s))
  {
    EntityShape();
    PairStep(s);
    RecodeJoin(Pieces(s), 5);
    RecJoinZero(Pieces(s));
  }

  // ---------------------------------------------------------------------
  // Decoding, piece by piece

  /** An encoded piece after the decoding passes for entries 0, ..., k-1. */
  function DecStage(p: Piece, k: nat): string
    requires k <= 6
  {
    if k == 0 then Enc(p)
    else SubstTok(DecStage(p, k - 1), EntityMap[k - 1].0, EntityMap[k - 1].1)
  }

  function DecClosed(p: Piece, k: nat): string {
    match p
    case Pair => if k < 6 then "\t" else "  "
    case Chr(c) =>
      if c == '<' then (if k < 1 then "&lt;" else "<")
      else if c == '>' then (if k < 2 then "&gt;" else ">")
      else if c == '"' then (if k < 3 then "&quot;" else "\"")
      else if c == '\'' then (if k < 4 then "&#39;" else "'")
      else if c == '&' then (if k < 5 then "&amp;" else "&")
      else if c == '\t' then (if k < 6 then "\t" else "  ")
      else [c]
  }

  lemma {:induction false} DecStageClosed(p: Piece, k: nat)
    requires k <= 6
    ensures DecStage(p, k) == DecClosed(p, k)
  {
    if k > 0 {
      DecStageClosed(p, k - 1);
    }
  }

  lemma DecAligned(p: Piece, k: nat)
    requires k < 6
    ensures TokAligned(DecStage(p, k), EntityMap[k].0)
  {
    DecStageClosed(p, k);
  }

  function DecJoin(ps: seq<Piece>, k: nat): string
    requires k <= 6
  {
    if |ps| == 0 then "" else DecStage(ps[0], k) + DecJoin(ps[1..], k)
  }

  lemma {:induction false} DecJoinStep(ps: seq<Piece>, k: nat)
    requires k < 6
    ensures ReplaceAll(DecJoin(ps, k), EntityMap[k].0, EntityMap[k].1) == DecJoin(ps, k + 1)
  {
    if |ps| > 0 {
      DecAligned(ps[0], k);
      TokStep(DecStage(ps[0], k), DecJoin(ps[1..], k), EntityMap[k].0, EntityMap[k].1);
      DecJoinStep(ps[1..], k);
    }
  }

  lemma {:induction false} DecodeJoin(ps: seq<Piece>, k: nat)
    requires k <= 6
    ensures DecodeFrom(DecJoin(ps, k), k) == DecJoin(ps, 6)
    decreases 6 - k
  {
    if k < 6 {
      DecJoinStep(ps, k);
      DecodeJoin(ps, k + 1);
    }
  }

  lemma {:induction false} DecJoinEnds(ps: seq<Piece>)
    requires Chr('\t') !in ps
    ensures DecJoin(ps, 0) == EncJoin(ps)
    ensures DecJoin(ps, 6) == RawJoin(ps)
  {
    if |ps| > 0 {
      DecStageClosed(ps[0], 6);
      assert ps[0] != Chr('\t');
      assert Chr('\t') !in ps[1..] by {
        assert forall i :: 0 <= i < |ps[1..]| ==> ps[1..][i] == ps[i + 1];
      }
      DecJoinEnds(ps[1..]);
    }
  }

  // ---------------------------------------------------------------------
  // The properties

  /** Decoding undoes recoding for every tab-free string. */
  lemma DecodeRecode(s: string)
    requires '\t' !in s
    ensures DecodeHTML(RecodeHTML(s)) == s
  {
    var ps := Pieces(s);
    RecodeIsEncJoin(s);
    PiecesNoTab(s);
    DecJoinEnds(ps);
    DecodeJoin(ps, 0);
    RawJoinPieces(s);
  }

  /** The characters later scans look for never occur in recoded text. */
  predicate IsMarkupChar(c: char) {
    c == '<' || c == '>' || c == '"' || c == '\''
  }

  lemma {:induction false} EncJoinNoMarkup(ps: seq<Piece>, c: char)
    requires IsMarkupChar(c)
    ensures c !in EncJoin(ps)
  {
    if |ps| > 0 {
      EncJoinNoMarkup(ps[1..], c);
      assert c !in Enc(ps[0]);
    }
  }

  lemma RecodeHidesMarkup(s: string)
    ensures forall c :: IsMarkupChar(c) ==> c !in RecodeHTML(s)
  {
    RecodeIsEncJoin(s);
    forall c | IsMarkupChar(c)
      ensures c !in RecodeHTML(s)
    {
      EncJoinNoMarkup(Pieces(s), c);
    }
  }

  lemma EncKeeps(p: Piece, c: char)
    requires c == '{' || c == '/'
    ensures CountChar(Enc(p), c) == CountChar(Raw(p), c)
  {
    match p
    case Pair =>
    case Chr(x) =>
      if x == '&' || x == '\'' || x == '"' || x == '>' || x == '<' {
        assert c !in Enc(p);
        assert c !in Raw(p);
        CountCharZero(Enc(p), c);
        CountCharZero(Raw(p), c);
      }
  }

  lemma {:induction false} EncJoinKeeps(ps: seq<Piece>, c: char)
    requires c == '{' || c == '/'
    ensures CountChar(EncJoin(ps), c) == CountChar(RawJoin(ps), c)
  {
    if |ps| > 0 {
      EncKeeps(ps[0], c);
      EncJoinKeeps(ps[1..], c);
      CountCharConcat(Enc(ps[0]), EncJoin(ps[1..]), c);
      CountCharConcat(Raw(ps[0]), RawJoin(ps[1..]), c);
    }
  }

  /** Recoding keeps every `{` and `/`: it neither adds nor removes them. */
  lemma RecodeKeeps(s: string, c: char)
    requires c == '{' || c == '/'
    ensures CountChar(RecodeHTML(s), c) == CountChar(s, c)
  {
    RecodeIsEncJoin(s);
    EncJoinKeeps(Pieces(s), c);
    RawJoinPieces(s);
  }
}
