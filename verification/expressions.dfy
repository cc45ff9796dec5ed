/** `replaceText`: blanks out the quoted strings and the comments of an
    expression, one at a time, always the kind whose opening character comes
    first, until that kind can no longer be matched. */
module Expressions {
  import opened Wrappers
  import opened JsStrings

  /** A comment opener (a slash, then a star) starts at `i`. */
  predicate OpenAt(s: string, i: int) {
    0 <= i && i + 1 < |s| && s[i] == '/' && s[i + 1] == '*'
  }

  /** The search for the next comment opener from `i` on, by characters. */
  function OpenFrom(s: string, i: nat): (r: int)
    ensures r == -1 || (i <= r && OpenAt(s, r))
    ensures forall j :: i <= j && (r == -1 || j < r) ==> !OpenAt(s, j)
    decreases |s| - i
  {
    if i + 1 >= |s| then -1
    else if OpenAt(s, i) then i
    else OpenFrom(s, i + 1)
  }

  /** A search result with -1 read as `Infinity`, which is above every index. */
  function OrInfinity(i: int, s: string): int {
    if i == -1 then |s| + 1 else i
  }

  /** The match of `/q[^q]*q/` for a quote `q`: from the first `q` to the
      next one, when there is one. */
  function QuotedSpan(s: string, q: char): (r: Option<(nat, nat)>)
    ensures r.Some? ==> r.value.0 < r.value.1 <= |s|
    ensures r.Some? ==> s[r.value.0] == q && s[r.value.1 - 1] == q
    ensures r.Some? ==> forall j :: r.value.0 < j < r.value.1 - 1 ==> s[j] != q
    ensures r.Some? ==> forall j :: 0 <= j < r.value.0 ==> s[j] != q
    ensures r.None? ==> CharFrom(s, q, 0) == -1 || CharFrom(s, q, CharFrom(s, q, 0) + 1) == -1
  {
    var a := CharFrom(s, q, 0);
    if a == -1 then None
    else
      var b := CharFrom(s, q, a + 1);
      if b == -1 then None else Some((a, b + 1))
  }

  /** A comment opener that the comment pattern accepts: the first star
      after the opener's own is followed by a slash, and no other star lies
      between. */
  predicate ValidOpenAt(s: string, i: int) {
    OpenAt(s, i) && var k := CharFrom(s, '*', i + 2); k != -1 && k + 1 < |s| && s[k + 1] == '/'
  }

  /** The leftmost valid comment opener from `i` on. */
  function ValidOpenFrom(s: string, i: nat): (r: Option<nat>)
    ensures r.Some? ==> i <= r.value && ValidOpenAt(s, r.value)
    ensures forall j :: i <= j && (r.None? || j < r.value) ==> !ValidOpenAt(s, j)
    decreases |s| - i
  {
    if i + 1 >= |s| then None
    else if ValidOpenAt(s, i) then Some(i)
    else ValidOpenFrom(s, i + 1)
  }

  /** The start of the run of spaces that ends at `j`. */
  function SpacesBefore(s: string, j: nat): (r: nat)
    requires j <= |s|
    ensures r <= j && forall t :: r <= t < j ==> s[t] == ' '
    ensures r == 0 || s[r - 1] != ' '
  {
    if j > 0 && s[j - 1] == ' ' then SpacesBefore(s, j - 1) else j
  }

  /** The end of the run of spaces that starts at `j`. */
  function SpacesAfter(s: string, j: nat): (r: nat)
    requires j <= |s|
    ensures j <= r <= |s| && forall t :: j <= t < r ==> s[t] == ' '
    ensures r == |s| || s[r] != ' '
    decreases |s| - j
  {
    if j < |s| && s[j] == ' ' then SpacesAfter(s, j + 1) else j
  }

  /** The leftmost match of the comment pattern (spaces, a comment without
      an inner star, spaces): it is built around the leftmost valid opener, taking in the spaces on both sides (no earlier
      start can match, for a match starting earlier would need spaces up to
      a valid opener). */
  function CommentSpan(s: string): (r: Option<(nat, nat)>)
    ensures r.Some? ==> r.value.0 + 4 <= r.value.1 <= |s|
    ensures r.Some? ==> exists j :: r.value.0 <= j && j + 1 < r.value.1 && OpenAt(s, j)
    ensures r.None? <==> forall j :: 0 <= j ==> !ValidOpenAt(s, j)
  {
    match ValidOpenFrom(s, 0)
    case None => None
    case Some(j) =>
      var k := CharFrom(s, '*', j + 2);
      Some((SpacesBefore(s, j), SpacesAfter(s, k + 2)))
  }

  /** `s.replace(re, rep)` for a match `span`. */
  function Splice(s: string, span: (nat, nat), rep: string): string
    requires span.0 <= span.1 <= |s|
  {
    s[..span.0] + rep + s[span.1..]
  }

  /** One round of the loop of `replaceText`: `None` when it breaks out. */
  function Round(s: string): (r: Option<string>)
  {
    var q := OrInfinity(CharFrom(s, '\'', 0), s);
    var w := OrInfinity(CharFrom(s, '"', 0), s);
    var c := OrInfinity(OpenFrom(s, 0), s);
    if q < w && q < c then
      match QuotedSpan(s, '\'')
      case None => None
      case Some(span) => Some(Splice(s, span, " x "))
    else if c < w then
      match CommentSpan(s)
      case None => None
      case Some(span) => Some(Splice(s, span, " "))
    else if w < c then
      match QuotedSpan(s, '"')
      case None => None
      case Some(span) => Some(Splice(s, span, " x "))
    else None
  }

  // ---- the termination measure: quotes plus comment openers ----

  function Opens(s: string): nat
    decreases |s|
  {
    if |s| < 2 then 0 else (if s[0] == '/' && s[1] == '*' then 1 else 0) + Opens(s[1..])
  }

  function Measure(s: string): nat {
    CountChar(s, '\'') + CountChar(s, '"') + Opens(s)
  }

  /** Openers of a concatenation: those of each part, plus one across the cut. */
  lemma {:induction false} OpensConcat(a: string, b: string)
    ensures Opens(a + b) == Opens(a) + Opens(b)
      + (if |a| > 0 && |b| > 0 && a[|a| - 1] == '/' && b[0] == '*' then 1 else 0)
    decreases |a|
  {
    if |a| == 0 {
      assert a + b == b;
    } else if |a| == 1 {
      assert (a + b)[1..] == b;
      if |b| == 0 {
        assert a + b == a;
      }
    } else {
      assert (a + b)[1..] == a[1..] + b;
      OpensConcat(a[1..], b);
    }
  }

  lemma {:induction false} OpensAt(s: string, i: nat)
    requires OpenAt(s, i)
    ensures Opens(s) >= 1
    decreases i
  {
    if i > 0 {
      assert OpenAt(s[1..], i - 1);
      OpensAt(s[1..], i - 1);
    }
  }

  /** The measure of a concatenation is at least that of its parts ... */
  lemma MeasureConcat(a: string, b: string)
    ensures Measure(a + b) >= Measure(a) + Measure(b)
  {
    CountCharConcat(a, b, '\'');
    CountCharConcat(a, b, '"');
    OpensConcat(a, b);
  }

  /** ... and exactly that when a space lies at the cut. */
  lemma MeasureConcatSpace(a: string, b: string)
    requires (|a| > 0 && a[|a| - 1] == ' ') || (|b| > 0 && b[0] == ' ')
    ensures Measure(a + b) == Measure(a) + Measure(b)
  {
    CountCharConcat(a, b, '\'');
    CountCharConcat(a, b, '"');
    OpensConcat(a, b);
  }

  /** Replacing a part that holds a quote or an opener by spaces around
      plain text shrinks the measure. */
  lemma SpliceShrinks(s: string, span: (nat, nat), rep: string)
    requires span.0 <= span.1 <= |s|
    requires |rep| > 0 && rep[0] == ' ' && rep[|rep| - 1] == ' '
    requires Measure(rep) == 0
    requires Measure(s[span.0..span.1]) > 0
    ensures Measure(Splice(s, span, rep)) < Measure(s)
  {
    var x, mid, y := s[..span.0], s[span.0..span.1], s[span.1..];
    assert s == x + (mid + y);
    assert Splice(s, span, rep) == x + (rep + y);
    assert (rep + y)[0] == ' ';
    MeasureConcatSpace(x, rep + y);
    MeasureConcatSpace(rep, y);
    MeasureConcat(x, mid + y);
    MeasureConcat(mid, y);
  }

  lemma ReplacementsArePlain()
    ensures Measure(" x ") == 0 && Measure(" ") == 0
  {
    assert " x "[1..] == "x " && "x "[1..] == " " && " "[1..] == "";
  }

  /** Blanking out a quoted string shrinks the measure. */
  lemma QuoteRoundShrinks(s: string, q: char)
    requires q == '\'' || q == '"'
    requires QuotedSpan(s, q).Some?
    ensures Measure(Splice(s, QuotedSpan(s, q).value, " x ")) < Measure(s)
  {
    var span := QuotedSpan(s, q).value;
    assert s[span.0..span.1][0] == q;
    assert CountChar(s[span.0..span.1], q) > 0;
    ReplacementsArePlain();
    SpliceShrinks(s, span, " x ");
  }

  /** Blanking out a comment shrinks the measure. */
  lemma CommentRoundShrinks(s: string)
    requires CommentSpan(s).Some?
    ensures Measure(Splice(s, CommentSpan(s).value, " ")) < Measure(s)
  {
    var span := CommentSpan(s).value;
    var j :| span.0 <= j && j + 1 < span.1 && OpenAt(s, j);
    assert OpenAt(s[span.0..span.1], j - span.0);
    OpensAt(s[span.0..span.1], j - span.0);
    ReplacementsArePlain();
    SpliceShrinks(s, span, " ");
  }

  /** Every round that does not break shrinks the measure. */
  lemma RoundShrinks(s: string)
    requires Round(s).Some?
    ensures Measure(Round(s).value) < Measure(s)
  {
    if QuotedSpan(s, '\'').Some? {
      QuoteRoundShrinks(s, '\'');
    }
    if QuotedSpan(s, '"').Some? {
      QuoteRoundShrinks(s, '"');
    }
    if CommentSpan(s).Some? {
      CommentRoundShrinks(s);
    }
  }

  /** `replaceText(expr)`: rounds until one breaks out; the result is left
      unchanged by a further round and holds no more quotes and openers than
      the input. */
  function ReplaceText(expr: string): (r: string)
    ensures Round(r).None?
    ensures Measure(r) <= Measure(expr)
    decreases Measure(expr)
  {
    match Round(expr)
    case None => expr
    case Some(next) =>
      RoundShrinks(expr);
      ReplaceText(next)
  }

  /** Blanking out is idempotent. */
  lemma ReplaceTextIdempotent(expr: string)
    ensures ReplaceText(ReplaceText(expr)) == ReplaceText(expr)
  {
  }

  /** Text without quotes and comment openers is left as it is. */
  lemma PlainUnchanged(expr: string)
    requires Measure(expr) == 0
    ensures ReplaceText(expr) == expr
  {
    NoOpener(expr);
  }

  /** Text of measure zero holds no comment opener. */
  lemma NoOpener(s: string)
    requires Measure(s) == 0
    ensures '\'' !in s && '"' !in s
    ensures OpenFrom(s, 0) == -1
  {
    CountCharZero(s, '\'');
    CountCharZero(s, '"');
    if OpenFrom(s, 0) != -1 {
      OpensAt(s, OpenFrom(s, 0));
    }
  }

  /** No quote and no opener lies before position `|pre|` of `pre + rest`
      when `pre` is plain and `rest` does not start with a star. */
  lemma PlainPrefix(pre: string, rest: string)
    requires Measure(pre) == 0
    requires |rest| > 0 && rest[0] != '*'
    ensures forall j :: 0 <= j < |pre| ==> (pre + rest)[j] != '\'' && (pre + rest)[j] != '"'
    ensures forall j :: 0 <= j <= |pre| ==> !OpenAt(pre + rest, j) || j == |pre|
  {
    NoOpener(pre);
    var s := pre + rest;
    forall j | 0 <= j < |pre|
      ensures s[j] != '\'' && s[j] != '"' && !OpenAt(s, j)
    {
      assert s[j] == pre[j];
      if j + 1 < |pre| {
        assert s[j + 1] == pre[j + 1];
        assert !OpenAt(pre, j);
      } else {
        assert s[j + 1] == rest[0];
      }
    }
  }

  lemma {:induction false} CharFromIs(s: string, c: char, i: nat, k: nat)
    requires i <= k < |s| && s[k] == c
    requires forall j :: i <= j < k ==> s[j] != c
    ensures CharFrom(s, c, i) == k
    decreases k - i
  {
    if i < k {
      CharFromIs(s, c, i + 1, k);
    }
  }

  lemma {:induction false} ValidOpenFromIs(s: string, i: nat, k: nat)
    requires i <= k && ValidOpenAt(s, k)
    requires forall j :: i <= j < k ==> !OpenAt(s, j)
    ensures ValidOpenFrom(s, i) == Some(k) && OpenFrom(s, i) == k
    decreases k - i
  {
    if i < k {
      ValidOpenFromIs(s, i + 1, k);
    }
  }

  /** The quote case of a round, on any text: nothing marks the text before
      a closed string. */
  lemma RoundQuoteCase(s: string, q: char, a: nat, b: nat)
    requires q == '\'' || q == '"'
    requires a < b < |s| && s[a] == q && s[b] == q
    requires forall j :: 0 <= j < a ==> s[j] != '\'' && s[j] != '"' && !OpenAt(s, j)
    requires forall j :: a < j < b ==> s[j] != q
    ensures Round(s) == Some(s[..a] + " x " + s[b + 1..])
  {
    CharFromIs(s, q, 0, a);
    CharFromIs(s, q, a + 1, b);
    assert !OpenAt(s, a);
  }

  /** The comment case of a round, on any text. */
  lemma RoundCommentCase(s: string, a: nat, k: nat)
    requires a + 2 <= k && k + 1 < |s| && OpenAt(s, a) && s[k] == '*' && s[k + 1] == '/'
    requires forall j :: 0 <= j < a ==> s[j] != '\'' && s[j] != '"' && !OpenAt(s, j)
    requires forall j :: a + 2 <= j < k ==> s[j] != '*'
    requires a == 0 || s[a - 1] != ' '
    requires k + 2 == |s| || s[k + 2] != ' '
    ensures Round(s) == Some(s[..a] + " " + s[k + 2..])
  {
    CommentSpanIs(s, a, k);
  }

  lemma CommentSpanIs(s: string, a: nat, k: nat)
    requires a + 2 <= k && k + 1 < |s| && OpenAt(s, a) && s[k] == '*' && s[k + 1] == '/'
    requires forall j :: 0 <= j < a ==> !OpenAt(s, j)
    requires forall j :: a + 2 <= j < k ==> s[j] != '*'
    requires a == 0 || s[a - 1] != ' '
    requires k + 2 == |s| || s[k + 2] != ' '
    ensures CommentSpan(s) == Some((a, k + 2)) && OpenFrom(s, 0) == a
  {
    CharFromIs(s, '*', a + 2, k);
    ValidOpenFromIs(s, 0, a);
  }

  /** A round blanks out a closed quoted string preceded only by plain text,
      whatever follows it. */
  lemma RoundBlanksQuote(pre: string, q: char, body: string, post: string)
    requires q == '\'' || q == '"'
    requires Measure(pre) == 0 && q !in body
    ensures Round(pre + [q] + body + [q] + post) == Some(pre + " x " + post)
  {
    var s := pre + [q] + body + [q] + post;
    assert s == pre + ([q] + body + [q] + post);
    PlainPrefix(pre, [q] + body + [q] + post);
    var a := |pre|;
    var b := |pre| + 1 + |body|;
    forall j | a < j < b
      ensures s[j] != q
    {
      assert s[j] == body[j - a - 1];
    }
    RoundQuoteCase(s, q, a, b);
    assert s[..a] == pre && s[b + 1..] == post;
  }

  /** A round blanks out a comment without an inner star, preceded only by
      plain text, with the spaces around it. */
  lemma RoundBlanksComment(pre: string, body: string, post: string)
    requires Measure(pre) == 0 && '*' !in body
    requires |pre| == 0 || pre[|pre| - 1] != ' '
    requires |post| == 0 || post[0] != ' '
    ensures Round(pre + "/*" + body + "*/" + post) == Some(pre + " " + post)
  {
    var s := pre + "/*" + body + "*/" + post;
    assert s == pre + ("/*" + body + "*/" + post);
    PlainPrefix(pre, "/*" + body + "*/" + post);
    var a := |pre|;
    var k := |pre| + 2 + |body|;
    forall j | a + 2 <= j < k
      ensures s[j] != '*'
    {
      assert s[j] == body[j - a - 2];
    }
    assert a > 0 ==> s[a - 1] == pre[a - 1];
    assert k + 2 < |s| ==> s[k + 2] == post[0];
    RoundCommentCase(s, a, k);
    assert s[..a] == pre && s[k + 2..] == post;
  }

  /** So `replaceText` treats a leading closed string as the placeholder
      ` x `, and a leading comment as one space. */
  lemma ReplaceTextStep(pre: string, q: char, body: string, post: string)
    requires q == '\'' || q == '"'
    requires Measure(pre) == 0 && q !in body
    ensures ReplaceText(pre + [q] + body + [q] + post) == ReplaceText(pre + " x " + post)
  {
    RoundBlanksQuote(pre, q, body, post);
  }

  lemma ReplaceTextCommentStep(pre: string, body: string, post: string)
    requires Measure(pre) == 0 && '*' !in body
    requires |pre| == 0 || pre[|pre| - 1] != ' '
    requires |post| == 0 || post[0] != ' '
    ensures ReplaceText(pre + "/*" + body + "*/" + post) == ReplaceText(pre + " " + post)
  {
    RoundBlanksComment(pre, body, post);
  }

  /** Where the blanking out stops and no quote is left, no comment the
      pattern accepts is left either. */
  lemma NoCommentLeft(expr: string)
    requires var r := ReplaceText(expr); '\'' !in r && '"' !in r
    ensures forall j :: 0 <= j ==> !ValidOpenAt(ReplaceText(expr), j)
  {
    var r := ReplaceText(expr);
    if OpenFrom(r, 0) != -1 {
      assert CharFrom(r, '\'', 0) == -1 && CharFrom(r, '"', 0) == -1;
      assert CommentSpan(r).None?;
    }
  }
}
