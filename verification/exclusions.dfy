/** `parsePassage` of lib/sugarValidatorLib.js: the decoded passage text is
    scanned for exclusion zones (markup escapes, verbatim blocks, comments,
    scripts) and the text inside each zone is re-encoded, so that the `<`,
    `>` and quotes it holds are invisible to every later scan. */
module Exclusions {
  import opened Wrappers
  import opened JsStrings
  import opened Entities
  import opened Readings

  /** Opener and closer of each exclusion zone, in the order they are tried. */
  const ExclusionMarkup: seq<(string, string)> := [
    ("\"\"\"", "\"\"\""),
    ("<nowiki>", "</nowiki>"),
    ("{{{", "}}}"),
    ("/*", "*/"),
    ("/%", "%/"),
    ("<!--", "-->"),
    ("<<script>>", "<</script>>")
  ]

  /** The characters every opener starts with; the loop's measure counts them. */
  predicate IsOpenerStart(c: char) {
    c == '"' || c == '<' || c == '{' || c == '/'
  }

  lemma MarkupShape()
    ensures |ExclusionMarkup| == 7
    ensures forall k :: 0 <= k < |ExclusionMarkup| ==>
      |ExclusionMarkup[k].0| > 0 && IsOpenerStart(ExclusionMarkup[k].0[0])
  {
  }

  datatype Opener = Opener(pos: nat, entry: nat)

  function OpenerIndex(content: string, cursor: int, k: nat): int
    requires k < |ExclusionMarkup|
  {
    IndexOf(content, ExclusionMarkup[k].0, cursor)
  }

  /** `o` is the earliest opener found at or after `cursor` among the table
      entries below `upto`, ties going to the earlier entry. */
  predicate EarliestBelow(content: string, cursor: int, o: Opener, upto: nat)
    requires upto <= |ExclusionMarkup|
  {
    && o.entry < upto
    && OpenerIndex(content, cursor, o.entry) == o.pos
    && forall k :: 0 <= k < upto ==>
         OpenerIndex(content, cursor, k) == -1 || o.pos < OpenerIndex(content, cursor, k)
         || (o.pos == OpenerIndex(content, cursor, k) && o.entry <= k)
  }

  predicate Earliest(content: string, cursor: int, o: Opener) {
    EarliestBelow(content, cursor, o, |ExclusionMarkup|)
  }

  predicate NoOpener(content: string, cursor: int) {
    forall k :: 0 <= k < |ExclusionMarkup| ==> OpenerIndex(content, cursor, k) == -1
  }

  /** The scan over the table: an entry replaces the best so far only when
      it is found strictly earlier. */
  function FirstOpenerFrom(content: string, cursor: int, k: nat, best: Option<Opener>): Option<Opener>
    requires k <= |ExclusionMarkup|
    decreases |ExclusionMarkup| - k
  {
    if k == |ExclusionMarkup| then best
    else
      var i := OpenerIndex(content, cursor, k);
      var best' := if i != -1 && (best.None? || i < best.value.pos) then Some(Opener(i, k)) else best;
      FirstOpenerFrom(content, cursor, k + 1, best')
  }

  lemma {:induction false} FirstOpenerFromSpec(content: string, cursor: int, k: nat, best: Option<Opener>)
    requires k <= |ExclusionMarkup|
    requires best.None? ==> forall j :: 0 <= j < k ==> OpenerIndex(content, cursor, j) == -1
    requires best.Some? ==> EarliestBelow(content, cursor, best.value, k)
    ensures FirstOpenerFrom(content, cursor, k, best).None? <==> NoOpener(content, cursor)
    ensures FirstOpenerFrom(content, cursor, k, best).Some? ==>
      Earliest(content, cursor, FirstOpenerFrom(content, cursor, k, best).value)
    decreases |ExclusionMarkup| - k
  {
    if k < |ExclusionMarkup| {
      var i := OpenerIndex(content, cursor, k);
      var best' := if i != -1 && (best.None? || i < best.value.pos) then Some(Opener(i, k)) else best;
      FirstOpenerFromSpec(content, cursor, k + 1, best');
    }
  }

  /** The earliest opener at or after `cursor`, if any. */
  function FirstOpener(content: string, cursor: int): Option<Opener> {
    FirstOpenerFrom(content, cursor, 0, None)
  }

  /** `FirstOpener` finds nothing exactly when no opener occurs, and
      otherwise the earliest one. */
  lemma FirstOpenerSpec(content: string, cursor: int)
    ensures FirstOpener(content, cursor).None? <==> NoOpener(content, cursor)
    ensures FirstOpener(content, cursor).Some? ==> Earliest(content, cursor, FirstOpener(content, cursor).value)
  {
    FirstOpenerFromSpec(content, cursor, 0, None);
  }

  /** One round of the loop: nothing more to exclude, an opener without its
      closer, or the content with one zone re-encoded and the next cursor. */
  datatype Step =
    | Done
    | Unclosed(opener: Opener)
    | Recoded(opener: Opener, closing: nat, next: string, cursor: nat)

  function InnerStart(o: Opener): nat
    requires o.entry < |ExclusionMarkup|
  {
    o.pos + |ExclusionMarkup[o.entry].0|
  }

  /** `next` is `content` with the zone between `inner` and `closing`
      re-encoded: the text up to the end of the opener and from the closer on
      is unchanged, and the zone's new text holds no markup character and
      decodes back to the original when it is tab-free. */
  predicate ZoneRecoded(content: string, inner: nat, closing: nat, next: string) {
    && inner <= closing <= |content|
    && inner <= |next| - (|content| - closing) <= |next|
    && next[..inner] == content[..inner]
    && next[|next| - (|content| - closing)..] == content[closing..]
    && var zone := content[inner..closing];
       var middle := next[inner..|next| - (|content| - closing)];
       && middle == RecodeHTML(zone)
       && (forall c :: IsMarkupChar(c) ==> c !in middle)
       && ('\t' !in zone ==> DecodeHTML(middle) == zone)
  }

  function ExcludeStep(content: string, cursor: nat): (r: Step)
    ensures r.Done? <==> NoOpener(content, cursor)
    ensures r.Unclosed? ==> Earliest(content, cursor, r.opener) && UnclosedAt(content, r.opener)
    ensures r.Recoded? ==>
      && Earliest(content, cursor, r.opener)
      && cursor <= r.opener.pos
      && r.closing == IndexOf(content, ExclusionMarkup[r.opener.entry].1, InnerStart(r.opener))
      // the cursor moves past the closer as found in the text before the rewrite
      && r.cursor == r.closing + |ExclusionMarkup[r.opener.entry].1|
      && ZoneRecoded(content, InnerStart(r.opener), r.closing, r.next)
    // fewer opener characters remain at or after the new cursor
    ensures r.Recoded? ==>
      SpecialCount(Suffix(r.next, r.cursor)) < SpecialCount(Suffix(content, cursor))
  {
    FirstOpenerSpec(content, cursor);
    match FirstOpener(content, cursor)
    case None => Done
    case Some(o) =>
      OpenerFound(content, cursor, o);
      IndexOfSpec(content, ExclusionMarkup[o.entry].1, InnerStart(o));
      var closing := IndexOf(content, ExclusionMarkup[o.entry].1, InnerStart(o));
      if closing == -1 then Unclosed(o) else RecodeStep(content, cursor, o, closing)
  }

  /** The `Recoded` round for the earliest opener `o` whose closer is found at `closing`. */
  function RecodeStep(content: string, cursor: nat, o: Opener, closing: nat): (r: Step)
    requires o.entry < |ExclusionMarkup| && cursor <= o.pos
    requires MatchAt(content, ExclusionMarkup[o.entry].0, o.pos)
    requires InnerStart(o) <= closing && MatchAt(content, ExclusionMarkup[o.entry].1, closing)
    ensures r.Recoded? && r.opener == o && r.closing == closing
    ensures r.cursor == closing + |ExclusionMarkup[o.entry].1|
    ensures ZoneRecoded(content, InnerStart(o), closing, r.next)
    ensures SpecialCount(Suffix(r.next, r.cursor)) < SpecialCount(Suffix(content, cursor))
  {
    MarkupShape();
    var closer := ExclusionMarkup[o.entry].1;
    var inner := InnerStart(o);
    var next := Rezone(content, inner, closing);
    MeasureCore(content, cursor, o.pos, ExclusionMarkup[o.entry].0, inner, closing, next, closing + |closer|);
    Recoded(o, closing, next, closing + |closer|)
  }

  lemma OpenerFound(content: string, cursor: nat, o: Opener)
    requires Earliest(content, cursor, o)
    ensures cursor <= o.pos && MatchAt(content, ExclusionMarkup[o.entry].0, o.pos)
    ensures |ExclusionMarkup[o.entry].0| > 0 && IsOpenerStart(ExclusionMarkup[o.entry].0[0])
    ensures InnerStart(o) <= |content|
  {
    MarkupShape();
    IndexOfSpec(content, ExclusionMarkup[o.entry].0, cursor);
  }

  /** The content with the text between `inner` and `closing` re-encoded; all
      indices are in range here, so JavaScript's clamping in `substr` and
      `substring` does not come into play. */
  function Rezone(content: string, inner: nat, closing: nat): (next: string)
    requires inner <= closing <= |content|
    ensures ZoneRecoded(content, inner, closing, next)
    ensures inner <= |next|
    ensures SpecialCount(next[inner..]) <= SpecialCount(content[inner..closing]) + SpecialCount(content[closing..])
  {
    var recoded := RecodeHTML(content[inner..closing]);
    var next := content[..inner] + recoded + content[closing..];
    assert next[inner..] == recoded + content[closing..];
    assert next[inner..|next| - (|content| - closing)] == recoded;
    ZoneFacts(content[inner..closing]);
    SpecialConcat(recoded, content[closing..]);
    RecodeSpecial(content[inner..closing]);
    next
  }

  lemma ZoneFacts(zone: string)
    ensures forall c :: IsMarkupChar(c) ==> c !in RecodeHTML(zone)
    ensures '\t' !in zone ==> DecodeHTML(RecodeHTML(zone)) == zone
  {
    RecodeHidesMarkup(zone);
    if '\t' !in zone {
      DecodeRecode(zone);
    }
  }

  // ---------------------------------------------------------------------
  // The termination measure

  /** Number of characters an opener can start with. */
  function SpecialCount(s: string): nat
    decreases |s|
  {
    if |s| == 0 then 0 else (if IsOpenerStart(s[0]) then 1 else 0) + SpecialCount(s[1..])
  }

  lemma {:induction false} SpecialByChar(s: string)
    ensures SpecialCount(s) == CountChar(s, '"') + CountChar(s, '<') + CountChar(s, '{') + CountChar(s, '/')
    decreases |s|
  {
    if |s| > 0 {
      SpecialByChar(s[1..]);
    }
  }

  function Suffix(s: string, i: nat): string {
    if i <= |s| then s[i..] else ""
  }


  lemma {:induction false} SpecialConcat(a: string, b: string)
    ensures SpecialCount(a + b) == SpecialCount(a) + SpecialCount(b)
    decreases |a|
  {
    if |a| == 0 {
      assert a + b == b;
    } else {
      assert (a + b)[1..] == a[1..] + b;
      SpecialConcat(a[1..], b);
    }
  }

  lemma SuffixMono(s: string, i: nat, j: nat)
    requires i <= j
    ensures SpecialCount(Suffix(s, j)) <= SpecialCount(Suffix(s, i))
  {
    if j <= |s| {
      assert s[i..] == s[i..j] + s[j..];
      SpecialConcat(s[i..j], s[j..]);
    }
  }

  lemma RecodeSpecial(s: string)
    ensures SpecialCount(RecodeHTML(s)) <= SpecialCount(s)
  {
    RecodeHidesMarkup(s);
    assert !('"' in RecodeHTML(s)) && !('<' in RecodeHTML(s)) by {
      assert IsMarkupChar('"') && IsMarkupChar('<');
    }
    CountCharZero(RecodeHTML(s), '"');
    CountCharZero(RecodeHTML(s), '<');
    SpecialByChar(s);
    SpecialByChar(RecodeHTML(s));
    RecodeKeeps(s, '{');
    RecodeKeeps(s, '/');
  }

  /** Recoding never creates an opener's first character, so the number of
      them at or after the cursor strictly drops with every re-encoded zone. */
  lemma MeasureCore(content: string, cursor: nat, pos: nat, opener: string, inner: nat, closing: nat,
                    next: string, cursor': nat)
    requires cursor <= pos && MatchAt(content, opener, pos)
    requires |opener| > 0 && IsOpenerStart(opener[0])
    requires inner == pos + |opener| && inner <= closing <= |content|
    requires inner <= |next| && inner <= cursor'
    requires SpecialCount(next[inner..]) <= SpecialCount(content[inner..closing]) + SpecialCount(content[closing..])
    ensures SpecialCount(Suffix(next, cursor')) < SpecialCount(Suffix(content, cursor))
  {
    OldSuffix(content, cursor, pos, opener, closing);
    SuffixMono(next, inner, cursor');
  }

  /** The old suffix holds the opener's first character, the zone and the tail. */
  lemma OldSuffix(content: string, cursor: nat, pos: nat, opener: string, closing: nat)
    requires cursor <= pos && MatchAt(content, opener, pos)
    requires |opener| > 0 && IsOpenerStart(opener[0])
    requires pos + |opener| <= closing <= |content|
    ensures SpecialCount(Suffix(content, cursor))
         >= 1 + SpecialCount(content[pos + |opener|..closing]) + SpecialCount(content[closing..])
  {
    var inner := pos + |opener|;
    assert content[cursor..] == content[cursor..pos] + content[pos..];
    SpecialConcat(content[cursor..pos], content[pos..]);
    assert content[pos..] == opener + content[inner..];
    SpecialConcat(opener, content[inner..]);
    assert content[inner..] == content[inner..closing] + content[closing..];
    SpecialConcat(content[inner..closing], content[closing..]);
    OpenerSpecial(opener);
  }

  lemma OpenerSpecial(opener: string)
    requires |opener| > 0 && IsOpenerStart(opener[0])
    ensures SpecialCount(opener) >= 1
  {
  }

  datatype Scan = Scan(content: string, warning: Option<Opener>)

  /** The loop of `parsePassage` from `cursor` on. */
  function ExcludeFrom(content: string, cursor: nat): (r: Scan)
    ensures WarnsRightly(r)
    ensures PrefixKept(content, r.content, cursor)
    ensures NoOpener(content, cursor) ==> r == Scan(content, None)
    decreases SpecialCount(Suffix(content, cursor))
  {
    match ExcludeStep(content, cursor)
    case Done => Scan(content, None)
    case Unclosed(o) => Scan(content, Some(o))
    case Recoded(o, closing, next, cursor') =>
      var r := ExcludeFrom(next, cursor');
      KeepPrefix(content, next, r.content, InnerStart(o), cursor, cursor');
      r
  }

  /** `b` agrees with `a` on the first `n` characters of `a` (or all of them). */
  predicate PrefixKept(a: string, b: string, n: nat) {
    var m := if n < |a| then n else |a|;
    m <= |b| && b[..m] == a[..m]
  }

  lemma KeepPrefix(content: string, next: string, rest: string, inner: nat, cursor: nat, cursor': nat)
    requires cursor <= inner <= cursor' && inner <= |next| && inner <= |content|
    requires next[..inner] == content[..inner]
    requires PrefixKept(next, rest, cursor')
    ensures PrefixKept(content, rest, cursor)
  {
    var m := if cursor' < |next| then cursor' else |next|;
    assert rest[..cursor] == rest[..m][..cursor];
    assert next[..cursor] == next[..m][..cursor];
    assert next[..cursor] == next[..inner][..cursor];
    assert content[..cursor] == content[..inner][..cursor];
  }

  datatype Passage = Passage(header: string, content: string, warning: Option<Opener>)

  /** What `parsePassage` promises of the passage it cuts from `html`: the
      header is the text from the start index to the content index, a warning
      names an opener of the final content whose closer does not follow it,
      and a decoded text without any opener is the content as it is. */
  predicate Parsed(html: string, startIndex: int, contentIndex: int, endIndex: int, p: Passage) {
    var decoded := DecodeHTML(Substring(html, contentIndex, endIndex));
    && p.header == Substring(html, startIndex, contentIndex)
    && (p.warning.Some? ==> UnclosedAt(p.content, p.warning.value))
    && (NoOpener(decoded, 0) ==> p.content == decoded && p.warning.None?)
  }

  /** `parsePassage(html, startIndex, contentIndex, endIndex)`. */
  function ParsePassage(html: string, startIndex: int, contentIndex: int, endIndex: int): (p: Passage)
    ensures Parsed(html, startIndex, contentIndex, endIndex, p)
  {
    var header := Substring(html, startIndex, contentIndex);
    var scan := ExcludeFrom(DecodeHTML(Substring(html, contentIndex, endIndex)), 0);
    Passage(header, scan.content, scan.warning)
  }

  // ---------------------------------------------------------------------
  // Resuming after the closer in the rewritten text

  /** The warning `parsePassage` files for an opener `o` of `content`: the
      opener is there and its closer is not found after it. */
  predicate UnclosedAt(content: string, o: Opener) {
    && o.entry < |ExclusionMarkup|
    && MatchAt(content, ExclusionMarkup[o.entry].0, o.pos)
    && IndexOf(content, ExclusionMarkup[o.entry].1, InnerStart(o)) == -1
  }

  /** What a round of the loop finds at the start of `rest`: no opener, the
      earliest opener without its closer, or that opener with the zone
      between the end of the opener, `inner`, and the closer at `closing`,
      which ends at `after`. */
  datatype Zone =
    | NoZone
    | Open(opener: Opener)
    | Closed(opener: Opener, inner: nat, closing: nat, after: nat)

  function LocateZone(rest: string): (z: Zone)
    ensures z.NoZone? <==> NoOpener(rest, 0)
    ensures z.Open? ==> UnclosedAt(rest, z.opener)
    ensures z.Closed? ==>
      && z.inner <= z.closing <= z.after <= |rest|
      && SpecialCount(rest[z.after..]) < SpecialCount(rest)
  {
    FirstOpenerSpec(rest, 0);
    match FirstOpener(rest, 0)
    case None => NoZone
    case Some(o) =>
      OpenerFound(rest, 0, o);
      var closer := ExclusionMarkup[o.entry].1;
      IndexOfSpec(rest, closer, InnerStart(o));
      var closing := IndexOf(rest, closer, InnerStart(o));
      if closing == -1 then Open(o)
      else
        MarkupShape();
        TailShrinks(rest, o.pos, ExclusionMarkup[o.entry].0, closer, closing);
        Closed(o, InnerStart(o), closing, closing + |closer|)
  }

  /** A round of the intended loop picks the same opener and closer as a
      round of the loop as written started at the beginning of the text. */
  lemma LocateAgrees(rest: string)
    ensures LocateZone(rest).NoZone? <==> ExcludeStep(rest, 0).Done?
    ensures LocateZone(rest).Open? <==>
      ExcludeStep(rest, 0).Unclosed? && ExcludeStep(rest, 0).opener == LocateZone(rest).opener
    ensures LocateZone(rest).Closed? <==>
      && ExcludeStep(rest, 0).Recoded?
      && ExcludeStep(rest, 0).opener == LocateZone(rest).opener
      && InnerStart(LocateZone(rest).opener) == LocateZone(rest).inner
      && ExcludeStep(rest, 0).closing == LocateZone(rest).closing
      && ExcludeStep(rest, 0).cursor == LocateZone(rest).after
  {
  }

  /** The loop of `parsePassage` as intended: every round goes on right after
      the closer it found, as that closer stands in the rewritten text, so
      the text already rewritten, `done`, is never scanned again. Whether an
      opener or closer occurs at or after an index depends only on the text
      from there on, so each round scans what is left, `rest`, from its start. */
  function ExcludeRest(done: string, rest: string): (r: Scan)
    ensures done <= r.content
    decreases SpecialCount(rest)
  {
    match LocateZone(rest)
    case NoZone => Scan(done + rest, None)
    case Open(o) => Scan(done + rest, Some(Opener(|done| + o.pos, o.entry)))
    case Closed(_, _, _, after) =>
      var zone := Rewritten(rest, LocateZone(rest));
      var r := ExcludeRest(done + zone, rest[after..]);
      Extends(done, zone, r.content);
      r
  }

  /** A warning, if any, names an opener of the scanned text whose closer
      is not found after it. */
  predicate WarnsRightly(r: Scan) {
    r.warning.Some? ==> UnclosedAt(r.content, r.warning.value)
  }

  /** A warning of the intended loop names an opener of the final text
      whose closer is not found after it. */
  lemma {:induction false} RestWarning(done: string, rest: string)
    ensures WarnsRightly(ExcludeRest(done, rest))
    decreases SpecialCount(rest)
  {
    var z := LocateZone(rest);
    if z.NoZone? {
      NoZoneRound(done, rest);
    } else if z.Open? {
      OpenWarns(done, rest);
    } else {
      RestWarning(done + Rewritten(rest, z), rest[z.after..]);
      ClosedWarns(done, rest);
    }
  }

  /** The text a round that re-encodes a zone appends to what is done. */
  function Rewritten(rest: string, z: Zone): string
    requires z.Closed? && z.inner <= z.closing <= z.after <= |rest|
  {
    rest[..z.inner] + RecodeHTML(rest[z.inner..z.closing]) + rest[z.closing..z.after]
  }

  lemma NoZoneRound(done: string, rest: string)
    requires LocateZone(rest).NoZone?
    ensures ExcludeRest(done, rest) == Scan(done + rest, None)
  {
  }

  /** A round that finds an opener without its closer ends the loop. */
  lemma OpenWarns(done: string, rest: string)
    requires LocateZone(rest).Open?
    ensures WarnsRightly(ExcludeRest(done, rest))
  {
    OpenRound(done, rest);
    UnclosedShift(done, rest, LocateZone(rest).opener);
  }

  lemma OpenRound(done: string, rest: string)
    requires LocateZone(rest).Open?
    ensures var o := LocateZone(rest).opener;
      ExcludeRest(done, rest) == Scan(done + rest, Some(Opener(|done| + o.pos, o.entry)))
  {
  }

  /** A round that re-encodes a zone goes on with the text after its closer. */
  lemma ClosedWarns(done: string, rest: string)
    requires LocateZone(rest).Closed?
    requires WarnsRightly(ExcludeRest(done + Rewritten(rest, LocateZone(rest)), rest[LocateZone(rest).after..]))
    ensures WarnsRightly(ExcludeRest(done, rest))
  {
    ClosedRound(done, rest);
  }

  lemma ClosedRound(done: string, rest: string)
    requires LocateZone(rest).Closed?
    ensures ExcludeRest(done, rest) ==
      ExcludeRest(done + Rewritten(rest, LocateZone(rest)), rest[LocateZone(rest).after..])
  {
  }

  lemma Extends(a: string, b: string, c: string)
    requires a + b <= c
    ensures a <= c
  {
    assert (a + b)[..|a|] == a;
  }

  /** What is left after the closer of an opener holds fewer opener
      characters than the text the opener stood in. */
  lemma TailShrinks(rest: string, pos: nat, opener: string, closer: string, closing: nat)
    requires |opener| > 0 && IsOpenerStart(opener[0]) && MatchAt(rest, opener, pos)
    requires pos + |opener| <= closing && MatchAt(rest, closer, closing)
    ensures SpecialCount(rest[closing + |closer|..]) < SpecialCount(rest)
  {
    OldSuffix(rest, 0, pos, opener, closing);
    SuffixMono(rest, closing, closing + |closer|);
    assert rest[0..] == rest;
  }

  /** An opener left unclosed in `rest` is left unclosed after `done` too. */
  lemma UnclosedShift(done: string, rest: string, o: Opener)
    requires UnclosedAt(rest, o)
    ensures UnclosedAt(done + rest, Opener(|done| + o.pos, o.entry))
  {
    UnclosedMoves(done, rest, o.pos, ExclusionMarkup[o.entry].0, ExclusionMarkup[o.entry].1);
  }

  lemma UnclosedMoves(done: string, rest: string, pos: nat, opener: string, closer: string)
    requires MatchAt(rest, opener, pos) && IndexOf(rest, closer, pos + |opener|) == -1
    ensures MatchAt(done + rest, opener, |done| + pos)
    ensures IndexOf(done + rest, closer, |done| + pos + |opener|) == -1
  {
    var s := done + rest;
    var d := |done|;
    assert s[d..] == rest;
    IndexOfSpec(rest, closer, pos + |opener|);
    IndexOfSpec(s, closer, d + pos + |opener|);
    assert s[d + pos..d + pos + |opener|] == rest[pos..pos + |opener|];
    forall j | d + pos + |opener| <= j
      ensures !MatchAt(s, closer, j)
    {
      assert !MatchAt(rest, closer, j - d);
      if j + |closer| <= |s| {
        assert s[j..j + |closer|] == s[d..][j - d..j - d + |closer|];
      }
    }
  }

  /** The intended loop over a whole passage's content. */
  function ExcludeFromIntended(content: string): (r: Scan)
    ensures r.warning.Some? ==> UnclosedAt(r.content, r.warning.value)
    ensures NoOpener(content, 0) ==> r == Scan(content, None)
  {
    RestWarning([], content);
    ExcludeRest([], content)
  }

  /** `parsePassage` with the intended loop. */
  function ParsePassageIntended(html: string, startIndex: int, contentIndex: int, endIndex: int): (p: Passage)
    ensures Parsed(html, startIndex, contentIndex, endIndex, p)
  {
    var header := Substring(html, startIndex, contentIndex);
    var scan := ExcludeFromIntended(DecodeHTML(Substring(html, contentIndex, endIndex)));
    Passage(header, scan.content, scan.warning)
  }

  /** `parsePassage` as the reading runs it. */
  function ParsePassageIn(html: string, startIndex: int, contentIndex: int, endIndex: int, reading: Reading)
    : (p: Passage)
    ensures Parsed(html, startIndex, contentIndex, endIndex, p)
  {
    if reading == AsWritten then ParsePassage(html, startIndex, contentIndex, endIndex)
    else ParsePassageIntended(html, startIndex, contentIndex, endIndex)
  }

  // ---------------------------------------------------------------------
  // A zone that grows when re-encoded

  /** A sample zone whose two `<` grow into `&lt;` when re-encoded. */
  lemma RecodeSample(z: string)
    requires z == "<<{{{"
    ensures RecodeHTML(z) == "&lt;&lt;{{{"
  {
    RecodeIsEncJoin(z);
    var ps := [Chr('<'), Chr('<'), Chr('{'), Chr('{'), Chr('{')];
    assert Pieces(z) == ps by {
      assert Pieces(z[4..]) == [Chr('{')];
      assert Pieces(z[3..]) == [Chr('{'), Chr('{')];
      assert Pieces(z[2..]) == [Chr('{'), Chr('{'), Chr('{')];
      assert Pieces(z[1..]) == [Chr('<'), Chr('{'), Chr('{'), Chr('{')];
    }
    assert EncJoin(ps[4..]) == "{";
    assert EncJoin(ps[3..]) == "{{";
    assert EncJoin(ps[2..]) == "{{{";
    assert Enc(ps[1]) == "&lt;";
    assert EncJoin(ps[1..]) == "&lt;{{{";
    assert EncJoin(ps) == "&lt;" + EncJoin(ps[1..]);
  }

  /** In `/*<<{{{*/` the comment opener comes first. */
  lemma FirstOpenerSample(c: string)
    requires c == "/*<<{{{*/"
    ensures FirstOpener(c, 0) == Some(Opener(0, 3))
  {
    IndexOfNone(c, "\"\"\"", 0);
    IndexOfMissing(c, "<nowiki>", 0, 1);
    IndexOfAt(c, "{{{", 0, 4);
    IndexOfAt(c, "/*", 0, 0);
    IndexOfMissing(c, "/%", 0, 1);
    IndexOfMissing(c, "<!--", 0, 1);
    IndexOfMissing(c, "<<script>>", 0, 2);
  }

  lemma RezoneSample(c: string)
    requires c == "/*<<{{{*/"
    ensures Rezone(c, 2, 7) == "/*&lt;&lt;{{{*/"
  {
    RecodeSample(c[2..7]);
  }

  /** The first round re-encodes the comment, which grows by six characters. */
  lemma FirstRoundSample(c: string)
    requires c == "/*<<{{{*/"
    ensures ExcludeStep(c, 0) == Recoded(Opener(0, 3), 7, "/*&lt;&lt;{{{*/", 9)
  {
    FirstOpenerSample(c);
    IndexOfAt(c, "*/", 2, 7);
    RezoneSample(c);
  }

  /** From the cursor the code computes, the next round meets the `{{{` that
      was inside the comment, and finds no `}}}` for it. */
  lemma SecondRoundSample(n: string)
    requires n == "/*&lt;&lt;{{{*/"
    ensures ExcludeStep(n, 9) == Unclosed(Opener(10, 2))
  {
    SecondOpenerSample(n);
    IndexOfMissing(n, "}}}", 13, 0);
  }

  lemma SecondOpenerSample(n: string)
    requires n == "/*&lt;&lt;{{{*/"
    ensures FirstOpener(n, 9) == Some(Opener(10, 2))
  {
    IndexOfMissing(n, "\"\"\"", 9, 0);
    IndexOfMissing(n, "<nowiki>", 9, 0);
    IndexOfAt(n, "{{{", 9, 10);
    IndexOfNone(n, "/*", 9);
    IndexOfMissing(n, "/%", 9, 1);
    IndexOfMissing(n, "<!--", 9, 0);
    IndexOfMissing(n, "<<script>>", 9, 0);
  }

  /** As written, the fully closed comment `/*<<{{{*/` leaves an unclosed
      `{{{` warning behind. */
  lemma RescannedAsWritten(c: string)
    requires c == "/*<<{{{*/"
    ensures ExcludeFrom(c, 0) == Scan("/*&lt;&lt;{{{*/", Some(Opener(10, 2)))
  {
    FirstRoundSample(c);
    SecondRoundSample("/*&lt;&lt;{{{*/");
  }

  /** Resuming after the moved closer, the same text passes without warning. */
  lemma NotRescannedIntended(c: string)
    requires c == "/*<<{{{*/"
    ensures ExcludeFromIntended(c) == Scan("/*&lt;&lt;{{{*/", None)
  {
    LocateSample(c);
    ClosedRound([], c);
    ZoneSample(c);
    LocateEmpty();
  }

  lemma ZoneSample(c: string)
    requires c == "/*<<{{{*/"
    ensures [] + Rewritten(c, Closed(Opener(0, 3), 2, 7, 9)) == "/*&lt;&lt;{{{*/"
    ensures c[9..] == ""
  {
    RecodeSample(c[2..7]);
    assert c[..2] == "/*" && c[7..9] == "*/";
  }

  /** The intended first round finds the same comment as the code. */
  lemma LocateSample(c: string)
    requires c == "/*<<{{{*/"
    ensures LocateZone(c) == Closed(Opener(0, 3), 2, 7, 9)
  {
    FirstRoundSample(c);
    LocateAgrees(c);
  }

  lemma LocateEmpty()
    ensures LocateZone("") == NoZone
  {
    forall k | 0 <= k < |ExclusionMarkup|
      ensures OpenerIndex("", 0, k) == -1
    {
      MarkupShape();
    }
  }
}
