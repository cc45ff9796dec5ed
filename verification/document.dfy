/** The story file as the validator reads it: `<tw-passagedata ...>` elements
    cut out of the published HTML one after the other, and the attributes of
    a passage's opening tag. */
module Document {
  import opened Wrappers
  import opened JsStrings
  import opened Exclusions
  import opened Readings

  const PassageStartTag: string := "<tw-passagedata"
  const PassageCloseTag: string := "</tw-passagedata>"

  /** A passage start tag without a close tag after it: the whole run stops. */
  datatype SplitError = UnclosedPassage(pos: nat)

  /** A passage header as the splitter cuts it: the start tag up to and
      including the first `>` after it. */
  predicate IsHeader(h: string) {
    && |PassageStartTag| < |h|
    && StartsWith(h, PassageStartTag)
    && h[|h| - 1] == '>'
    && '>' !in h[..|h| - 1]
  }

  /** Where one passage lies in the file: its start tag, the character
      after the header's `>`, and its close tag. */
  datatype Cut = Cut(start: nat, content: nat, end: nat)

  /** A cut as the splitter makes it: a start tag at `start`, a header that
      is that tag up to its first `>`, and at `end` the first close tag after
      the start tag. */
  predicate CutOk(file: string, c: Cut) {
    && MatchAt(file, PassageStartTag, c.start)
    && IsHeader(Substring(file, c.start, c.content))
    && c.start <= c.end && MatchAt(file, PassageCloseTag, c.end)
    && c.end == IndexOf(file, PassageCloseTag, c.start)
  }

  /** Cuts in file order, each passage closed before the next one starts. */
  predicate Ascending(cuts: seq<Cut>) {
    forall i :: 0 <= i < |cuts| - 1 ==> cuts[i].end < cuts[i + 1].start
  }

  /** The splitting loop from `lastIndex` on, as the cuts it makes. */
  function SplitFrom(file: string, lastIndex: nat): (r: Result<seq<Cut>, SplitError>)
    requires lastIndex <= |file|
    ensures r.Failure? ==>
      MatchAt(file, PassageStartTag, r.error.pos) && IndexOf(file, PassageCloseTag, r.error.pos) == -1
    ensures r.Success? ==> forall i :: 0 <= i < |r.value| ==> CutOk(file, r.value[i]) && lastIndex <= r.value[i].start
    ensures r.Success? ==> Ascending(r.value)
    ensures IndexOf(file, PassageStartTag, lastIndex) == -1 <==> r == Success([])
    decreases |file| - lastIndex, 1
  {
    IndexOfSpec(file, PassageStartTag, lastIndex);
    var startIndex := IndexOf(file, PassageStartTag, lastIndex);
    if startIndex == -1 then Success([]) else SplitAt(file, startIndex)
  }

  /** One round of the loop, for the start tag found at `startIndex`. */
  function SplitAt(file: string, startIndex: nat): (r: Result<seq<Cut>, SplitError>)
    requires MatchAt(file, PassageStartTag, startIndex)
    ensures r.Failure? ==>
      MatchAt(file, PassageStartTag, r.error.pos) && IndexOf(file, PassageCloseTag, r.error.pos) == -1
    ensures r.Success? ==> |r.value| > 0 && r.value[0].start == startIndex
    ensures r.Success? ==> forall i :: 0 <= i < |r.value| ==> CutOk(file, r.value[i]) && startIndex <= r.value[i].start
    ensures r.Success? ==> Ascending(r.value)
    decreases |file| - startIndex, 0
  {
    IndexOfSpec(file, PassageCloseTag, startIndex);
    var endIndex := IndexOf(file, PassageCloseTag, startIndex);
    if endIndex == -1 then Failure(UnclosedPassage(startIndex))
    else
      var contentIndex := IndexOf(file, ">", startIndex) + 1;
      HeaderCut(file, startIndex, endIndex);
      var c := Cut(startIndex, contentIndex, endIndex);
      // the source advances by 16, one short of the close tag's length
      match SplitFrom(file, endIndex + 16)
      case Failure(e) => Failure(e)
      case Success(rest) => Success([c] + rest)
  }

  /** Each cut parsed into its passage. */
  function ParseCuts(file: string, cuts: seq<Cut>, reading: Reading): (ps: seq<Passage>)
    ensures |ps| == |cuts|
    ensures forall i :: 0 <= i < |ps| ==> Parsed(file, cuts[i].start, cuts[i].content, cuts[i].end, ps[i])
  {
    if cuts == [] then []
    else
      var c := cuts[0];
      [ParsePassageIn(file, c.start, c.content, c.end, reading)] + ParseCuts(file, cuts[1..], reading)
  }

  /** The first `>` after a start tag lies past the tag's own characters and
      no later than the `>` of the close tag. */
  lemma HeaderCut(file: string, startIndex: nat, endIndex: nat)
    requires MatchAt(file, PassageStartTag, startIndex)
    requires startIndex <= endIndex && MatchAt(file, PassageCloseTag, endIndex)
    ensures var gt := IndexOf(file, ">", startIndex);
      && startIndex + |PassageStartTag| <= gt <= endIndex + 16
      && IsHeader(Substring(file, startIndex, gt + 1))
  {
    assert ">" == ['>'];
    CharFromIsIndexOf(file, '>', startIndex);
    var gt := CharFrom(file, '>', startIndex);
    assert file[endIndex + 16] == '>' by {
      assert file[endIndex + 16] == file[endIndex..endIndex + |PassageCloseTag|][16];
    }
    StartTagHasNoGt(file, startIndex);
    HeaderIs(file, startIndex, gt);
  }

  lemma StartTagHasNoGt(file: string, startIndex: nat)
    requires MatchAt(file, PassageStartTag, startIndex)
    ensures forall j :: startIndex <= j < startIndex + |PassageStartTag| ==> file[j] != '>'
  {
    forall j | startIndex <= j < startIndex + |PassageStartTag|
      ensures file[j] != '>'
    {
      assert file[j] == file[startIndex..startIndex + |PassageStartTag|][j - startIndex];
    }
  }

  lemma HeaderIs(file: string, startIndex: nat, gt: nat)
    requires MatchAt(file, PassageStartTag, startIndex)
    requires startIndex + |PassageStartTag| <= gt < |file| && file[gt] == '>'
    requires forall j :: startIndex <= j < gt ==> file[j] != '>'
    ensures IsHeader(file[startIndex..gt + 1])
  {
    var h := file[startIndex..gt + 1];
    assert h[..|PassageStartTag|] == file[startIndex..startIndex + |PassageStartTag|];
    assert h[..|h| - 1] == file[startIndex..gt];
  }

  /** `passages` as the top-level loop builds it: one passage per cut, in
      file order, each the `parsePassage` of its cut. */
  function SplitPassages(file: string, reading: Reading): (r: Result<seq<Passage>, SplitError>)
    ensures r.Failure? ==>
      MatchAt(file, PassageStartTag, r.error.pos) && IndexOf(file, PassageCloseTag, r.error.pos) == -1
    ensures r.Success? ==> forall i :: 0 <= i < |r.value| ==> IsHeader(r.value[i].header)
    ensures r.Success? ==> SplitFrom(file, 0).Success?
    ensures r.Success? ==> var cuts := SplitFrom(file, 0).value;
      && |r.value| == |cuts|
      && Ascending(cuts)
      && forall i :: 0 <= i < |cuts| ==>
           CutOk(file, cuts[i]) && Parsed(file, cuts[i].start, cuts[i].content, cuts[i].end, r.value[i])
    ensures IndexOf(file, PassageStartTag, 0) == -1 <==> r == Success([])
  {
    match SplitFrom(file, 0)
    case Failure(e) => Failure(e)
    case Success(cuts) => Success(ParseCuts(file, cuts, reading))
  }

  /** Resuming at the `>` of the close tag finds what resuming just past the
      tag finds: that `>` cannot start another passage. */
  lemma ResumeAfterClose(file: string, endIndex: nat)
    requires MatchAt(file, PassageCloseTag, endIndex)
    ensures SplitFrom(file, endIndex + 16) == SplitFrom(file, endIndex + 17)
  {
    assert file[endIndex + 16] == PassageCloseTag[16];
    assert file[endIndex + 16] != PassageStartTag[0];
    IndexOfSkip(file, PassageStartTag, endIndex + 16);
  }

  // ---------------------------------------------------------------------
  // Attributes

  /** `getHTMLAttr(html, attr)`: the text between `attr="` (its first
      occurrence) and the next `"`, or nothing. */
  function GetHTMLAttr(html: string, attr: string): (r: Option<string>)
    ensures var start := IndexOf(html, attr + "=\"", 0);
      r.Some? <==> start != -1 && IndexOf(html, "\"", start + |attr| + 2) != -1
    ensures r.Some? ==>
      && '"' !in r.value
      && MatchAt(html, attr + "=\"" + r.value + "\"", IndexOf(html, attr + "=\"", 0))
  {
    var startStr := attr + "=\"";
    IndexOfSpec(html, startStr, 0);
    var start := IndexOf(html, startStr, 0);
    if start == -1 then None
    else
      IndexOfSpec(html, "\"", start + |startStr|);
      var end := IndexOf(html, "\"", start + |startStr|);
      if end == -1 then None
      else
        var v := html[start + |startStr|..end];
        AttrValue(html, startStr, start, end);
        Some(v)
  }

  lemma AttrValue(html: string, startStr: string, start: nat, end: int)
    requires MatchAt(html, startStr, start)
    requires start + |startStr| <= end && MatchAt(html, "\"", end)
    requires forall j :: start + |startStr| <= j < end ==> !MatchAt(html, "\"", j)
    ensures '"' !in html[start + |startStr|..end]
    ensures MatchAt(html, startStr + html[start + |startStr|..end] + "\"", start)
  {
    var v := html[start + |startStr|..end];
    forall k | 0 <= k < |v|
      ensures v[k] != '"'
    {
      var j := start + |startStr| + k;
      assert !MatchAt(html, "\"", j);
      assert html[j..j + 1] == [html[j]];
    }
    assert html[end..end + 1] == "\"";
    assert html[start..end + 1] == html[start..start + |startStr|] + v + html[end..end + 1];
  }

  /** An attribute written without a quote in its value reads back as written. */
  lemma AttrRoundTrip(attr: string, v: string, rest: string)
    requires '"' !in v
    ensures GetHTMLAttr(attr + "=\"" + v + "\"" + rest, attr) == Some(v)
  {
    var html := attr + "=\"" + v + "\"" + rest;
    var startStr := attr + "=\"";
    assert html[..|startStr|] == startStr;
    IndexOfFound(html, startStr, 0, 0);
    var end := |startStr| + |v|;
    assert html[end..end + 1] == "\"";
    forall j | |startStr| <= j < end
      ensures !MatchAt(html, "\"", j)
    {
      assert html[j] == v[j - |startStr|];
      assert html[j..j + 1] == [html[j]];
    }
    IndexOfFound(html, "\"", |startStr|, end);
    assert html[|startStr|..end] == v;
  }

  /** `tags.split(' ').indexOf(tag) !== -1`. */
  predicate HasTag(tags: string, tag: string) {
    tag in Split(tags, ' ')
  }
}
