/** `tagNameAt` and `tagQNameAt`: reading a macro or tag name at a position,
    after optional white space, the second one also accepting a quoted name. */
module Names {
  import opened Wrappers
  import opened JsStrings

  /** Skips JavaScript white space from `pos` on. */
  function SkipSpace(html: string, pos: nat): (r: nat)
    ensures pos <= r && !SpaceAt(html, r)
    ensures r == pos || r <= |html|
    ensures forall j :: pos <= j < r ==> SpaceAt(html, j)
    decreases |html| - pos
  {
    if SpaceAt(html, pos) then SkipSpace(html, pos + 1) else pos
  }

  /** Consumes the characters of `[\w-]` from `pos` on. */
  function ScanName(html: string, pos: nat): (r: nat)
    ensures pos <= r && !NameCharAt(html, r)
    ensures r == pos || r <= |html|
    ensures forall j :: pos <= j < r ==> NameCharAt(html, j)
    decreases |html| - pos
  {
    if NameCharAt(html, pos) then ScanName(html, pos + 1) else pos
  }

  /** A name `tagNameAt` reads in full: a letter, then letters, digits, `_` or `-`. */
  predicate IsTagName(n: string) {
    && |n| > 0
    && IsAsciiLetter(n[0])
    && forall k :: 0 < k < |n| ==> IsWordChar(n[k]) || n[k] == '-'
  }

  /** `tagNameAt(html, pos)`: the bounds of the name, equal when there is none. */
  function TagNameAt(html: string, pos: nat): (r: (nat, nat))
    ensures pos <= r.0 <= r.1 && !SpaceAt(html, r.0)
    ensures r.0 < r.1 ==> r.1 <= |html|
    ensures forall j :: pos <= j < r.0 ==> SpaceAt(html, j)
    ensures r.0 < r.1 <==> r.0 < |html| && IsAsciiLetter(html[r.0])
    ensures r.0 < r.1 ==> IsTagName(html[r.0..r.1]) && !NameCharAt(html, r.1)
  {
    var start := SkipSpace(html, pos);
    if start < |html| && IsAsciiLetter(html[start]) then
      var end := ScanName(html, start + 1);
      var n := html[start..end];
      assert forall k :: 0 < k < |n| ==> n[k] == html[start + k] && NameCharAt(html, start + k);
      (start, end)
    else (start, start)
  }

  /** A name preceded by white space and followed by a character that cannot
      continue it is read back exactly, whatever comes before. */
  lemma TagNameRoundTrip(pre: string, ws: string, name: string, rest: string)
    requires forall k :: 0 <= k < |ws| ==> IsJsSpace(ws[k])
    requires IsTagName(name)
    requires |rest| == 0 || !(IsWordChar(rest[0]) || rest[0] == '-')
    ensures var html := pre + ws + name + rest;
      TagNameAt(html, |pre|) == (|pre| + |ws|, |pre| + |ws| + |name|)
  {
    var html := pre + ws + name + rest;
    var start := |pre| + |ws|;
    forall j | |pre| <= j < start
      ensures IsJsSpace(html[j])
    {
      assert html[j] == ws[j - |pre|];
    }
    assert html[start] == name[0];
    SkipFrom(html, |pre|, start);
    assert html[start..start + |name|] == name;
    assert html[start + |name|..] == rest;
    NameRun(html, start, name, rest);
  }

  lemma {:induction false} SkipFrom(html: string, i: nat, n: nat)
    requires i <= n < |html| && !IsJsSpace(html[n])
    requires forall j :: i <= j < n ==> IsJsSpace(html[j])
    ensures SkipSpace(html, i) == n
    decreases n - i
  {
    if i < n {
      SkipFrom(html, i + 1, n);
    }
  }

  lemma NameRun(html: string, start: nat, name: string, rest: string)
    requires IsTagName(name) && start + |name| + |rest| == |html|
    requires html[start..start + |name|] == name && html[start + |name|..] == rest
    requires |rest| == 0 || !(IsWordChar(rest[0]) || rest[0] == '-')
    ensures ScanName(html, start + 1) == start + |name|
  {
    forall j | start + 1 <= j < start + |name|
      ensures NameCharAt(html, j)
    {
      assert html[j] == name[j - start];
    }
    if |rest| > 0 {
      assert html[start + |name|] == rest[0];
    }
    ScanFrom(html, start + 1, start + |name|);
  }

  lemma {:induction false} ScanFrom(html: string, i: nat, n: nat)
    requires i <= n && !NameCharAt(html, n)
    requires forall j :: i <= j < n ==> NameCharAt(html, j)
    ensures ScanName(html, i) == n
    decreases n - i
  {
    if i < n {
      ScanFrom(html, i + 1, n);
    }
  }

  /** What `tagQNameAt` returns when it finds a name: its bounds and whether
      it was quoted. */
  datatype QName = QName(start: nat, end: nat, quoted: bool)

  /** `tagQNameAt(html, pos)`. Its `do ... while` always takes the first
      character as part of the name, whatever it is; a quoted name must be
      followed by the same quote, else nothing is returned. */
  function TagQNameAt(html: string, pos: nat): (r: Option<QName>)
    ensures r.Some? ==> pos <= r.value.start < r.value.end
    ensures r.Some? ==> forall j :: r.value.start < j < r.value.end ==> NameCharAt(html, j)
    ensures r.Some? ==> !NameCharAt(html, r.value.end)
    ensures r.Some? && r.value.quoted ==>
      && 0 < r.value.start
      && r.value.end < |html|
      && html[r.value.end] == html[r.value.start - 1]
      && (html[r.value.end] == '"' || html[r.value.end] == '\'')
    ensures r.None? ==> var p := SkipSpace(html, pos);
      p < |html| && (html[p] == '"' || html[p] == '\'')
  {
    var p := SkipSpace(html, pos);
    var quoted := p < |html| && (html[p] == '"' || html[p] == '\'');
    var start := if quoted then p + 1 else p;
    var end := ScanName(html, start + 1);
    if quoted && !(end < |html| && html[end] == html[p]) then None
    else Some(QName(start, end, quoted))
  }

  /** A name read in full by `tagQNameAt`: any first character, then `[\w-]*`. */
  predicate IsQName(n: string) {
    |n| > 0 && forall k :: 0 < k < |n| ==> IsWordChar(n[k]) || n[k] == '-'
  }

  /** A name after white space, bare or between matching quotes, is read back
      exactly, with the quote noticed, whatever comes before. */
  lemma QNameRoundTrip(pre: string, ws: string, quote: string, name: string, rest: string)
    requires forall k :: 0 <= k < |ws| ==> IsJsSpace(ws[k])
    requires quote == "" || quote == "\"" || quote == "'"
    requires IsQName(name)
    requires quote == "" ==> !IsJsSpace(name[0]) && name[0] != '"' && name[0] != '\''
    requires |rest| == 0 || !(IsWordChar(rest[0]) || rest[0] == '-')
    requires quote != "" ==> |rest| > 0 && rest[0] == quote[0]
    ensures var html := pre + ws + quote + name + rest;
      var start := |pre| + |ws| + |quote|;
      TagQNameAt(html, |pre|) == Some(QName(start, start + |name|, quote != ""))
  {
    var html := pre + ws + quote + name + rest;
    var p := |pre| + |ws|;
    var start := p + |quote|;
    forall j | |pre| <= j < p
      ensures IsJsSpace(html[j])
    {
      assert html[j] == ws[j - |pre|];
    }
    if quote == "" {
      assert html[p] == name[0];
    } else {
      assert html[p] == quote[0];
    }
    SkipFrom(html, |pre|, p);
    forall j | start + 1 <= j < start + |name|
      ensures NameCharAt(html, j)
    {
      assert html[j] == name[j - start];
    }
    if |rest| > 0 {
      assert html[start + |name|] == rest[0];
    }
    ScanFrom(html, start + 1, start + |name|);
  }
}
