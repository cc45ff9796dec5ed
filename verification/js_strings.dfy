/** The JavaScript string primitives the validator relies on, with their
    JavaScript semantics made explicit: `indexOf` answers -1 when nothing is
    found and clamps its start position, `charAt` past either end answers the
    empty string, `substring` clamps both arguments and swaps them when they
    are out of order, `substr` counts a negative start from the end. */
module JsStrings {

  /** Clamps a JavaScript index argument into 0..n. */
  function Clamp(i: int, n: nat): (r: nat)
    ensures r <= n
    ensures 0 <= i <= n ==> r == i
    ensures i < 0 ==> r == 0
    ensures i > n ==> r == n
  {
    if i < 0 then 0 else if i > n then n else i
  }

  /** `pat` occurs in `s` starting at index `i`. */
  predicate MatchAt(s: string, pat: string, i: int) {
    0 <= i && i + |pat| <= |s| && s[i..i + |pat|] == pat
  }

  /** Leftmost occurrence of `pat` at or after `i`, or -1. */
  function IndexFrom(s: string, pat: string, i: nat): (r: int)
    requires i <= |s|
    ensures r == -1 || (i <= r && r + |pat| <= |s|)
    decreases |s| - i
  {
    if i + |pat| > |s| then -1
    else if s[i..i + |pat|] == pat then i
    else IndexFrom(s, pat, i + 1)
  }

  lemma {:induction false} IndexFromSpec(s: string, pat: string, i: nat)
    requires i <= |s|
    ensures var r := IndexFrom(s, pat, i);
      r == -1 || (i <= r && MatchAt(s, pat, r))
    ensures var r := IndexFrom(s, pat, i);
      forall j :: i <= j && (r == -1 || j < r) ==> !MatchAt(s, pat, j)
    decreases |s| - i
  {
    if i + |pat| <= |s| && s[i..i + |pat|] != pat {
      IndexFromSpec(s, pat, i + 1);
    }
  }

  /** `s.indexOf(pat, from)`. */
  function IndexOf(s: string, pat: string, from: int): (r: int)
    ensures r == -1 || (Clamp(from, |s|) <= r && r + |pat| <= |s|)
  {
    IndexFrom(s, pat, Clamp(from, |s|))
  }

  /** `indexOf` answers the leftmost occurrence at or after the clamped start,
      or -1 when there is none. */
  lemma IndexOfSpec(s: string, pat: string, from: int)
    ensures var r := IndexOf(s, pat, from);
      r == -1 || (Clamp(from, |s|) <= r && MatchAt(s, pat, r))
    ensures var r := IndexOf(s, pat, from);
      forall j :: Clamp(from, |s|) <= j && (r == -1 || j < r) ==> !MatchAt(s, pat, j)
  {
    IndexFromSpec(s, pat, Clamp(from, |s|));
  }

  lemma IndexOfFound(s: string, pat: string, from: int, i: int)
    requires 0 <= from <= i
    requires MatchAt(s, pat, i)
    requires forall j :: from <= j < i ==> !MatchAt(s, pat, j)
    ensures IndexOf(s, pat, from) == i
  {
    IndexOfSpec(s, pat, from);
  }

  /** `indexOf` finds nothing when the pattern's first character does not
      occur where a match could start. */
  lemma IndexOfNone(s: string, pat: string, from: nat)
    requires |pat| > 0 && from <= |s|
    requires from + |pat| <= |s| ==> pat[0] !in s[from..|s| - |pat| + 1]
    ensures IndexOf(s, pat, from) == -1
  {
    forall j | from <= j
      ensures !MatchAt(s, pat, j)
    {
      if j + |pat| <= |s| {
        assert s[j..j + |pat|][0] == s[from..|s| - |pat| + 1][j - from];
      }
    }
    IndexOfSpec(s, pat, from);
  }

  /** `indexOf` finds nothing when one of the pattern's characters does not
      occur at all. */
  lemma IndexOfMissing(s: string, pat: string, from: nat, k: nat)
    requires k < |pat| && pat[k] !in s
    ensures IndexOf(s, pat, from) == -1
  {
    forall j | 0 <= j
      ensures !MatchAt(s, pat, j)
    {
      if j + |pat| <= |s| {
        assert s[j..j + |pat|][k] == s[j + k];
      }
    }
    IndexOfSpec(s, pat, from);
  }

  /** `indexOf` finds `pat` at `i` when its first character does not occur
      between `from` and `i`. */
  lemma IndexOfAt(s: string, pat: string, from: nat, i: nat)
    requires |pat| > 0 && from <= i && MatchAt(s, pat, i)
    requires pat[0] !in s[from..i]
    ensures IndexOf(s, pat, from) == i
  {
    forall j | from <= j < i
      ensures !MatchAt(s, pat, j)
    {
      assert s[j] == s[from..i][j - from];
      if j + |pat| <= |s| {
        assert s[j..j + |pat|][0] == s[j];
      }
    }
    IndexOfFound(s, pat, from, i);
  }

  lemma IndexOfSkip(s: string, pat: string, from: nat)
    requires from <= |s|
    requires !MatchAt(s, pat, from)
    ensures IndexOf(s, pat, from) == IndexOf(s, pat, from + 1)
  {
    IndexOfSpec(s, pat, from);
    IndexOfSpec(s, pat, from + 1);
  }

  /** `s.indexOf(c, i)` for a one-character pattern, by characters. */
  function CharFrom(s: string, c: char, i: nat): (r: int)
    ensures r == -1 || (i <= r < |s| && s[r] == c)
    ensures forall j :: i <= j < |s| && (r == -1 || j < r) ==> s[j] != c
    decreases |s| - i
  {
    if i >= |s| then -1
    else if s[i] == c then i
    else CharFrom(s, c, i + 1)
  }

  lemma CharFromIsIndexOf(s: string, c: char, i: nat)
    requires i <= |s|
    ensures CharFrom(s, c, i) == IndexOf(s, [c], i)
  {
    var r := CharFrom(s, c, i);
    forall j | 0 <= j
      ensures MatchAt(s, [c], j) <==> j < |s| && s[j] == c
    {
      if j < |s| {
        assert s[j..j + 1] == [s[j]];
      }
    }
    IndexOfSpec(s, [c], i);
    if r != -1 {
      IndexOfFound(s, [c], i, r);
    }
  }

  /** `s` holds `c` twice in a row from index `j`. */
  predicate PairAt(s: string, c: char, j: int) {
    0 <= j && j + 1 < |s| && s[j] == c && s[j + 1] == c
  }

  /** `s.indexOf(cc, i)` for a doubled character such as `<<`, by characters. */
  function PairFrom(s: string, c: char, i: nat): (r: int)
    ensures r == -1 || (i <= r && PairAt(s, c, r))
    ensures forall j :: i <= j && (r == -1 || j < r) ==> !PairAt(s, c, j)
    decreases |s| - i
  {
    if i + 1 >= |s| then -1
    else if s[i] == c && s[i + 1] == c then i
    else PairFrom(s, c, i + 1)
  }

  lemma PairFromIsIndexOf(s: string, c: char, i: nat)
    requires i <= |s|
    ensures PairFrom(s, c, i) == IndexOf(s, [c, c], i)
  {
    var r := PairFrom(s, c, i);
    forall j | 0 <= j
      ensures MatchAt(s, [c, c], j) <==> PairAt(s, c, j)
    {
      if j + 1 < |s| {
        assert s[j..j + 2] == [s[j], s[j + 1]];
      }
    }
    IndexOfSpec(s, [c, c], i);
    if r != -1 {
      IndexOfFound(s, [c, c], i, r);
    }
  }

  /** `s.charAt(i)`: one character, or the empty string outside `s`. */
  function CharAt(s: string, i: int): (r: string)
    ensures |r| <= 1
    ensures 0 <= i < |s| ==> r == [s[i]]
    ensures !(0 <= i < |s|) ==> r == ""
  {
    if 0 <= i < |s| then [s[i]] else ""
  }

  /** `s.substring(a, b)`. */
  function Substring(s: string, a: int, b: int): (r: string)
    ensures 0 <= a <= b <= |s| ==> r == s[a..b]
    ensures 0 <= b <= a <= |s| ==> r == s[b..a]
  {
    var x := Clamp(a, |s|);
    var y := Clamp(b, |s|);
    if x <= y then s[x..y] else s[y..x]
  }

  /** `s.substr(start, len)`: a negative start counts from the end. */
  function Substr(s: string, start: int, len: int): (r: string)
    ensures |r| <= |s|
    ensures 0 <= start && 0 <= len && start + len <= |s| ==> r == s[start..start + len]
    ensures start < 0 && 0 < len && |s| + start >= 0 ==> |r| > 0 && r[0] == s[|s| + start]
  {
    var from := if start < 0 then (if |s| + start < 0 then 0 else |s| + start) else Clamp(start, |s|);
    var n := Clamp(len, |s| - from);
    s[from..from + n]
  }

  /** `s.replaceAll(pat, rep)` for a non-empty literal pattern: occurrences
      are replaced left to right without overlap. */
  function ReplaceAll(s: string, pat: string, rep: string): (r: string)
    requires |pat| > 0
    decreases |s|
  {
    if |s| < |pat| then s
    else if s[..|pat|] == pat then rep + ReplaceAll(s[|pat|..], pat, rep)
    else [s[0]] + ReplaceAll(s[1..], pat, rep)
  }

  /** Number of occurrences `ReplaceAll` (and a global regex match of the
      literal) finds: left to right, without overlap. */
  function CountMatches(s: string, pat: string): (n: nat)
    requires |pat| > 0
    ensures n <= |s|
    decreases |s|
  {
    if |s| < |pat| then 0
    else if s[..|pat|] == pat then 1 + CountMatches(s[|pat|..], pat)
    else CountMatches(s[1..], pat)
  }

  /** An occurrence in a suffix is an occurrence in the whole string. */
  lemma MatchShift(s: string, pat: string, k: nat)
    requires k <= |s|
    ensures forall j :: 0 <= j ==> (MatchAt(s[k..], pat, j) <==> MatchAt(s, pat, j + k))
    ensures IndexOf(s[k..], pat, 0) != -1 ==> IndexOf(s, pat, 0) != -1
    ensures IndexOf(s, pat, 0) == -1 ==> IndexOf(s[k..], pat, 0) == -1
    ensures (forall j :: 0 <= j < k ==> !MatchAt(s, pat, j)) ==>
              (IndexOf(s[k..], pat, 0) == -1 <==> IndexOf(s, pat, 0) == -1)
  {
    forall j | 0 <= j
      ensures MatchAt(s[k..], pat, j) <==> MatchAt(s, pat, j + k)
    {
      if 0 <= j && j + |pat| <= |s| - k {
        assert s[k..][j..j + |pat|] == s[j + k..j + k + |pat|];
      }
    }
    IndexOfSpec(s[k..], pat, 0);
    IndexOfSpec(s, pat, 0);
    var i := IndexOf(s[k..], pat, 0);
    if i != -1 {
      assert MatchAt(s, pat, i + k);
    }
    var i' := IndexOf(s, pat, 0);
    if i' >= k {
      assert MatchAt(s[k..], pat, i' - k);
    }
  }

  /** Number of occurrences of the character `c`. */
  function CountChar(s: string, c: char): (n: nat)
    ensures n <= |s|
    decreases |s|
  {
    if |s| == 0 then 0
    else (if s[0] == c then 1 else 0) + CountChar(s[1..], c)
  }

  lemma {:induction false} CountCharZero(s: string, c: char)
    ensures CountChar(s, c) == 0 <==> c !in s
    decreases |s|
  {
    if |s| > 0 {
      CountCharZero(s[1..], c);
      assert s == [s[0]] + s[1..];
    }
  }

  lemma {:induction false} CountCharConcat(a: string, b: string, c: char)
    ensures CountChar(a + b, c) == CountChar(a, c) + CountChar(b, c)
    decreases |a|
  {
    if |a| == 0 {
      assert a + b == b;
    } else {
      assert (a + b)[1..] == a[1..] + b;
      CountCharConcat(a[1..], b, c);
    }
  }

  /** The characters JavaScript's `\s` class (and `trim`) treats as white space. */
  predicate IsJsSpace(c: char) {
    var n := c as int;
    (9 <= n <= 13) || n == 32 || n == 0xa0 || n == 0x1680 || (0x2000 <= n <= 0x200a)
    || n == 0x2028 || n == 0x2029 || n == 0x202f || n == 0x205f || n == 0x3000 || n == 0xfeff
  }

  predicate IsAsciiLetter(c: char) {
    ('a' <= c <= 'z') || ('A' <= c <= 'Z')
  }

  predicate IsDigit(c: char) {
    '0' <= c <= '9'
  }

  /** JavaScript's `\w`. */
  predicate IsWordChar(c: char) {
    IsAsciiLetter(c) || IsDigit(c) || c == '_'
  }

  /** `charAt(i).match(/\s/)`. */
  predicate SpaceAt(s: string, i: int) {
    0 <= i < |s| && IsJsSpace(s[i])
  }

  /** `charAt(i).match(/[\w-]/)`. */
  predicate NameCharAt(s: string, i: int) {
    0 <= i < |s| && (IsWordChar(s[i]) || s[i] == '-')
  }

  /** The first index from `i` on that is not white space. */
  function SkipLead(s: string, i: nat): (r: nat)
    requires i <= |s|
    ensures i <= r <= |s|
    decreases |s| - i
  {
    if i < |s| && IsJsSpace(s[i]) then SkipLead(s, i + 1) else i
  }

  /** The end of `s[lo..j]` once its trailing white space is dropped. */
  function SkipTrail(s: string, lo: nat, j: nat): (r: nat)
    requires lo <= j <= |s|
    ensures lo <= r <= j
    decreases j
  {
    if j > lo && IsJsSpace(s[j - 1]) then SkipTrail(s, lo, j - 1) else j
  }

  /** `s.trim()`. */
  function Trim(s: string): (r: string)
    ensures |r| <= |s|
  {
    var a := SkipLead(s, 0);
    s[a..SkipTrail(s, a, |s|)]
  }

  /** `s.split(c)` for a one-character separator. */
  function Split(s: string, c: char): (r: seq<string>)
    ensures |r| > 0
    decreases |s|
  {
    if |s| == 0 then [""]
    else
      var rest := Split(s[1..], c);
      if s[0] == c then [""] + rest else [[s[0]] + rest[0]] + rest[1..]
  }

  /** A string without the separator splits into itself. */
  lemma {:induction false} SplitNoSep(s: string, c: char)
    requires c !in s
    ensures Split(s, c) == [s]
    decreases |s|
  {
    if |s| > 0 {
      SplitNoSep(s[1..], c);
      assert s == [s[0]] + s[1..];
    }
  }

  /** There is one piece more than there are separators. */
  lemma {:induction false} SplitCount(s: string, c: char)
    ensures |Split(s, c)| == CountChar(s, c) + 1
    decreases |s|
  {
    if |s| > 0 {
      SplitCount(s[1..], c);
    }
  }

  /** The last piece of a split is what follows the last separator. */
  lemma {:induction false} SplitLast(s: string, c: char) returns (j: nat)
    ensures j <= |s| && Split(s, c)[|Split(s, c)| - 1] == s[j..]
    ensures c !in s[j..] && (j == 0 || s[j - 1] == c)
    decreases |s|
  {
    if |s| == 0 {
      j := 0;
    } else {
      var rest := Split(s[1..], c);
      var j' := SplitLast(s[1..], c);
      SplitCount(s[1..], c);
      CountCharZero(s[1..], c);
      assert s[1..][j'..] == s[j' + 1..];
      assert j' > 0 ==> s[j'] == s[1..][j' - 1];
      assert j' == 0 ==> s[1..][j'..] == s[1..];
      if s[0] == c || |rest| > 1 {
        j := j' + 1;
      } else {
        j := 0;
        assert s == [s[0]] + s[1..];
      }
    }
  }

  /** Index of the first `c` in `s` (which must contain one). */
  function FirstChar(s: string, c: char): (i: nat)
    requires c in s
    ensures i < |s| && s[i] == c && c !in s[..i]
    decreases |s|
  {
    if s[0] == c then 0
    else
      var j := FirstChar(s[1..], c);
      assert s[..j + 1] == [s[0]] + s[1..][..j];
      j + 1
  }

  predicate StartsWith(s: string, prefix: string) {
    |prefix| <= |s| && s[..|prefix|] == prefix
  }
}
