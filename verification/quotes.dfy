/** `matchQuotes`: parity warnings for the double quotes, the doubled single
    quotes and the doubled slashes of a passage. */
module Quotes {
  import opened JsStrings
  import opened Diagnostics

  /** `n % 2` is 1, as the source tests a count. */
  predicate Odd(n: nat) {
    n % 2 == 1
  }

  /** `d` when the condition holds, nothing otherwise. */
  function Flag(b: bool, d: Diag): seq<Diag> {
    if b then [d] else []
  }

  lemma ThreeFlags(x: bool, y: bool, z: bool)
    ensures var r := Flag(x, UnevenDoubleQuotes) + Flag(y, UnevenDualQuotes) + Flag(z, UnevenDualSlashes);
      && (UnevenDoubleQuotes in r <==> x)
      && (UnevenDualQuotes in r <==> y)
      && (UnevenDualSlashes in r <==> z)
      && forall i :: 0 <= i < |r| ==> r[i].UnevenDoubleQuotes? || r[i].UnevenDualQuotes? || r[i].UnevenDualSlashes?
  {
  }

  /** The warnings of `matchQuotes`, in its order: an odd number of `"`, of
      `''` and of `//`, the last two counted as a global regular expression
      counts them, left to right and without overlap. */
  function MatchQuotes(html: string): (r: seq<Diag>)
    ensures UnevenDoubleQuotes in r <==> Odd(CountChar(html, '"'))
    ensures UnevenDualQuotes in r <==> Odd(CountMatches(html, "''"))
    ensures UnevenDualSlashes in r <==> Odd(CountMatches(html, "//"))
    ensures forall i :: 0 <= i < |r| ==> r[i].UnevenDoubleQuotes? || r[i].UnevenDualQuotes? || r[i].UnevenDualSlashes?
  {
    var x := Odd(CountChar(html, '"'));
    var y := Odd(CountMatches(html, "''"));
    var z := Odd(CountMatches(html, "//"));
    ThreeFlags(x, y, z);
    Flag(x, UnevenDoubleQuotes) + Flag(y, UnevenDualQuotes) + Flag(z, UnevenDualSlashes)
  }

  /** Doubled characters are counted separately on either side of a cut that
      does not follow that character. */
  lemma {:induction false} PairCountConcat(a: string, b: string, c: char)
    requires |a| == 0 || a[|a| - 1] != c
    ensures CountMatches(a + b, [c, c]) == CountMatches(a, [c, c]) + CountMatches(b, [c, c])
    decreases |a|
  {
    var s := a + b;
    var pat := [c, c];
    if |a| == 0 {
      assert s == b;
    } else if |s| < 2 {
      assert |b| == 0;
    } else if s[..2] == pat {
      assert s[..2][0] == s[0] && s[..2][1] == s[1];
      assert s[0] == a[0] && a[0] == c;
      assert |a| >= 2 && a[1] == c;
      assert a[..2] == pat;
      assert s[2..] == a[2..] + b;
      PairCountConcat(a[2..], b, c);
    } else {
      assert s[1..] == a[1..] + b;
      if |a| >= 2 {
        assert a[..2] == s[..2];
      }
      PairCountConcat(a[1..], b, c);
    }
  }

  /** Cutting a passage after a character other than `'` and `/`, each
      warning is raised for the whole exactly when it is raised for one of
      the two parts alone. */
  lemma MatchQuotesConcat(a: string, b: string)
    requires |a| == 0 || (a[|a| - 1] != '\'' && a[|a| - 1] != '/')
    ensures UnevenDoubleQuotes in MatchQuotes(a + b) <==>
      (UnevenDoubleQuotes in MatchQuotes(a)) != (UnevenDoubleQuotes in MatchQuotes(b))
    ensures UnevenDualQuotes in MatchQuotes(a + b) <==>
      (UnevenDualQuotes in MatchQuotes(a)) != (UnevenDualQuotes in MatchQuotes(b))
    ensures UnevenDualSlashes in MatchQuotes(a + b) <==>
      (UnevenDualSlashes in MatchQuotes(a)) != (UnevenDualSlashes in MatchQuotes(b))
  {
    DoubleQuotesConcat(a, b);
    DualQuotesConcat(a, b);
    DualSlashesConcat(a, b);
  }

  lemma DoubleQuotesConcat(a: string, b: string)
    ensures UnevenDoubleQuotes in MatchQuotes(a + b) <==>
      (UnevenDoubleQuotes in MatchQuotes(a)) != (UnevenDoubleQuotes in MatchQuotes(b))
  {
    CountCharConcat(a, b, '"');
    Parity(CountChar(a, '"'), CountChar(b, '"'));
  }

  lemma DualQuotesConcat(a: string, b: string)
    requires |a| == 0 || a[|a| - 1] != '\''
    ensures UnevenDualQuotes in MatchQuotes(a + b) <==>
      (UnevenDualQuotes in MatchQuotes(a)) != (UnevenDualQuotes in MatchQuotes(b))
  {
    PairParity(a, b, '\'');
  }

  lemma DualSlashesConcat(a: string, b: string)
    requires |a| == 0 || a[|a| - 1] != '/'
    ensures UnevenDualSlashes in MatchQuotes(a + b) <==>
      (UnevenDualSlashes in MatchQuotes(a)) != (UnevenDualSlashes in MatchQuotes(b))
  {
    PairParity(a, b, '/');
  }

  lemma PairParity(a: string, b: string, c: char)
    requires |a| == 0 || a[|a| - 1] != c
    ensures Odd(CountMatches(a + b, [c, c])) <==>
      (Odd(CountMatches(a, [c, c])) != Odd(CountMatches(b, [c, c])))
  {
    PairCountConcat(a, b, c);
    Parity(CountMatches(a, [c, c]), CountMatches(b, [c, c]));
  }

  lemma Parity(x: nat, y: nat)
    ensures Odd(x + y) <==> (Odd(x) != Odd(y))
  {
  }
}
