/** Maximal runs of one character class, the common shape of
    `re.findall(r"[\w']+", q)`, `re.findall(r'[\w]+', q)` and `s.split()`:
    every match is a longest non-empty stretch of class characters, found
    left to right. */
module Tokenize {

  import opened Strings
  import opened Seqs

  datatype CharClass =
    | QueryChar   // `[\w']`: word characters and the apostrophe
    | WordChar    // `\w`
    | NonSpace    // anything `str.split()` does not split on

  predicate InClass(c: char, cls: CharClass)
  {
    match cls
    case QueryChar => IsWordChar(c) || c == '\''
    case WordChar => IsWordChar(c)
    case NonSpace => !IsSpace(c)
  }

  predicate AllIn(t: string, cls: CharClass)
  {
    forall i :: 0 <= i < |t| ==> InClass(t[i], cls)
  }

  /** Length of the longest prefix of `s` made of class characters. */
  function RunLength(s: string, cls: CharClass): (n: nat)
    ensures n <= |s|
    ensures AllIn(s[..n], cls)
    ensures n < |s| ==> !InClass(s[n], cls)
  {
    if |s| == 0 || !InClass(s[0], cls) then 0
    else
      var m := RunLength(s[1..], cls);
      assert s[..m + 1] == [s[0]] + s[1..][..m];
      m + 1
  }

  /** The maximal runs of `s`, left to right. */
  function Runs(s: string, cls: CharClass): (r: seq<string>)
    ensures forall i :: 0 <= i < |r| ==> |r[i]| > 0 && AllIn(r[i], cls)
    decreases |s|
  {
    if |s| == 0 then []
    else if !InClass(s[0], cls) then Runs(s[1..], cls)
    else
      var n := RunLength(s, cls);
      [s[..n]] + Runs(s[n..], cls)
  }

  /** The class characters of `s`, in order (every other character deleted). */
  function Kept(s: string, cls: CharClass): string
  {
    if |s| == 0 then []
    else (if InClass(s[0], cls) then [s[0]] else []) + Kept(s[1..], cls)
  }

  /** Number of positions where a run ends: a class character that is last
      in `s` or followed by a non-class character. */
  function RunEnds(s: string, cls: CharClass): nat
  {
    if |s| == 0 then 0
    else if |s| == 1 then (if InClass(s[0], cls) then 1 else 0)
    else (if InClass(s[0], cls) && !InClass(s[1], cls) then 1 else 0) + RunEnds(s[1..], cls)
  }

  lemma {:induction false} KeptAppend(a: string, b: string, cls: CharClass)
    ensures Kept(a + b, cls) == Kept(a, cls) + Kept(b, cls)
    decreases |a|
  {
    if |a| == 0 {
      assert a + b == b;
    } else {
      assert (a + b)[1..] == a[1..] + b;
      KeptAppend(a[1..], b, cls);
    }
  }

  lemma {:induction false} KeptAll(t: string, cls: CharClass)
    requires AllIn(t, cls)
    ensures Kept(t, cls) == t
    decreases |t|
  {
    if |t| > 0 {
      KeptAll(t[1..], cls);
    }
  }

  /** The runs hold exactly the class characters of `s`, in their order:
      nothing is lost, added or reordered. */
  lemma {:induction false} RunsKeepContent(s: string, cls: CharClass)
    ensures Concat(Runs(s, cls)) == Kept(s, cls)
    decreases |s|
  {
    if |s| > 0 {
      if !InClass(s[0], cls) {
        RunsKeepContent(s[1..], cls);
      } else {
        var n := RunLength(s, cls);
        RunsKeepContent(s[n..], cls);
        assert s == s[..n] + s[n..];
        KeptAppend(s[..n], s[n..], cls);
        KeptAll(s[..n], cls);
        var r := Runs(s, cls);
        assert r == [s[..n]] + Runs(s[n..], cls);
        assert r[0] == s[..n] && r[1..] == Runs(s[n..], cls);
      }
    }
  }

  lemma {:induction false} RunEndsSkipRun(s: string, n: nat, cls: CharClass)
    requires 1 <= n <= |s| && AllIn(s[..n], cls)
    requires n < |s| ==> !InClass(s[n], cls)
    ensures RunEnds(s, cls) == 1 + RunEnds(s[n..], cls)
    decreases n
  {
    assert InClass(s[..n][0], cls);
    if n > 1 {
      assert InClass(s[..n][1], cls);
      assert s[1..][..n - 1] == s[..n][1..];
      RunEndsSkipRun(s[1..], n - 1, cls);
      assert s[1..][n - 1..] == s[n..];
    }
  }

  /** There are exactly as many runs as places where a run of class
      characters ends. */
  lemma {:induction false} RunsAreMaximal(s: string, cls: CharClass)
    ensures |Runs(s, cls)| == RunEnds(s, cls)
    decreases |s|
  {
    if |s| > 0 {
      if !InClass(s[0], cls) {
        RunsAreMaximal(s[1..], cls);
      } else {
        var n := RunLength(s, cls);
        RunsAreMaximal(s[n..], cls);
        RunEndsSkipRun(s, n, cls);
      }
    }
  }

  /** Every run is a piece of the string. */
  lemma {:induction false} RunsInText(s: string, cls: CharClass)
    ensures forall x :: x in Runs(s, cls) ==> IsSubstring(x, s)
    decreases |s|
  {
    if |s| > 0 {
      var n := if InClass(s[0], cls) then RunLength(s, cls) else 1;
      var rest := s[n..];
      RunsInText(rest, cls);
      IsSubstringWitness(s[..n], s, 0);
      IsSubstringWitness(rest, s, n);
      forall x | x in Runs(rest, cls)
        ensures IsSubstring(x, s)
      {
        IsSubstringTrans(x, rest, s);
      }
    }
  }

  /** A string made only of class characters is one run. */
  lemma {:induction false} RunLengthAll(s: string, cls: CharClass)
    requires AllIn(s, cls)
    ensures RunLength(s, cls) == |s|
  {
    if |s| > 0 {
      RunLengthAll(s[1..], cls);
    }
  }

  lemma RunsOfOneRun(s: string, cls: CharClass)
    requires |s| > 0 && AllIn(s, cls)
    ensures Runs(s, cls) == [s]
  {
    RunLengthAll(s, cls);
    assert InClass(s[0], cls);
    assert s[..|s|] == s;
    assert Runs(s[|s|..], cls) == [];
  }

  /** `t` holds no character of the class. */
  predicate NoneIn(t: string, cls: CharClass)
  {
    forall i :: 0 <= i < |t| ==> !InClass(t[i], cls)
  }

  /** The gaps with the runs put back between them:
      `g[0] + r[0] + g[1] + r[1] + ... + g[|r|]`. */
  function Weave(g: seq<string>, r: seq<string>): string
    requires |g| == |r| + 1
  {
    if |r| == 0 then g[0] else g[0] + r[0] + Weave(g[1..], r[1..])
  }

  /** `s` is cut into the runs `r` and the gaps `g` around them: the runs are
      non-empty and hold only class characters, the gaps hold none, and the
      gaps between two runs are non-empty, so every run is maximal. */
  predicate Tokenizes(s: string, g: seq<string>, r: seq<string>, cls: CharClass)
  {
    && |g| == |r| + 1 && Weave(g, r) == s
    && (forall j :: 0 <= j < |r| ==> |r[j]| > 0 && AllIn(r[j], cls))
    && (forall j :: 0 <= j < |g| ==> NoneIn(g[j], cls))
    && (forall j :: 0 < j < |g| - 1 ==> |g[j]| > 0)
  }

  /** The stretches of non-class characters around the runs, the first and
      the last possibly empty. */
  function Gaps(s: string, cls: CharClass): (g: seq<string>)
    ensures |g| == |Runs(s, cls)| + 1
    decreases |s|
  {
    if |s| == 0 then [""]
    else if !InClass(s[0], cls) then
      var g := Gaps(s[1..], cls);
      [[s[0]] + g[0]] + g[1..]
    else
      var n := RunLength(s, cls);
      [""] + Gaps(s[n..], cls)
  }

  /** Text in front of the first gap stays in front of the woven text. */
  lemma WeaveHead(x: string, g: seq<string>, r: seq<string>)
    requires |g| == |r| + 1
    ensures Weave([x + g[0]] + g[1..], r) == x + Weave(g, r)
  {
    var h := [x + g[0]] + g[1..];
    assert h[1..] == g[1..];
  }

  /** A run in front, after an empty gap, stays in front of the woven text. */
  lemma WeaveCons(r0: string, g: seq<string>, r: seq<string>)
    requires |g| == |r| + 1
    ensures Weave([""] + g, [r0] + r) == r0 + Weave(g, r)
  {
    var h := [""] + g;
    var q := [r0] + r;
    assert h[0] == "" && q[0] == r0;
    assert h[1..] == g && q[1..] == r;
    assert Weave(h, q) == h[0] + q[0] + Weave(g, r);
    assert "" + r0 == r0;
  }

  /** A non-class character in front joins the first gap. */
  lemma TokenizesSkip(c: char, t: string, g: seq<string>, r: seq<string>, cls: CharClass)
    requires !InClass(c, cls) && Tokenizes(t, g, r, cls)
    ensures Tokenizes([c] + t, [[c] + g[0]] + g[1..], r, cls)
  {
    var h := [[c] + g[0]] + g[1..];
    WeaveHead([c], g, r);
    assert forall j :: 0 < j < |h| ==> h[j] == g[j];
    assert NoneIn(h[0], cls) by {
      forall i | 0 <= i < |h[0]|
        ensures !InClass(h[0][i], cls)
      {
        if i > 0 {
          assert h[0][i] == g[0][i - 1];
        }
      }
    }
  }

  /** A run in front, followed by a gap or by nothing, becomes the first run. */
  lemma TokenizesRun(u: string, t: string, g: seq<string>, r: seq<string>, cls: CharClass)
    requires |u| > 0 && AllIn(u, cls) && Tokenizes(t, g, r, cls)
    requires |r| > 0 ==> |g[0]| > 0
    ensures Tokenizes(u + t, [""] + g, [u] + r, cls)
  {
    var h := [""] + g;
    var q := [u] + r;
    WeaveCons(u, g, r);
    assert forall j :: 0 < j < |h| ==> h[j] == g[j - 1];
    assert forall j :: 0 < j < |q| ==> q[j] == r[j - 1];
  }

  /** The runs and gaps of `s` cut it as `re.findall` does. */
  lemma {:induction false} RunsTokenize(s: string, cls: CharClass)
    ensures Tokenizes(s, Gaps(s, cls), Runs(s, cls), cls)
    decreases |s|
  {
    if |s| > 0 {
      if !InClass(s[0], cls) {
        var t := s[1..];
        RunsTokenize(t, cls);
        TokenizesSkip(s[0], t, Gaps(t, cls), Runs(t, cls), cls);
        SkipStep(s, cls);
      } else {
        var n := RunLength(s, cls);
        var t := s[n..];
        RunsTokenize(t, cls);
        if |Runs(t, cls)| > 0 {
          GapsHead(t, cls);
        }
        TokenizesRun(s[..n], t, Gaps(t, cls), Runs(t, cls), cls);
        RunStep(s, cls);
      }
    }
  }

  /** One step of `Runs` and `Gaps` over a leading non-class character. */
  lemma SkipStep(s: string, cls: CharClass)
    requires |s| > 0 && !InClass(s[0], cls)
    ensures s == [s[0]] + s[1..]
    ensures Runs(s, cls) == Runs(s[1..], cls)
    ensures Gaps(s, cls) == [[s[0]] + Gaps(s[1..], cls)[0]] + Gaps(s[1..], cls)[1..]
  {
  }

  /** One step of `Runs` and `Gaps` over a leading run. */
  lemma RunStep(s: string, cls: CharClass)
    requires |s| > 0 && InClass(s[0], cls)
    ensures var n := RunLength(s, cls);
      && s == s[..n] + s[n..]
      && Runs(s, cls) == [s[..n]] + Runs(s[n..], cls)
      && Gaps(s, cls) == [""] + Gaps(s[n..], cls)
  {
  }

  /** Text that starts outside the class starts with a non-empty gap. */
  lemma GapsHead(t: string, cls: CharClass)
    requires |t| > 0 && !InClass(t[0], cls)
    ensures |Gaps(t, cls)[0]| > 0
  {
  }

  /** A class-only prefix followed by a non-class character (or the end) is
      the first run. */
  lemma {:induction false} RunLengthIs(s: string, m: nat, cls: CharClass)
    requires m <= |s| && AllIn(s[..m], cls)
    requires m < |s| ==> !InClass(s[m], cls)
    ensures RunLength(s, cls) == m
    decreases m
  {
    if m > 0 {
      assert InClass(s[..m][0], cls);
      assert s[1..][..m - 1] == s[..m][1..];
      RunLengthIs(s[1..], m - 1, cls);
    }
  }

  /** A cut whose first gap is non-empty: the text starts with that gap's
      first character, and the rest is cut the same way. */
  lemma UntokenizeSkip(s: string, g: seq<string>, r: seq<string>, cls: CharClass)
    requires Tokenizes(s, g, r, cls) && |g[0]| > 0
    ensures |s| > 0 && !InClass(s[0], cls) && s[0] == g[0][0]
    ensures Tokenizes(s[1..], [g[0][1..]] + g[1..], r, cls)
  {
    var x := [g[0][0]];
    var g2 := [g[0][1..]] + g[1..];
    assert x + g2[0] == g[0];
    assert [x + g2[0]] + g2[1..] == g;
    WeaveHead(x, g2, r);
    assert s[0] == g[0][0] && s[1..] == Weave(g2, r);
    assert NoneIn(g2[0], cls) by {
      forall i | 0 <= i < |g2[0]|
        ensures !InClass(g2[0][i], cls)
      {
        assert g2[0][i] == g[0][i + 1];
      }
    }
    assert forall j :: 0 < j < |g2| ==> g2[j] == g[j];
  }

  /** A cut that starts with a run: the run is a class-only prefix followed
      by a non-class character or by nothing, and the rest is cut the same
      way. */
  lemma UntokenizeRun(s: string, g: seq<string>, r: seq<string>, cls: CharClass)
    requires Tokenizes(s, g, r, cls) && |g[0]| == 0 && |r| > 0
    ensures |r[0]| <= |s| && s[..|r[0]|] == r[0] && AllIn(r[0], cls)
    ensures |s| > 0 && InClass(s[0], cls)
    ensures |r[0]| < |s| ==> !InClass(s[|r[0]|], cls)
    ensures Tokenizes(s[|r[0]|..], g[1..], r[1..], cls)
  {
    var t := Weave(g[1..], r[1..]);
    var m := |r[0]|;
    assert s == r[0] + t;
    assert s[..m] == r[0] && s[m..] == t;
    if |t| > 0 {
      if |r| == 1 {
        assert t == g[1];
      }
      assert t[0] == g[1][0];
    }
    assert forall j :: 0 < j < |g| - 1 ==> g[1..][j] == g[j + 1];
  }

  /** Only one cut into maximal runs exists: any runs and gaps that cut `s`
      as `Tokenizes` demands are `Runs(s)` and `Gaps(s)`. */
  lemma {:induction false} RunsUnique(s: string, g: seq<string>, r: seq<string>, cls: CharClass)
    requires Tokenizes(s, g, r, cls)
    ensures r == Runs(s, cls) && g == Gaps(s, cls)
    decreases |s|
  {
    if |g[0]| > 0 {
      UntokenizeSkip(s, g, r, cls);
      RunsUnique(s[1..], [g[0][1..]] + g[1..], r, cls);
      UniqueSkip(s, g, r, cls);
    } else if |r| == 0 {
      assert g == [g[0]];
    } else {
      UntokenizeRun(s, g, r, cls);
      var m := |r[0]|;
      RunLengthIs(s, m, cls);
      RunsUnique(s[m..], g[1..], r[1..], cls);
      UniqueRun(s, g, r, cls);
    }
  }

  /** A cut that starts with a non-empty gap agrees with `Runs` and `Gaps`
      when the cut of the rest does. */
  lemma UniqueSkip(s: string, g: seq<string>, r: seq<string>, cls: CharClass)
    requires |s| > 0 && !InClass(s[0], cls) && |g| > 0 && |g[0]| > 0 && g[0][0] == s[0]
    requires r == Runs(s[1..], cls) && [g[0][1..]] + g[1..] == Gaps(s[1..], cls)
    ensures r == Runs(s, cls) && g == Gaps(s, cls)
  {
    SkipStep(s, cls);
    var g2 := [g[0][1..]] + g[1..];
    assert g2[0] == g[0][1..] && g2[1..] == g[1..];
    assert [s[0]] + g[0][1..] == g[0];
  }

  /** A cut that starts with a run agrees with `Runs` and `Gaps` when the cut
      of the rest does. */
  lemma UniqueRun(s: string, g: seq<string>, r: seq<string>, cls: CharClass)
    requires |s| > 0 && InClass(s[0], cls) && |g| > 0 && g[0] == "" && |r| > 0
    requires RunLength(s, cls) == |r[0]| && s[..|r[0]|] == r[0]
    requires r[1..] == Runs(s[|r[0]|..], cls) && g[1..] == Gaps(s[|r[0]|..], cls)
    ensures r == Runs(s, cls) && g == Gaps(s, cls)
  {
    RunStep(s, cls);
    assert r == [r[0]] + r[1..] && g == [g[0]] + g[1..];
  }
}
