/** Python's `str.split(sep)`, `sep.join(xs)`, `str.strip()` and the first
    occurrence search behind `str.split` on a multi-character separator. */
module Lines {

  import opened Wrappers
  import opened Seqs
  import opened Strings

  /** `s.split(c)` for a one-character separator: the pieces between the
      separators, always at least one. */
  function SplitOn(s: string, c: char): (r: seq<string>)
    ensures |r| >= 1
    ensures forall i :: 0 <= i < |r| ==> c !in r[i]
    decreases |s|
  {
    if c !in s then [s]
    else
      var i := IndexOf(s, c);
      [s[..i]] + SplitOn(s[i + 1..], c)
  }

  /** `c.join(xs)`. */
  function Join(xs: seq<string>, c: char): string
  {
    if |xs| == 0 then ""
    else if |xs| == 1 then xs[0]
    else xs[0] + [c] + Join(xs[1..], c)
  }

  /** Joining the pieces back with the separator restores the string. */
  lemma {:induction false} JoinSplit(s: string, c: char)
    ensures Join(SplitOn(s, c), c) == s
    decreases |s|
  {
    if c in s {
      var i := IndexOf(s, c);
      var rest := SplitOn(s[i + 1..], c);
      JoinSplit(s[i + 1..], c);
      var r := SplitOn(s, c);
      assert r[0] == s[..i] && r[1..] == rest;
      assert s == s[..i] + [c] + s[i + 1..];
    }
  }

  /** Splitting at a first separator after `a`: `a` is the first piece. */
  lemma SplitOnStep(a: string, c: char, b: string)
    requires c !in a
    ensures SplitOn(a + [c] + b, c) == [a] + SplitOn(b, c)
  {
    var s := a + [c] + b;
    assert s[|a|] == c && s[..|a|] == a && s[|a| + 1..] == b;
    IndexOfIs(s, c, |a|);
  }

  /** The first piece ends at the first separator, whatever follows it. */
  lemma SplitOnHead(a: string, c: char, b: string)
    ensures SplitOn(a + [c] + b, c)[0] == SplitOn(a, c)[0]
  {
    if c !in a {
      SplitOnStep(a, c, b);
    } else {
      var s := a + [c] + b;
      assert s[..|a|] == a;
      IndexOfPrefix(s, |a|, c);
      var i := IndexOf(a, c);
      assert s[..i] == a[..i];
    }
  }

  /** Splitting a join of separator-free pieces gives the pieces back. */
  lemma {:induction false} SplitJoin(xs: seq<string>, c: char)
    requires |xs| >= 1
    requires forall i :: 0 <= i < |xs| ==> c !in xs[i]
    ensures SplitOn(Join(xs, c), c) == xs
    decreases |xs|
  {
    if |xs| > 1 {
      SplitJoin(xs[1..], c);
      SplitOnStep(xs[0], c, Join(xs[1..], c));
      assert xs == [xs[0]] + xs[1..];
    }
  }

  /** Number of leading whitespace characters. */
  function LeadingSpace(s: string): (n: nat)
    ensures n <= |s| && AllSpace(s[..n])
    ensures n < |s| ==> !IsSpace(s[n])
  {
    if |s| == 0 || !IsSpace(s[0]) then 0
    else
      var m := LeadingSpace(s[1..]);
      assert s[..m + 1] == [s[0]] + s[1..][..m];
      m + 1
  }

  /** Number of trailing whitespace characters. */
  function TrailingSpace(s: string): (n: nat)
    ensures n <= |s| && AllSpace(s[|s| - n..])
    ensures n < |s| ==> !IsSpace(s[|s| - n - 1])
  {
    if |s| == 0 || !IsSpace(s[|s| - 1]) then 0
    else
      var m := TrailingSpace(s[..|s| - 1]);
      TrailingStep(s, m);
      m + 1
  }

  /** A whitespace character after `m` trailing ones makes `m + 1`. */
  lemma TrailingStep(s: string, m: nat)
    requires |s| > 0 && IsSpace(s[|s| - 1]) && m <= |s| - 1
    requires AllSpace(s[..|s| - 1][|s| - 1 - m..])
    ensures AllSpace(s[|s| - (m + 1)..])
  {
    assert s[|s| - (m + 1)..] == s[..|s| - 1][|s| - 1 - m..] + [s[|s| - 1]];
  }

  /** `s.strip()`: the unique middle part of `s` that neither starts nor
      ends with whitespace and has only whitespace around it. */
  function Strip(s: string): (r: string)
    ensures |r| > 0 ==> !IsSpace(r[0]) && !IsSpace(r[|r| - 1])
    ensures exists i :: 0 <= i <= |s| - |r| && s[i..i + |r|] == r && AllSpace(s[..i]) && AllSpace(s[i + |r|..])
  {
    var i := LeadingSpace(s);
    var t := s[i..];
    var j := |t| - TrailingSpace(t);
    assert AllSpace(s[i + j..]) by {
      assert s[i + j..] == t[j..];
    }
    assert s[i..i + j] == t[..j];
    t[..j]
  }

  /** Index of the first occurrence of `p` in `s` at or after `from`. */
  function FindFrom(p: string, s: string, from: nat): (r: Option<nat>)
    ensures r.Some? ==> from <= r.value && OccursAt(p, s, r.value)
    ensures r.Some? ==> forall k :: from <= k < r.value ==> !OccursAt(p, s, k)
    ensures r.None? ==> forall k :: from <= k ==> !OccursAt(p, s, k)
    decreases |s| - from
  {
    if from + |p| > |s| then None
    else if OccursAt(p, s, from) then Some(from)
    else FindFrom(p, s, from + 1)
  }

  /** `s.split(sep)[-1]`: what follows the last separator (all of `s` when
      there is none); the separators are found left to right without
      overlapping. */
  function SplitLast(s: string, sep: string): string
    requires |sep| > 0
    decreases |s|
  {
    match FindFrom(sep, s, 0)
    case None => s
    case Some(i) => SplitLast(s[i + |sep|..], sep)
  }

  /** A pattern free of `c` that occurs in none of the pieces does not occur
      in their join. */
  lemma {:induction false} JoinAbsent(p: string, xs: seq<string>, c: char)
    requires c !in p && !IsSubstring(p, "")
    requires forall x :: x in xs ==> !IsSubstring(p, x)
    ensures !IsSubstring(p, Join(xs, c))
  {
    if |xs| > 1 {
      JoinAbsent(p, xs[1..], c);
      AbsentAcross(p, xs[0], c, Join(xs[1..], c));
    }
  }

  /** Leading whitespace followed by a non-space character is exactly the
      whitespace. */
  lemma {:induction false} LeadingSpaceOf(w: string, s: string)
    requires AllSpace(w) && |s| > 0 && !IsSpace(s[0])
    ensures LeadingSpace(w + s) == |w|
  {
    if |w| > 0 {
      LeadingSpaceOf(w[1..], s);
      assert (w + s)[1..] == w[1..] + s;
    }
  }

  /** Stripping whitespace in front of a string with non-space ends gives
      the string. */
  lemma StripAround(w: string, s: string)
    requires AllSpace(w) && |s| > 0 && !IsSpace(s[0]) && !IsSpace(s[|s| - 1])
    ensures Strip(w + s) == s
  {
    LeadingSpaceOf(w, s);
    assert (w + s)[|w|..] == s;
  }

  /** Without a separator, the split ends in the whole string. */
  lemma SplitLastNone(t: string, sep: string)
    requires |sep| > 0 && !IsSubstring(sep, t)
    ensures SplitLast(t, sep) == t
  {
    if FindFrom(sep, t, 0).Some? {
      IsSubstringWitness(sep, t, FindFrom(sep, t, 0).value);
    }
  }

  /** The first occurrence of a separator whose first character occurs in it
      only once, in `x + sep + t`: the one after `x`, or one inside `x`. */
  lemma FirstSeparator(x: string, sep: string, t: string) returns (i: nat)
    requires |sep| > 0 && sep[0] !in sep[1..]
    ensures FindFrom(sep, x + sep + t, 0) == Some(i)
    ensures i == |x| || i + |sep| <= |x|
  {
    var s := x + sep + t;
    assert s[|x|..|x| + |sep|] == sep;
    assert OccursAt(sep, s, |x|);
    i := FindFrom(sep, s, 0).value;
    forall k | 0 < k < |sep|
      ensures sep[k] != sep[0]
    {
      assert sep[k] == sep[1..][k - 1];
    }
    assert s[|x|] == sep[0];
    assert forall k :: i <= k < i + |sep| ==> s[k] == s[i..i + |sep|][k - i];
  }

  /** What follows the last separator: when the separator's first character
      occurs in it only once (so two occurrences cannot overlap) and the
      separator does not occur in `t`, splitting `x + sep + t` ends in `t`. */
  lemma DropBefore(x: string, sep: string, t: string, n: nat)
    requires n <= |x|
    ensures (x + sep + t)[n..] == x[n..] + sep + t
  {
  }

  lemma {:induction false} SplitLastAfter(x: string, sep: string, t: string)
    requires |sep| > 0 && sep[0] !in sep[1..] && !IsSubstring(sep, t)
    ensures SplitLast(x + sep + t, sep) == t
    decreases |x|
  {
    var s := x + sep + t;
    var i := FirstSeparator(x, sep, t);
    assert SplitLast(s, sep) == SplitLast(s[i + |sep|..], sep);
    if i == |x| {
      assert s[i + |sep|..] == t;
      SplitLastNone(t, sep);
    } else {
      DropBefore(x, sep, t, i + |sep|);
      SplitLastAfter(x[i + |sep|..], sep, t);
    }
  }

  /** Every piece of `s.split(c)` is a piece of `s`. */
  lemma {:induction false} SplitOnInText(s: string, c: char)
    ensures forall x :: x in SplitOn(s, c) ==> IsSubstring(x, s)
    decreases |s|
  {
    if c !in s {
      IsSubstringWitness(s, s, 0);
    } else {
      var i := IndexOf(s, c);
      var rest := s[i + 1..];
      SplitOnInText(rest, c);
      IsSubstringWitness(s[..i], s, 0);
      IsSubstringWitness(rest, s, i + 1);
      forall x | x in SplitOn(rest, c)
        ensures IsSubstring(x, s)
      {
        IsSubstringTrans(x, rest, s);
      }
    }
  }

  /** Where the stripped string starts in the string. */
  lemma StripOffset(s: string) returns (i: nat)
    ensures i + |Strip(s)| <= |s| && s[i..i + |Strip(s)|] == Strip(s)
    ensures AllSpace(s[..i]) && AllSpace(s[i + |Strip(s)|..])
  {
    i := LeadingSpace(s);
    var t := s[i..];
    var j := |t| - TrailingSpace(t);
    assert Strip(s) == t[..j];
    assert s[i + j..] == t[j..];
    assert s[i..i + j] == t[..j];
  }

  /** The stripped string is a piece of the string. */
  lemma StripInText(s: string)
    ensures IsSubstring(Strip(s), s)
  {
    var i := StripOffset(s);
    IsSubstringWitness(Strip(s), s, i);
  }

  /** An occurrence of a pattern without whitespace lies inside the part
      that whitespace surrounds. */
  lemma OccursInside(p: string, s: string, r: string, i: nat, k: nat)
    requires |p| > 0 && forall j :: 0 <= j < |p| ==> !IsSpace(p[j])
    requires i + |r| <= |s| && s[i..i + |r|] == r && AllSpace(s[..i]) && AllSpace(s[i + |r|..])
    requires OccursAt(p, s, k)
    ensures i <= k && k + |p| <= i + |r|
    ensures IsSubstring(p, r)
  {
    var m := |r|;
    forall j | 0 <= j < i
      ensures IsSpace(s[j])
    {
      assert s[..i][j] == s[j];
    }
    forall j | i + m <= j < |s|
      ensures IsSpace(s[j])
    {
      assert s[i + m..][j - i - m] == s[j];
    }
    var e := k + |p| - 1;
    assert s[k] == s[k..k + |p|][0] == p[0];
    assert s[e] == s[k..k + |p|][|p| - 1] == p[|p| - 1];
    assert i <= k && e < i + m;
    forall j | 0 <= j < |p|
      ensures r[k - i..k - i + |p|][j] == p[j]
    {
      assert p[j] == s[k..k + |p|][j];
      assert r[k - i + j] == s[i..i + m][k - i + j];
    }
    IsSubstringWitness(p, r, k - i);
  }

  /** Stripping keeps every occurrence of a pattern without whitespace. */
  lemma StripKeeps(p: string, s: string)
    requires |p| > 0 && forall j :: 0 <= j < |p| ==> !IsSpace(p[j])
    requires IsSubstring(p, s)
    ensures IsSubstring(p, Strip(s))
  {
    var r := Strip(s);
    var i := StripOffset(s);
    var k :| 0 <= k <= |s| - |p| && OccursAt(p, s, k);
    OccursInside(p, s, r, i, k);
  }
}
