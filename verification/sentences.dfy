/** The sentence splitter `re.split(r'(?<=[.!?])\s+', text)`: the text is cut
    at every maximal whitespace run that directly follows a full stop, an
    exclamation mark or a question mark, and the runs themselves are dropped. */
module Sentences {

  import opened Wrappers
  import opened Strings
  import opened Lines

  predicate IsTerminator(c: char)
  {
    c == '.' || c == '!' || c == '?'
  }

  /** The pattern can match at `i`: whitespace right after a terminator. */
  predicate BreaksAt(s: string, i: int)
  {
    0 < i < |s| && IsTerminator(s[i - 1]) && IsSpace(s[i])
  }

  /** The leftmost position at or after `from` where the pattern matches. */
  function FirstBreak(s: string, from: nat): (r: Option<nat>)
    ensures r.Some? ==> from <= r.value && BreaksAt(s, r.value)
    ensures r.Some? ==> forall k :: from <= k < r.value ==> !BreaksAt(s, k)
    ensures r.None? ==> forall k :: from <= k ==> !BreaksAt(s, k)
    decreases |s| - from
  {
    if from >= |s| then None
    else if BreaksAt(s, from) then Some(from)
    else FirstBreak(s, from + 1)
  }

  /** The pieces `re.split` returns: always at least one. */
  function SplitSentences(s: string): seq<string>
    decreases |s|
  {
    match FirstBreak(s, 1)
    case None => [s]
    case Some(i) =>
      var n := LeadingSpace(s[i..]);
      [s[..i]] + SplitSentences(s[i + n..])
  }

  /** The whitespace runs the split removes, in order. */
  function Gaps(s: string): seq<string>
    decreases |s|
  {
    match FirstBreak(s, 1)
    case None => []
    case Some(i) =>
      var n := LeadingSpace(s[i..]);
      [s[i..i + n]] + Gaps(s[i + n..])
  }

  /** The pieces with the gaps put back between them. */
  function Interleave(pieces: seq<string>, gaps: seq<string>): string
    requires |pieces| == |gaps| + 1
  {
    if |gaps| == 0 then pieces[0]
    else pieces[0] + gaps[0] + Interleave(pieces[1..], gaps[1..])
  }

  lemma ThreeParts(s: string, i: nat, j: nat)
    requires i <= j <= |s|
    ensures s[..i] + s[i..j] + s[j..] == s
  {
  }

  lemma InterleaveCons(h: string, t: seq<string>, g: string, gs: seq<string>)
    requires |t| == |gs| + 1
    ensures Interleave([h] + t, [g] + gs) == h + g + Interleave(t, gs)
  {
    assert ([h] + t)[1..] == t && ([g] + gs)[1..] == gs;
  }

  /** Nothing is lost: the sentences and the removed whitespace, interleaved,
      give back the text. */
  lemma {:induction false} SentencesRoundTrip(s: string)
    ensures |SplitSentences(s)| == |Gaps(s)| + 1
    ensures Interleave(SplitSentences(s), Gaps(s)) == s
    decreases |s|
  {
    match FirstBreak(s, 1)
    case None =>
    case Some(i) =>
      SplitStep(s, i);
      var n := LeadingSpace(s[i..]);
      var rest := s[i + n..];
      SentencesRoundTrip(rest);
      InterleaveCons(s[..i], SplitSentences(rest), s[i..i + n], Gaps(rest));
      ThreeParts(s, i, i + n);
  }

  /** One step of the split at the first match `i`: the first sentence is
      everything before it, the first gap the whitespace run starting there,
      and the rest is the split of what follows the run. */
  lemma SplitStep(s: string, i: nat)
    requires FirstBreak(s, 1) == Some(i)
    ensures LeadingSpace(s[i..]) > 0
    ensures var rest := s[i + LeadingSpace(s[i..])..];
      && SplitSentences(s) == [s[..i]] + SplitSentences(rest)
      && Gaps(s) == [s[i..i + LeadingSpace(s[i..])]] + Gaps(rest)
      && (|rest| > 0 ==> !IsSpace(rest[0]))
  {
    var t := s[i..];
    assert IsSpace(t[0]);
    assert LeadingSpace(t) == LeadingSpace(t[1..]) + 1;
    SentencesStep(s, i);
    GapsStep(s, i);
    RestAfterRun(s, i, LeadingSpace(t));
  }

  lemma NoBreakStep(s: string)
    requires FirstBreak(s, 1).None?
    ensures SplitSentences(s) == [s] && Gaps(s) == []
  {
  }

  lemma PrefixAndSuffixInText(s: string, i: nat, k: nat)
    requires i <= k <= |s|
    ensures IsSubstring(s[..i], s) && IsSubstring(s[k..], s)
  {
    assert s[..i] == s[0..i];
    assert s[k..] == s[k..|s|];
    IsSubstringWitness(s[..i], s, 0);
    IsSubstringWitness(s[k..], s, k);
  }

  lemma SentencesStep(s: string, i: nat)
    requires FirstBreak(s, 1) == Some(i)
    ensures SplitSentences(s) == [s[..i]] + SplitSentences(s[i + LeadingSpace(s[i..])..])
  {
  }

  lemma GapsStep(s: string, i: nat)
    requires FirstBreak(s, 1) == Some(i)
    ensures Gaps(s) == [s[i..i + LeadingSpace(s[i..])]] + Gaps(s[i + LeadingSpace(s[i..])..])
  {
  }

  /** What follows a maximal whitespace run does not start with whitespace. */
  lemma RestAfterRun(s: string, i: nat, n: nat)
    requires i <= |s| && n == LeadingSpace(s[i..])
    ensures |s[i + n..]| > 0 ==> !IsSpace(s[i + n..][0])
  {
    if i + n < |s| {
      assert s[i + n..][0] == s[i..][n];
    }
  }

  /** Every removed gap is a non-empty run of whitespace. */
  lemma {:induction false} GapsAreSpace(s: string)
    ensures forall j :: 0 <= j < |Gaps(s)| ==> |Gaps(s)[j]| > 0 && AllSpace(Gaps(s)[j])
    decreases |s|
  {
    match FirstBreak(s, 1)
    case None =>
    case Some(i) =>
      SplitStep(s, i);
      var n := LeadingSpace(s[i..]);
      GapsAreSpace(s[i + n..]);
      assert s[i..i + n] == s[i..][..n];
  }

  predicate EndWithTerminator(p: seq<string>)
  {
    forall j :: 0 <= j < |p| - 1 ==> |p[j]| > 0 && IsTerminator(p[j][|p[j]| - 1])
  }

  lemma ConsEndWithTerminator(h: string, t: seq<string>)
    requires EndWithTerminator(t) && |t| > 0
    requires |h| > 0 && IsTerminator(h[|h| - 1])
    ensures EndWithTerminator([h] + t)
  {
    var p := [h] + t;
    forall j | 0 < j < |p|
      ensures p[j] == t[j - 1]
    {
    }
  }

  /** Every sentence but the last ends with a terminator. */
  lemma {:induction false} SentencesEndWithTerminator(s: string)
    ensures EndWithTerminator(SplitSentences(s))
    decreases |s|
  {
    match FirstBreak(s, 1)
    case None =>
    case Some(i) =>
      SplitStep(s, i);
      var rest := s[i + LeadingSpace(s[i..])..];
      SentencesEndWithTerminator(rest);
      ConsEndWithTerminator(s[..i], SplitSentences(rest));
  }

  /** The first sentence is a prefix of the text. */
  lemma FirstSentenceIsPrefix(s: string)
    ensures SplitSentences(s)[0] <= s
  {
  }

  predicate StartsOutsideSpace(p: seq<string>)
  {
    forall j :: 0 < j < |p| ==> |p[j]| == 0 || !IsSpace(p[j][0])
  }

  lemma ConsStartsOutsideSpace(h: string, t: seq<string>)
    requires StartsOutsideSpace(t)
    requires |t| > 0 && (|t[0]| == 0 || !IsSpace(t[0][0]))
    ensures StartsOutsideSpace([h] + t)
  {
    var p := [h] + t;
    forall j | 0 < j < |p|
      ensures p[j] == t[j - 1]
    {
    }
  }

  /** No sentence after the first starts with whitespace: the removed runs
      are maximal. */
  lemma {:induction false} SentencesStartOutsideSpace(s: string)
    ensures StartsOutsideSpace(SplitSentences(s))
    decreases |s|
  {
    match FirstBreak(s, 1)
    case None =>
    case Some(i) =>
      SplitStep(s, i);
      var rest := s[i + LeadingSpace(s[i..])..];
      SentencesStartOutsideSpace(rest);
      FirstSentenceIsPrefix(rest);
      var t := SplitSentences(rest);
      assert |t[0]| > 0 ==> t[0][0] == rest[0];
      ConsStartsOutsideSpace(s[..i], t);
  }

  predicate NoBreakInside(p: seq<string>)
  {
    forall j, k :: 0 <= j < |p| && 0 <= k < |p[j]| ==> !BreaksAt(p[j], k)
  }

  lemma ConsNoBreakInside(h: string, t: seq<string>)
    requires NoBreakInside(t)
    requires forall k :: 0 <= k < |h| ==> !BreaksAt(h, k)
    ensures NoBreakInside([h] + t)
  {
    var p := [h] + t;
    forall j | 0 < j < |p|
      ensures p[j] == t[j - 1]
    {
    }
  }

  /** The text before the first match contains no match. */
  lemma BeforeFirstBreak(s: string, i: nat)
    requires FirstBreak(s, 1) == Some(i)
    ensures i <= |s| && forall k :: 0 <= k < i ==> !BreaksAt(s[..i], k)
  {
    forall k | 0 <= k < i
      ensures !BreaksAt(s[..i], k)
    {
      assert !BreaksAt(s, k);
      if 0 < k {
        assert s[..i][k - 1] == s[k - 1] && s[..i][k] == s[k];
      }
    }
  }

  /** No sentence contains a place where the pattern matches. */
  lemma {:induction false} SentencesHaveNoBreak(s: string)
    ensures NoBreakInside(SplitSentences(s))
    decreases |s|
  {
    match FirstBreak(s, 1)
    case None =>
      NoBreakStep(s);
    case Some(i) =>
      SplitStep(s, i);
      var rest := s[i + LeadingSpace(s[i..])..];
      SentencesHaveNoBreak(rest);
      var h := s[..i];
      BeforeFirstBreak(s, i);
      ConsNoBreakInside(h, SplitSentences(rest));
  }

  /** Every sentence is a piece of the text. */
  lemma {:induction false} SentencesInText(s: string)
    ensures forall x :: x in SplitSentences(s) ==> IsSubstring(x, s)
    decreases |s|
  {
    match FirstBreak(s, 1)
    case None =>
      NoBreakStep(s);
      IsSubstringWitness(s, s, 0);
    case Some(i) =>
      SplitStep(s, i);
      var k := i + LeadingSpace(s[i..]);
      var rest := s[k..];
      SentencesInText(rest);
      PrefixAndSuffixInText(s, i, k);
      forall x | x in SplitSentences(rest)
        ensures IsSubstring(x, s)
      {
        IsSubstringTrans(x, rest, s);
      }
  }
}
