/** The excerpt search of the keyword retriever:
    `re.search(fr'.{{0,40}}{re.escape(term)}.{{0,40}}', text, re.I)`.
    The pattern is matched as Python's engine does it: the leftmost start
    position that admits a match wins; at that start the leading `.{0,40}`
    is greedy and backs off one character at a time until the term follows;
    the trailing `.{0,40}` is greedy. `.` matches anything but a newline, and
    the escaped term matches itself ignoring (ASCII) case. */
module RegexWindow {

  import opened Wrappers
  import opened Strings

  /** The `40` of `.{0,40}`, on each side of the term. */
  const Width: nat := 40

  /** The escaped term matches the text at index `j`, ignoring case. */
  predicate MatchesAt(text: string, term: string, j: nat)
  {
    OccursAt(Lower(term), Lower(text), j)
  }

  /** How many characters a greedy `.{0,limit}` consumes from index `p`. */
  function DotRun(text: string, p: nat, limit: nat): nat
    decreases limit
  {
    if limit == 0 || p >= |text| || text[p] == '\n' then 0
    else 1 + DotRun(text, p + 1, limit - 1)
  }

  /** The greedy run stops only at the limit, a newline or the end. */
  lemma {:induction false} DotRunBounds(text: string, p: nat, limit: nat)
    requires p <= |text|
    ensures DotRun(text, p, limit) <= limit && p + DotRun(text, p, limit) <= |text|
    ensures forall i :: p <= i < p + DotRun(text, p, limit) ==> text[i] != '\n'
    decreases limit
  {
    if !(limit == 0 || p >= |text| || text[p] == '\n') {
      DotRunBounds(text, p + 1, limit - 1);
    }
  }

  /** Backtracking of the greedy prefix: the largest `k' <= k` such that the
      term matches at `p + k'`. */
  function BackOff(text: string, term: string, p: nat, k: nat): Option<nat>
    decreases k
  {
    if MatchesAt(text, term, p + k) then Some(k)
    else if k == 0 then None
    else BackOff(text, term, p, k - 1)
  }

  lemma {:induction false} BackOffFound(text: string, term: string, p: nat, k: nat)
    requires BackOff(text, term, p, k).Some?
    ensures BackOff(text, term, p, k).value <= k
    ensures MatchesAt(text, term, p + BackOff(text, term, p, k).value)
    decreases k
  {
    if !MatchesAt(text, term, p + k) && k > 0 {
      BackOffFound(text, term, p, k - 1);
    }
  }

  /** Backing off always reaches an occurrence at the start index itself. */
  lemma {:induction false} BackOffReachesStart(text: string, term: string, p: nat, k: nat)
    requires MatchesAt(text, term, p)
    ensures BackOff(text, term, p, k).Some?
    decreases k
  {
    if !MatchesAt(text, term, p + k) && k > 0 {
      BackOffReachesStart(text, term, p, k - 1);
    }
  }

  /** Where a match lies: it starts at `start`, the leading `.{0,40}` took
      `pre` characters, the term follows, and the trailing `.{0,40}` took
      `post` characters (`m.start()` and `m.end()` of the match object). */
  datatype Span = Span(start: nat, pre: nat, post: nat)

  function SpanEnd(s: Span, term: string): nat
  {
    s.start + s.pre + |term| + s.post
  }

  /** What the pattern demands of a match. */
  predicate IsSpan(text: string, term: string, s: Span)
  {
    && s.pre <= Width && s.post <= Width
    && SpanEnd(s, term) <= |text|
    && MatchesAt(text, term, s.start + s.pre)
    && (forall i :: s.start <= i < s.start + s.pre ==> text[i] != '\n')
    && (forall i :: s.start + s.pre + |term| <= i < SpanEnd(s, term) ==> text[i] != '\n')
  }

  /** The match of the whole pattern anchored at start index `p`, if any. */
  function MatchFrom(text: string, term: string, p: nat): Option<Span>
  {
    match BackOff(text, term, p, DotRun(text, p, Width))
    case None => None
    case Some(k) => Some(Span(p, k, DotRun(text, p + k + |term|, Width)))
  }

  /** `re.search`: try the start indices `p, p + 1, …, |text|` in turn. */
  function SearchFrom(text: string, term: string, p: nat): Option<Span>
    decreases |text| - p
  {
    var m := MatchFrom(text, term, p);
    if m.Some? || p >= |text| then m else SearchFrom(text, term, p + 1)
  }

  lemma MatchFromIsSpan(text: string, term: string, p: nat)
    requires p <= |text| && MatchFrom(text, term, p).Some?
    ensures IsSpan(text, term, MatchFrom(text, term, p).value)
  {
    var m := DotRun(text, p, Width);
    BackOffFound(text, term, p, m);
    DotRunBounds(text, p, Width);
    var k := BackOff(text, term, p, m).value;
    DotRunBounds(text, p + k + |term|, Width);
  }

  lemma {:induction false} SearchFromIsSpan(text: string, term: string, p: nat)
    requires p <= |text| && SearchFrom(text, term, p).Some?
    ensures IsSpan(text, term, SearchFrom(text, term, p).value)
    decreases |text| - p
  {
    if MatchFrom(text, term, p).Some? {
      MatchFromIsSpan(text, term, p);
    } else {
      SearchFromIsSpan(text, term, p + 1);
    }
  }

  /** Where the term occurs, the pattern matches with an empty prefix at worst. */
  lemma MatchFromAtOccurrence(text: string, term: string, j: nat)
    requires MatchesAt(text, term, j)
    ensures j <= |text| && MatchFrom(text, term, j).Some?
  {
    BackOffReachesStart(text, term, j, DotRun(text, j, Width));
  }

  /** A start index that admits a match is found by a search from any
      earlier index. */
  lemma {:induction false} SearchFromFinds(text: string, term: string, p: nat, j: nat)
    requires p <= j <= |text| && MatchFrom(text, term, j).Some?
    ensures SearchFrom(text, term, p).Some?
    decreases j - p
  {
    if p < j {
      SearchFromFinds(text, term, p + 1, j);
    }
  }

  /** A failed search means the term occurs nowhere. */
  lemma NotFoundMeansAbsent(text: string, term: string)
    requires SearchFrom(text, term, 0).None?
    ensures !ContainsCI(text, term)
  {
    if ContainsCI(text, term) {
      var j: int :| 0 <= j <= |Lower(text)| - |Lower(term)| && OccursAt(Lower(term), Lower(text), j);
      MatchFromAtOccurrence(text, term, j);
      SearchFromFinds(text, term, 0, j);
    }
  }

  /** `e` is a window of `text` around the term: `e` is the slice of `text`
      starting at `p`, the term occurs in it (ignoring case) at offset `k`,
      at most `Width` characters precede and follow that occurrence, and
      none of them is a newline. */
  predicate IsWindow(e: string, text: string, term: string, p: nat, k: nat)
  {
    && p + |e| <= |text| && e == text[p..p + |e|]
    && k <= Width && k + |term| <= |e| && |e| - k - |term| <= Width
    && OccursAt(Lower(term), Lower(e), k)
    && (forall i :: 0 <= i < k ==> e[i] != '\n')
    && (forall i :: k + |term| <= i < |e| ==> e[i] != '\n')
  }

  /** The text a span covers (`m.group(0)`) is a window around the term. */
  lemma SpanIsWindow(text: string, term: string, s: Span)
    requires IsSpan(text, term, s)
    ensures IsWindow(text[s.start..SpanEnd(s, term)], text, term, s.start, s.pre)
    ensures ContainsCI(text, term)
  {
    var e := text[s.start..SpanEnd(s, term)];
    LowerSubSlice(text, s.start, SpanEnd(s, term), s.pre, s.pre + |term|);
    assert forall i :: 0 <= i < |e| ==> e[i] == text[s.start + i];
    assert MatchesAt(text, term, s.start + s.pre);
  }

  /** The excerpt for `term` (`m.group(0)`, or nothing when `re.search`
      returns `None`): present exactly when the term occurs in the text
      ignoring case, and then a window of at most `Width` characters on each
      side of an occurrence. */
  function Excerpt(text: string, term: string): (r: Option<string>)
    ensures r.Some? <==> ContainsCI(text, term)
    ensures r.Some? ==> exists p, k :: IsWindow(r.value, text, term, p, k)
  {
    match SearchFrom(text, term, 0)
    case None => NotFoundMeansAbsent(text, term); None
    case Some(s) =>
      SearchFromIsSpan(text, term, 0);
      SpanIsWindow(text, term, s);
      Some(text[s.start..SpanEnd(s, term)])
  }
}
