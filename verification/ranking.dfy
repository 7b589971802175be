/** Result scoring of the knowledge-graph search (`rank_results`): every hit
    `(file, snippet)` is scored by how often the query terms occur in its
    snippet, and the hits are listed by descending `(score, file, snippet)`,
    Python's `list.sort(reverse=True)` on those triples. */
module Ranking {

  import opened Seqs
  import opened Strings
  import opened Dicts

  /** A retrieved document: its file name and the excerpt found in it. */
  type Hit = (string, string)

  /** `sum(snippet.lower().count(t.lower()) for t in terms)`. */
  function Score(snippet: string, terms: seq<string>): nat
  {
    if |terms| == 0 then 0
    else Count(Lower(snippet), Lower(terms[0])) + Score(snippet, terms[1..])
  }

  /** A term is counted at least once exactly when it occurs in the snippet,
      ignoring case (an empty term is counted `len + 1` times). */
  lemma CountCI(snippet: string, t: string)
    ensures Count(Lower(snippet), Lower(t)) > 0 <==> ContainsCI(snippet, t)
  {
    if |t| == 0 {
      IsSubstringWitness(Lower(t), Lower(snippet), 0);
    } else {
      CountPositiveIff(Lower(snippet), Lower(t));
    }
  }

  /** Scores add up over a concatenation of term lists, so a term listed
      twice is counted twice. */
  lemma {:induction false} ScoreAppend(snippet: string, a: seq<string>, b: seq<string>)
    ensures Score(snippet, a + b) == Score(snippet, a) + Score(snippet, b)
  {
    if |a| > 0 {
      assert (a + b)[0] == a[0];
      assert (a + b)[1..] == a[1..] + b;
      ScoreAppend(snippet, a[1..], b);
    } else {
      assert a + b == b;
    }
  }

  /** A snippet scores at all exactly when one of the terms occurs in it. */
  lemma {:induction false} ScorePositiveIff(snippet: string, terms: seq<string>)
    ensures Score(snippet, terms) > 0 <==> exists t :: t in terms && ContainsCI(snippet, t)
  {
    if |terms| > 0 {
      CountCI(snippet, terms[0]);
      ScorePositiveIff(snippet, terms[1..]);
      assert forall t :: t in terms <==> t == terms[0] || t in terms[1..];
    }
  }

  /** Python's `(score(a), a.file, a.snippet) >= (score(b), b.file, b.snippet)`:
      tuples compare field by field. */
  predicate AtLeast(a: Hit, b: Hit, terms: seq<string>)
  {
    var sa := Score(a.1, terms);
    var sb := Score(b.1, terms);
    sa > sb || (sa == sb && (StrLt(b.0, a.0) || (a.0 == b.0 && StrLe(b.1, a.1))))
  }

  lemma AtLeastTotal(a: Hit, b: Hit, terms: seq<string>)
    ensures AtLeast(a, b, terms) || AtLeast(b, a, terms)
  {
    StrLeTotal(a.0, b.0);
    StrLeTotal(a.1, b.1);
  }

  lemma AtLeastAntisymmetric(a: Hit, b: Hit, terms: seq<string>)
    requires AtLeast(a, b, terms) && AtLeast(b, a, terms)
    ensures a == b
  {
    if a.0 == b.0 {
      StrLeAntisymmetric(a.1, b.1);
    } else {
      StrLeAntisymmetric(a.0, b.0);
    }
  }

  lemma AtLeastTransitive(a: Hit, b: Hit, c: Hit, terms: seq<string>)
    requires AtLeast(a, b, terms) && AtLeast(b, c, terms)
    ensures AtLeast(a, c, terms)
  {
    if Score(a.1, terms) == Score(c.1, terms) {
      StrLeReflexive(a.0);
      StrLeReflexive(b.0);
      StrLeTransitive(c.0, b.0, a.0);
      if c.0 == a.0 {
        StrLeAntisymmetric(a.0, b.0);
        StrLeTransitive(c.1, b.1, a.1);
      }
    }
  }

  /** Every hit ranks at least as high as every later one. */
  predicate Ranked(r: seq<Hit>, terms: seq<string>)
  {
    forall i, j :: 0 <= i < j < |r| ==> AtLeast(r[i], r[j], terms)
  }

  /** Every hit ranks strictly above every later one: a higher score, or the
      same score and a larger name. */
  predicate StrictlyRanked(r: seq<Hit>, terms: seq<string>)
  {
    forall i, j :: 0 <= i < j < |r| ==>
      Score(r[i].1, terms) > Score(r[j].1, terms)
      || (Score(r[i].1, terms) == Score(r[j].1, terms) && StrLt(r[j].0, r[i].0))
  }

  /** Puts `x` before the first hit it ranks at least as high as. */
  function Insert(x: Hit, s: seq<Hit>, terms: seq<string>): seq<Hit>
  {
    if |s| == 0 then [x]
    else if AtLeast(x, s[0], terms) then [x] + s
    else [s[0]] + Insert(x, s[1..], terms)
  }

  /** Inserting adds exactly the one hit. */
  lemma {:induction false} InsertPerm(x: Hit, s: seq<Hit>, terms: seq<string>)
    ensures multiset(Insert(x, s, terms)) == multiset(s) + multiset{x}
  {
    if |s| > 0 && !AtLeast(x, s[0], terms) {
      InsertPerm(x, s[1..], terms);
      assert s == [s[0]] + s[1..];
    }
  }

  /** Inserting into a ranked list keeps it ranked. */
  lemma {:induction false} InsertRanked(x: Hit, s: seq<Hit>, terms: seq<string>)
    requires Ranked(s, terms)
    ensures Ranked(Insert(x, s, terms), terms)
  {
    if |s| > 0 {
      if AtLeast(x, s[0], terms) {
        InsertFront(x, s, terms);
      } else {
        RankedTail(s, terms);
        InsertRanked(x, s[1..], terms);
        InsertPerm(x, s[1..], terms);
        InsertBehind(x, s, Insert(x, s[1..], terms), terms);
      }
    }
  }

  lemma InsertFront(x: Hit, s: seq<Hit>, terms: seq<string>)
    requires Ranked(s, terms) && |s| > 0 && AtLeast(x, s[0], terms)
    ensures Ranked([x] + s, terms)
  {
    forall j | 0 < j < |s|
      ensures AtLeast(x, s[j], terms)
    {
      AtLeastTransitive(x, s[0], s[j], terms);
    }
  }

  lemma InsertBehind(x: Hit, s: seq<Hit>, t: seq<Hit>, terms: seq<string>)
    requires Ranked(s, terms) && |s| > 0 && !AtLeast(x, s[0], terms)
    requires Ranked(t, terms) && multiset(t) == multiset(s[1..]) + multiset{x}
    ensures Ranked([s[0]] + t, terms)
  {
    forall j | 0 <= j < |t|
      ensures AtLeast(s[0], t[j], terms)
    {
      assert t[j] in multiset(t);
      if t[j] == x {
        AtLeastTotal(x, s[0], terms);
      } else {
        assert t[j] in s[1..];
        var k :| 0 <= k < |s[1..]| && s[1..][k] == t[j];
        assert s[k + 1] == t[j];
      }
    }
  }

  /** Insertion sort into ranking order. */
  function Sort(s: seq<Hit>, terms: seq<string>): seq<Hit>
  {
    if |s| == 0 then [] else Insert(s[0], Sort(s[1..], terms), terms)
  }

  /** Sorting keeps exactly the hits it is given. */
  lemma {:induction false} SortPerm(s: seq<Hit>, terms: seq<string>)
    ensures multiset(Sort(s, terms)) == multiset(s)
  {
    if |s| > 0 {
      SortPerm(s[1..], terms);
      InsertPerm(s[0], Sort(s[1..], terms), terms);
      assert s == [s[0]] + s[1..];
    }
  }

  /** Sorting ranks the hits. */
  lemma {:induction false} SortRanked(s: seq<Hit>, terms: seq<string>)
    ensures Ranked(Sort(s, terms), terms)
  {
    if |s| > 0 {
      SortRanked(s[1..], terms);
      InsertRanked(s[0], Sort(s[1..], terms), terms);
    }
  }

  /** A ranking is determined by the hits it ranks: two ranked orders of the
      same hits are the same list. */
  lemma {:induction false} RankedUnique(a: seq<Hit>, b: seq<Hit>, terms: seq<string>)
    requires Ranked(a, terms) && Ranked(b, terms) && multiset(a) == multiset(b)
    ensures a == b
    decreases |a|
  {
    if |a| == 0 {
      assert |multiset(b)| == 0;
    } else {
      assert |b| == |multiset(b)| == |multiset(a)| == |a|;
      RankedTails(a, b, terms);
      RankedUnique(a[1..], b[1..], terms);
      SameHeadSameTail(a, b);
    }
  }

  /** Past an equal head, two ranked orders of the same hits are again two
      ranked orders of the same hits. */
  lemma RankedTails(a: seq<Hit>, b: seq<Hit>, terms: seq<string>)
    requires Ranked(a, terms) && Ranked(b, terms) && multiset(a) == multiset(b)
    requires |a| > 0 && |b| > 0
    ensures a[0] == b[0] && |a[1..]| < |a|
    ensures Ranked(a[1..], terms) && Ranked(b[1..], terms) && multiset(a[1..]) == multiset(b[1..])
  {
    SameHead(a, b, terms);
    MultisetTail(a);
    MultisetTail(b);
    RankedTail(a, terms);
    RankedTail(b, terms);
  }

  lemma SameHeadSameTail(a: seq<Hit>, b: seq<Hit>)
    requires |a| > 0 && |b| > 0 && a[0] == b[0] && a[1..] == b[1..]
    ensures a == b
  {
    assert a == [a[0]] + a[1..] && b == [b[0]] + b[1..];
  }

  /** Two ranked orders of the same hits start with the same hit. */
  lemma SameHead(a: seq<Hit>, b: seq<Hit>, terms: seq<string>)
    requires Ranked(a, terms) && Ranked(b, terms) && multiset(a) == multiset(b)
    requires |a| > 0 && |b| > 0
    ensures a[0] == b[0]
  {
    assert a[0] in multiset(b) && b[0] in multiset(a);
    var i :| 0 <= i < |a| && a[i] == b[0];
    var j :| 0 <= j < |b| && b[j] == a[0];
    if i != 0 && j != 0 {
      AtLeastAntisymmetric(a[0], b[0], terms);
    }
  }

  lemma MultisetTail(a: seq<Hit>)
    requires |a| > 0
    ensures multiset(a[1..]) == multiset(a) - multiset{a[0]}
  {
    assert a == [a[0]] + a[1..];
  }

  lemma RankedTail(a: seq<Hit>, terms: seq<string>)
    requires Ranked(a, terms) && |a| > 0
    ensures Ranked(a[1..], terms)
  {
    forall i, j | 0 <= i < j < |a[1..]|
      ensures AtLeast(a[1..][i], a[1..][j], terms)
    {
      assert a[1..][i] == a[i + 1] && a[1..][j] == a[j + 1];
    }
  }

  /** Every key of `t` is a key of `u` when every pair of `t` is in `u`. */
  lemma KeysWithin(t: seq<Hit>, u: seq<Hit>)
    requires forall y :: y in t ==> y in u
    ensures forall k :: k in Keys(t) ==> k in Keys(u)
  {
    forall k | k in Keys(t)
      ensures k in Keys(u)
    {
      var i :| 0 <= i < |t| && Keys(t)[i] == k;
      assert t[i] in u;
      var j :| 0 <= j < |u| && u[j] == t[i];
      assert Keys(u)[j] == k;
    }
  }

  /** Sorting hits with distinct file names keeps the names distinct. */
  lemma {:induction false} SortKeepsKeysDistinct(s: seq<Hit>, terms: seq<string>)
    requires Distinct(Keys(s))
    ensures Distinct(Keys(Sort(s, terms)))
    decreases |s|
  {
    if |s| > 0 {
      var rest := Sort(s[1..], terms);
      KeysTail(s);
      SortKeepsKeysDistinct(s[1..], terms);
      SortPerm(s[1..], terms);
      SameMembers(rest, s[1..]);
      KeysWithin(rest, s[1..]);
      InsertKeepsKeysDistinct(s[0], rest, terms);
    }
  }

  lemma {:induction false} InsertKeepsKeysDistinct(x: Hit, s: seq<Hit>, terms: seq<string>)
    requires Distinct(Keys(s)) && x.0 !in Keys(s)
    ensures Distinct(Keys(Insert(x, s, terms)))
    decreases |s|
  {
    if |s| > 0 && !AtLeast(x, s[0], terms) {
      KeysTail(s);
      InsertKeepsKeysDistinct(x, s[1..], terms);
      InsertKeys(x, s[1..], terms);
      assert s[0].0 == Keys(s)[0];
      KeysCons(s[0], Insert(x, s[1..], terms));
    } else if |s| > 0 {
      KeysCons(x, s);
    }
  }

  /** Dropping the first pair of a dict leaves a dict without its key. */
  lemma KeysTail(s: seq<Hit>)
    requires |s| > 0 && Distinct(Keys(s))
    ensures Distinct(Keys(s[1..])) && s[0].0 !in Keys(s[1..])
    ensures forall k :: k in Keys(s[1..]) ==> k in Keys(s)
  {
    assert Keys(s[1..]) == Keys(s)[1..];
    assert Keys(s)[0] == s[0].0;
    forall k | k in Keys(s[1..])
      ensures k in Keys(s)
    {
      var i :| 0 <= i < |Keys(s[1..])| && Keys(s[1..])[i] == k;
      assert Keys(s)[i + 1] == k;
    }
  }

  /** Inserting adds only the key of the inserted hit. */
  lemma InsertKeys(x: Hit, s: seq<Hit>, terms: seq<string>)
    ensures forall k :: k in Keys(Insert(x, s, terms)) ==> k == x.0 || k in Keys(s)
  {
    var t := Insert(x, s, terms);
    var u := [x] + s;
    InsertPerm(x, s, terms);
    assert multiset(t) == multiset(u);
    SameMembers(t, u);
    KeysWithin(t, u);
    assert Keys(u) == [x.0] + Keys(s);
  }

  /** Sequences with the same multiset have the same members. */
  lemma SameMembers(t: seq<Hit>, u: seq<Hit>)
    requires multiset(t) == multiset(u)
    ensures forall y :: y in t ==> y in u
  {
    forall y | y in t
      ensures y in u
    {
      assert y in multiset(t);
    }
  }

  /** Putting a pair with a new key in front keeps the keys distinct. */
  lemma KeysCons(x: Hit, t: seq<Hit>)
    requires Distinct(Keys(t)) && x.0 !in Keys(t)
    ensures Distinct(Keys([x] + t))
  {
    assert Keys([x] + t) == [x.0] + Keys(t);
  }

  /** With distinct file names, a ranked order never falls back on the
      snippet. */
  lemma RankedStrictly(r: seq<Hit>, terms: seq<string>)
    requires Ranked(r, terms) && Distinct(Keys(r))
    ensures StrictlyRanked(r, terms)
  {
    forall i, j | 0 <= i < j < |r|
      ensures Score(r[i].1, terms) > Score(r[j].1, terms)
              || (Score(r[i].1, terms) == Score(r[j].1, terms) && StrLt(r[j].0, r[i].0))
    {
      assert AtLeast(r[i], r[j], terms);
      assert r[i].0 == Keys(r)[i] != Keys(r)[j] == r[j].0;
    }
  }

  /** `rank_results(hits, terms)`: the hits, each once, by descending score;
      equal scores by descending file name (the names of a dict are distinct,
      so the snippet never decides). */
  function RankResults(hits: Dict<string, string>, terms: seq<string>): (r: Dict<string, string>)
    ensures multiset(r) == multiset(hits) && |r| == |hits|
    ensures StrictlyRanked(r, terms)
  {
    SortKeepsKeysDistinct(hits, terms);
    SortPerm(hits, terms);
    SortRanked(hits, terms);
    var r := Sort(hits, terms);
    assert |r| == |multiset(r)| == |multiset(hits)| == |hits|;
    RankedStrictly(r, terms);
    r
  }

  /** The ranking does not depend on the order in which hits were found. */
  lemma RankIgnoresHitOrder(h1: Dict<string, string>, h2: Dict<string, string>, terms: seq<string>)
    requires multiset(h1) == multiset(h2)
    ensures RankResults(h1, terms) == RankResults(h2, terms)
  {
    SortPerm(h1, terms);
    SortPerm(h2, terms);
    SortRanked(h1, terms);
    SortRanked(h2, terms);
    RankedUnique(Sort(h1, terms), Sort(h2, terms), terms);
  }
}
