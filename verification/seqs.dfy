/** Sequence helpers shared by every part of the model: distinctness,
    first-occurrence index, flattening, order-preserving de-duplication
    (Python's `list(dict.fromkeys(xs))`) and subsequences. */
module Seqs {

  /** No element occurs twice. */
  predicate Distinct<T(==)>(s: seq<T>)
  {
    forall i, j :: 0 <= i < j < |s| ==> s[i] != s[j]
  }

  /** In a sequence without repetitions the last element is new. */
  lemma DistinctLast<T>(s: seq<T>)
    requires Distinct(s) && |s| > 0
    ensures s[|s| - 1] !in s[..|s| - 1]
  {
    var p := s[..|s| - 1];
    assert forall i :: 0 <= i < |p| ==> p[i] == s[i];
  }

  function Min(a: int, b: int): int
  {
    if a <= b then a else b
  }

  /** Position of the first occurrence of `x` in `s` (Python's `list.index`). */
  function IndexOf<T(==)>(s: seq<T>, x: T): (i: nat)
    requires x in s
    ensures i < |s| && s[i] == x
    ensures x !in s[..i]
  {
    if s[0] == x then 0 else 1 + IndexOf(s[1..], x)
  }

  /** The first occurrence is where the element occurs with none before it. */
  lemma IndexOfIs<T>(s: seq<T>, x: T, i: nat)
    requires i < |s| && s[i] == x && x !in s[..i]
    ensures IndexOf(s, x) == i
  {
  }

  lemma IndexOfPrefix<T>(s: seq<T>, n: nat, x: T)
    requires n <= |s| && x in s[..n]
    ensures x in s && IndexOf(s, x) == IndexOf(s[..n], x)
  {
    var i := IndexOf(s[..n], x);
    assert s[i] == x;
    assert s[..n][..i] == s[..i];
    assert s[i] == x;
  }

  /** All the elements of `xs`, one sequence after the other. */
  function Concat<T>(xs: seq<seq<T>>): seq<T>
  {
    if |xs| == 0 then [] else xs[0] + Concat(xs[1..])
  }

  lemma {:induction false} ConcatAppend<T>(xs: seq<seq<T>>, ys: seq<seq<T>>)
    ensures Concat(xs + ys) == Concat(xs) + Concat(ys)
  {
    if |xs| > 0 {
      assert (xs + ys)[0] == xs[0];
      assert (xs + ys)[1..] == xs[1..] + ys;
      ConcatAppend(xs[1..], ys);
    } else {
      assert xs + ys == ys;
    }
  }

  /** `a` can be obtained from `b` by deleting elements: `a` keeps `b`'s order. */
  predicate Subseq<T(==)>(a: seq<T>, b: seq<T>)
    decreases |b|
  {
    if |a| == 0 then true
    else if |b| == 0 then false
    else if a[0] == b[0] then Subseq(a[1..], b[1..])
    else Subseq(a, b[1..])
  }

  lemma {:induction false} SubseqMembers<T>(a: seq<T>, b: seq<T>)
    requires Subseq(a, b)
    ensures forall x :: x in a ==> x in b
    decreases |b|
  {
    if |a| > 0 && |b| > 0 {
      if a[0] == b[0] {
        SubseqMembers(a[1..], b[1..]);
        assert forall x :: x in a ==> x == a[0] || x in a[1..];
      } else {
        SubseqMembers(a, b[1..]);
      }
    }
  }

  /** A new element in front keeps a sequence free of repetitions. */
  lemma DistinctCons<T>(x: T, s: seq<T>)
    requires Distinct(s) && x !in s
    ensures Distinct([x] + s)
  {
    var t := [x] + s;
    assert forall i :: 0 < i < |t| ==> t[i] == s[i - 1];
  }

  /** Deleting elements keeps a sequence free of repetitions. */
  lemma {:induction false} SubseqDistinct<T>(a: seq<T>, b: seq<T>)
    requires Subseq(a, b) && Distinct(b)
    ensures Distinct(a)
    decreases |b|
  {
    if |a| > 0 && |b| > 0 {
      assert forall i :: 0 <= i < |b| - 1 ==> b[1..][i] == b[i + 1];
      if a[0] == b[0] {
        SubseqDistinct(a[1..], b[1..]);
        SubseqMembers(a[1..], b[1..]);
        assert b[0] !in b[1..];
        DistinctCons(a[0], a[1..]);
        assert a == [a[0]] + a[1..];
      } else {
        SubseqDistinct(a, b[1..]);
      }
    }
  }

  /** An element appended to the longer sequence only: still a subsequence. */
  lemma {:induction false} SubseqSnocRight<T>(a: seq<T>, b: seq<T>, x: T)
    requires Subseq(a, b)
    ensures Subseq(a, b + [x])
    decreases |b|
  {
    if |a| > 0 {
      var c := b + [x];
      assert c[0] == b[0] && c[1..] == b[1..] + [x];
      if a[0] == b[0] {
        SubseqSnocRight(a[1..], b[1..], x);
      } else {
        SubseqSnocRight(a, b[1..], x);
      }
    }
  }

  /** The same element appended to both sequences: still a subsequence. */
  lemma {:induction false} SubseqSnoc<T>(a: seq<T>, b: seq<T>, x: T)
    requires Subseq(a, b)
    ensures Subseq(a + [x], b + [x])
    decreases |b|
  {
    var c := b + [x];
    if |b| == 0 {
      assert a == [] && a + [x] == c;
      assert c[1..] == [];
    } else if |a| == 0 {
      assert c[0] == b[0] && c[1..] == b[1..] + [x];
      if b[0] == x {
        assert [x][1..] == [];
      } else {
        SubseqSnoc(a, b[1..], x);
        assert a + [x] == [x];
      }
    } else {
      var d := a + [x];
      assert c[0] == b[0] && c[1..] == b[1..] + [x];
      assert d[0] == a[0] && d[1..] == a[1..] + [x];
      if a[0] == b[0] {
        SubseqSnoc(a[1..], b[1..], x);
      } else {
        SubseqSnoc(a, b[1..], x);
      }
    }
  }

  /** Order-preserving de-duplication: the first occurrence of every element,
      in the order of first occurrence (Python's `list(dict.fromkeys(s))`). */
  function Dedup<T(==,!new)>(s: seq<T>): (r: seq<T>)
    ensures Distinct(r)
    ensures forall x :: x in r <==> x in s
    ensures |r| <= |s|
    decreases |s|
  {
    if |s| == 0 then []
    else
      var p := Dedup(s[..|s| - 1]);
      var x := s[|s| - 1];
      assert forall y :: y in s <==> y in s[..|s| - 1] || y == x;
      if x in p then p else p + [x]
  }

  /** De-duplicating one more element appends it exactly when it is new. */
  lemma DedupSnoc<T(!new)>(s: seq<T>, x: T)
    ensures Dedup(s + [x]) == if x in Dedup(s) then Dedup(s) else Dedup(s) + [x]
  {
    assert (s + [x])[..|s|] == s;
  }

  /** Appending elements never disturbs what the de-duplication of the
      shorter sequence already produced: it stays a prefix. */
  lemma {:induction false} DedupPrefix<T(!new)>(a: seq<T>, b: seq<T>)
    ensures Dedup(a) <= Dedup(a + b)
    decreases |b|
  {
    if |b| > 0 {
      var c := a + b;
      assert c[..|c| - 1] == a + b[..|b| - 1];
      DedupPrefix(a, b[..|b| - 1]);
    } else {
      assert a + b == a;
    }
  }

  /** A sequence without repetitions is its own de-duplication. */
  lemma {:induction false} DedupDistinct<T(!new)>(s: seq<T>)
    requires Distinct(s)
    ensures Dedup(s) == s
    decreases |s|
  {
    if |s| > 0 {
      var p := s[..|s| - 1];
      assert Distinct(p);
      DedupDistinct(p);
      assert s[|s| - 1] !in p;
      assert p + [s[|s| - 1]] == s;
    }
  }

  /** The elements of `d` appear in `s`, in the order of their first
      occurrences there. */
  predicate InFirstOccurrenceOrder<T(==)>(d: seq<T>, s: seq<T>)
  {
    forall i, j :: 0 <= i < j < |d| ==>
      d[i] in s && d[j] in s && IndexOf(s, d[i]) < IndexOf(s, d[j])
  }

  /** One pair of positions in the inductive step of the lemma below. */
  lemma DedupOrderPair<T(!new)>(s: seq<T>, i: nat, j: nat)
    requires |s| > 0 && InFirstOccurrenceOrder(Dedup(s[..|s| - 1]), s[..|s| - 1])
    requires i < j < |Dedup(s)|
    ensures Dedup(s)[i] in s && Dedup(s)[j] in s
    ensures IndexOf(s, Dedup(s)[i]) < IndexOf(s, Dedup(s)[j])
  {
    var p := s[..|s| - 1];
    var dp := Dedup(p);
    DedupStep(s);
    if j < |dp| {
      assert dp[i] in p && dp[j] in p && IndexOf(p, dp[i]) < IndexOf(p, dp[j]);
      OldPairOrder(s, dp[i], dp[j]);
    } else {
      NewLastOrder(s, dp[i]);
    }
  }

  lemma OldPairOrder<T>(s: seq<T>, a: T, b: T)
    requires |s| > 0 && a in s[..|s| - 1] && b in s[..|s| - 1]
    requires IndexOf(s[..|s| - 1], a) < IndexOf(s[..|s| - 1], b)
    ensures a in s && b in s && IndexOf(s, a) < IndexOf(s, b)
  {
    var n := |s| - 1;
    IndexOfPrefix(s, n, a);
    IndexOfPrefix(s, n, b);
  }

  lemma NewLastOrder<T>(s: seq<T>, a: T)
    requires |s| > 0 && a in s[..|s| - 1] && s[|s| - 1] !in s[..|s| - 1]
    ensures a in s && IndexOf(s, a) < IndexOf(s, s[|s| - 1])
  {
    var n := |s| - 1;
    IndexOfPrefix(s, n, a);
    assert IndexOf(s[..n], a) < n;
    IndexOfIs(s, s[n], n);
  }

  /** The last element of the input extends the de-duplication of the rest
      exactly when it is new. */
  lemma DedupStep<T(!new)>(s: seq<T>)
    requires |s| > 0
    ensures s[|s| - 1] in Dedup(s[..|s| - 1]) ==> Dedup(s) == Dedup(s[..|s| - 1])
    ensures s[|s| - 1] !in Dedup(s[..|s| - 1]) ==>
              s[|s| - 1] !in s[..|s| - 1] && Dedup(s) == Dedup(s[..|s| - 1]) + [s[|s| - 1]]
  {
  }

  /** The de-duplication lists elements in the order of their first
      occurrence in the input. */
  lemma {:induction false} DedupFirstOccurrenceOrder<T(!new)>(s: seq<T>)
    ensures InFirstOccurrenceOrder(Dedup(s), s)
    decreases |s|
  {
    if |s| > 0 {
      DedupFirstOccurrenceOrder(s[..|s| - 1]);
      forall i, j | 0 <= i < j < |Dedup(s)|
        ensures Dedup(s)[i] in s && Dedup(s)[j] in s && IndexOf(s, Dedup(s)[i]) < IndexOf(s, Dedup(s)[j])
      {
        DedupOrderPair(s, i, j);
      }
    }
  }

  /** The first `n` elements, or all of them when there are fewer (`s[:n]`). */
  function Take<T>(s: seq<T>, n: nat): (r: seq<T>)
    ensures |r| == Min(n, |s|) && r <= s
  {
    if |s| <= n then s else s[..n]
  }

  /** A prefix of a subsequence is a subsequence. */
  lemma {:induction false} SubseqTake<T>(a: seq<T>, b: seq<T>, n: nat)
    requires Subseq(a, b) && n <= |a|
    ensures Subseq(a[..n], b)
    decreases |b|
  {
    if n > 0 && |b| > 0 {
      if a[0] == b[0] {
        SubseqTake(a[1..], b[1..], n - 1);
        assert a[..n][1..] == a[1..][..n - 1];
      } else {
        SubseqTake(a, b[1..], n);
      }
    }
  }
}
