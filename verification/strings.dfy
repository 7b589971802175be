/** Python `str` operations the core relies on, over `seq<char>`: ASCII case
    mapping, whitespace and word characters, the `in` operator, `str.count`
    and the ordering `<=` of strings. */
module Strings {

  predicate IsUpperAscii(c: char) { 'A' <= c <= 'Z' }

  predicate IsLowerAscii(c: char) { 'a' <= c <= 'z' }

  predicate IsDigit(c: char) { '0' <= c <= '9' }

  function DigitValue(c: char): int
    requires IsDigit(c)
  {
    c as int - '0' as int
  }

  /** `\w` restricted to ASCII: letters, digits and the underscore. */
  predicate IsWordChar(c: char)
  {
    IsUpperAscii(c) || IsLowerAscii(c) || IsDigit(c) || c == '_'
  }

  /** The characters for which Python's `str.isspace` holds (and which `\s`,
      `str.split()` and `str.strip()` treat as whitespace). */
  predicate IsSpace(c: char)
  {
    || c == ' ' || '\t' <= c <= '\r' || '\U{1C}' <= c <= '\U{1F}'
    || c == '\U{85}' || c == '\U{A0}' || c == '\U{1680}'
    || '\U{2000}' <= c <= '\U{200A}' || c == '\U{2028}' || c == '\U{2029}'
    || c == '\U{202F}' || c == '\U{205F}' || c == '\U{3000}'
  }

  predicate AllSpace(s: string)
  {
    forall i :: 0 <= i < |s| ==> IsSpace(s[i])
  }

  function LowerChar(c: char): char
  {
    if IsUpperAscii(c) then (c as int + 32) as char else c
  }

  function UpperChar(c: char): char
  {
    if IsLowerAscii(c) then (c as int - 32) as char else c
  }

  /** `s.lower()` on ASCII letters. */
  function Lower(s: string): string
  {
    seq(|s|, i requires 0 <= i < |s| => LowerChar(s[i]))
  }

  /** `s.upper()` on ASCII letters. */
  function Upper(s: string): string
  {
    seq(|s|, i requires 0 <= i < |s| => UpperChar(s[i]))
  }

  /** `p` occurs in `s` starting at index `i`. */
  predicate OccursAt(p: string, s: string, i: nat)
  {
    i + |p| <= |s| && s[i..i + |p|] == p
  }

  /** Python's `p in s`. */
  predicate IsSubstring(p: string, s: string)
  {
    exists i :: 0 <= i <= |s| - |p| && OccursAt(p, s, i)
  }

  /** `t.lower() in s.lower()`: `t` occurs in `s` ignoring ASCII case. */
  predicate ContainsCI(s: string, t: string)
  {
    IsSubstring(Lower(t), Lower(s))
  }

  lemma LowerSlice(s: string, i: nat, j: nat)
    requires i <= j <= |s|
    ensures Lower(s[i..j]) == Lower(s)[i..j]
  {
  }

  /** Case mapping commutes with taking a slice of a slice. */
  lemma LowerSubSlice(text: string, p: nat, q: nat, a: nat, b: nat)
    requires p <= q <= |text| && a <= b <= q - p
    ensures Lower(text[p..q])[a..b] == Lower(text)[p + a..p + b]
  {
    var e := text[p..q];
    forall i | a <= i < b
      ensures Lower(e)[i] == Lower(text)[p + i]
    {
      assert e[i] == text[p + i];
    }
  }

  lemma IsSubstringWitness(p: string, s: string, i: nat)
    requires OccursAt(p, s, i)
    ensures IsSubstring(p, s)
  {
  }

  /** A substring of a substring is a substring. */
  lemma {:induction false} IsSubstringTrans(p: string, q: string, s: string)
    requires IsSubstring(p, q) && IsSubstring(q, s)
    ensures IsSubstring(p, s)
  {
    var i :| 0 <= i <= |q| - |p| && OccursAt(p, q, i);
    var j :| 0 <= j <= |s| - |q| && OccursAt(q, s, j);
    forall k | 0 <= k < |p|
      ensures s[j + i + k] == p[k]
    {
      assert p[k] == q[i + k];
      assert q[i + k] == s[j..j + |q|][i + k];
    }
    assert s[j + i..j + i + |p|] == p;
    IsSubstringWitness(p, s, j + i);
  }

  /** Python's `s.count(p)`: non-overlapping occurrences counted left to
      right; the empty string occurs `|s| + 1` times. */
  function Count(s: string, p: string): nat
    decreases |s|
  {
    if |p| == 0 then |s| + 1
    else if |s| < |p| then 0
    else if s[..|p|] == p then 1 + Count(s[|p|..], p)
    else Count(s[1..], p)
  }

  lemma IsSubstringTail(p: string, s: string)
    requires |s| > 0 && |p| > 0 && !OccursAt(p, s, 0)
    ensures IsSubstring(p, s) <==> IsSubstring(p, s[1..])
  {
    if IsSubstring(p, s) {
      var i :| 0 <= i <= |s| - |p| && OccursAt(p, s, i);
      assert i > 0;
      assert s[1..][i - 1..i - 1 + |p|] == s[i..i + |p|];
      IsSubstringWitness(p, s[1..], i - 1);
    }
    if IsSubstring(p, s[1..]) {
      var i :| 0 <= i <= |s[1..]| - |p| && OccursAt(p, s[1..], i);
      assert s[i + 1..i + 1 + |p|] == s[1..][i..i + |p|];
      IsSubstringWitness(p, s, i + 1);
    }
  }

  /** A non-empty pattern is counted at least once exactly when it occurs. */
  lemma {:induction false} CountPositiveIff(s: string, p: string)
    requires |p| > 0
    ensures Count(s, p) > 0 <==> IsSubstring(p, s)
    decreases |s|
  {
    if |s| < |p| {
    } else if s[..|p|] == p {
      IsSubstringWitness(p, s, 0);
    } else {
      CountPositiveIff(s[1..], p);
      IsSubstringTail(p, s);
    }
  }

  /** Counted occurrences do not overlap: together they fit inside `s`. */
  lemma {:induction false} CountBound(s: string, p: string)
    requires |p| > 0
    ensures Count(s, p) * |p| <= |s|
    decreases |s|
  {
    if |s| < |p| {
    } else if s[..|p|] == p {
      CountBound(s[|p|..], p);
      assert (1 + Count(s[|p|..], p)) * |p| == |p| + Count(s[|p|..], p) * |p|;
    } else {
      CountBound(s[1..], p);
    }
  }

  /** Python's `a <= b` on `str`: lexicographic by code point, a proper
      prefix sorting first. */
  predicate StrLe(a: string, b: string)
    decreases |a|
  {
    |a| == 0 || (|b| > 0 && (a[0] < b[0] || (a[0] == b[0] && StrLe(a[1..], b[1..]))))
  }

  /** Python's `a < b` on `str`. */
  predicate StrLt(a: string, b: string)
  {
    StrLe(a, b) && a != b
  }

  lemma {:induction false} StrLeTotal(a: string, b: string)
    ensures StrLe(a, b) || StrLe(b, a)
    decreases |a|
  {
    if |a| > 0 && |b| > 0 && a[0] == b[0] {
      StrLeTotal(a[1..], b[1..]);
    }
  }

  lemma {:induction false} StrLeReflexive(a: string)
    ensures StrLe(a, a)
    decreases |a|
  {
    if |a| > 0 {
      StrLeReflexive(a[1..]);
    }
  }

  lemma {:induction false} StrLeAntisymmetric(a: string, b: string)
    requires StrLe(a, b) && StrLe(b, a)
    ensures a == b
    decreases |a|
  {
    if |a| > 0 {
      StrLeAntisymmetric(a[1..], b[1..]);
      assert a == [a[0]] + a[1..] && b == [b[0]] + b[1..];
    }
  }

  lemma {:induction false} StrLeTransitive(a: string, b: string, c: string)
    requires StrLe(a, b) && StrLe(b, c)
    ensures StrLe(a, c)
    decreases |a|
  {
    if |a| > 0 && a[0] == b[0] && b[0] == c[0] {
      StrLeTransitive(a[1..], b[1..], c[1..]);
    }
  }

  /** A pattern whose first character does not occur in `s` does not occur
      in `s`. */
  lemma FirstCharAbsent(p: string, s: string)
    requires |p| > 0 && p[0] !in s
    ensures !IsSubstring(p, s)
  {
    forall i | 0 <= i <= |s| - |p|
      ensures !OccursAt(p, s, i)
    {
      assert s[i] in s;
    }
  }

  /** A pattern free of `c` that occurs neither in `a` nor in `b` does not
      occur in `a + [c] + b` either. */
  lemma AbsentAcross(p: string, a: string, c: char, b: string)
    requires c !in p && !IsSubstring(p, a) && !IsSubstring(p, b)
    ensures !IsSubstring(p, a + [c] + b)
  {
    var s := a + [c] + b;
    forall i | 0 <= i <= |s| - |p|
      ensures !OccursAt(p, s, i)
    {
      if i + |p| <= |a| {
        assert s[i..i + |p|] == a[i..i + |p|];
        assert !OccursAt(p, a, i);
      } else if i > |a| {
        assert s[i..i + |p|] == b[i - |a| - 1..i - |a| - 1 + |p|];
        assert !OccursAt(p, b, i - |a| - 1);
      } else {
        assert s[i..i + |p|][|a| - i] == c;
      }
    }
  }

  /** Lower-casing forgets a prior upper-casing. */
  lemma LowerUpper(s: string)
    ensures Lower(Upper(s)) == Lower(s)
  {
  }

  /** What occurs in `s` also occurs in it ignoring case. */
  lemma SubstringIgnoringCase(p: string, s: string)
    requires IsSubstring(p, s)
    ensures ContainsCI(s, p)
  {
    var i :| 0 <= i <= |s| - |p| && OccursAt(p, s, i);
    LowerSlice(s, i, i + |p|);
    IsSubstringWitness(Lower(p), Lower(s), i);
  }
}
