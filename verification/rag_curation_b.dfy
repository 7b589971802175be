/** The two retrieval steps of the second curation pipeline: the lines that
    mention `CO2` stand in for similar documents, and the watched acronyms
    among the whitespace-separated words of the text are looked up in the
    placeholder knowledge graph. */
module RagCurationB {

  import opened Seqs
  import opened Strings
  import opened Dicts
  import opened Lines
  import opened Tokenize
  import opened KgInterface

  /** The marker a line must contain, with this exact case. */
  const Carbon := "CO2"

  predicate MentionsCarbon(line: string)
  {
    IsSubstring(Carbon, line)
  }

  /** The comprehension `[line.strip() for line in lines if 'CO2' in line]`. */
  function CarbonLines(lines: seq<string>): seq<string>
  {
    if |lines| == 0 then []
    else (if MentionsCarbon(lines[0]) then [Strip(lines[0])] else []) + CarbonLines(lines[1..])
  }

  /** The comprehension keeps exactly the stripped lines that mention the
      marker. */
  lemma {:induction false} CarbonLinesMembers(lines: seq<string>)
    ensures forall x :: x in CarbonLines(lines) <==> exists l :: l in lines && MentionsCarbon(l) && x == Strip(l)
  {
    if |lines| > 0 {
      CarbonLinesMembers(lines[1..]);
      assert forall l :: l in lines <==> l == lines[0] || l in lines[1..];
    }
  }

  /** The comprehension works line by line: the lines of a concatenation
      give the results of the first part, then those of the second. */
  lemma {:induction false} CarbonLinesAppend(a: seq<string>, b: seq<string>)
    ensures CarbonLines(a + b) == CarbonLines(a) + CarbonLines(b)
    decreases |a|
  {
    if |a| > 0 {
      assert (a + b)[0] == a[0];
      assert (a + b)[1..] == a[1..] + b;
      CarbonLinesAppend(a[1..], b);
    } else {
      assert a + b == b;
    }
  }

  /** A single line gives its stripped self exactly when it contains `CO2`,
      so every such line counts, repeats included. */
  lemma OneCarbonLine(line: string)
    ensures CarbonLines([line]) == if MentionsCarbon(line) then [Strip(line)] else []
  {
    assert [line][1..] == [];
  }

  lemma {:induction false} CarbonLinesNone(lines: seq<string>)
    requires forall l :: l in lines ==> !MentionsCarbon(l)
    ensures CarbonLines(lines) == []
  {
    if |lines| > 0 {
      assert lines[0] in lines;
      assert forall l :: l in lines[1..] ==> l in lines;
      CarbonLinesNone(lines[1..]);
    }
  }

  /** `find_similar_documents`: the first three stripped lines that contain
      `CO2`; fewer only when there are no more. */
  function FindSimilarDocuments(text: string): (r: seq<string>)
    ensures |r| == Min(3, |CarbonLines(SplitOn(text, '\n'))|)
    ensures r <= CarbonLines(SplitOn(text, '\n'))
    ensures forall x :: x in r ==> exists l :: l in SplitOn(text, '\n') && MentionsCarbon(l) && x == Strip(l)
    ensures |r| < 3 ==> forall l :: l in SplitOn(text, '\n') && MentionsCarbon(l) ==> Strip(l) in r
  {
    var all := CarbonLines(SplitOn(text, '\n'));
    CarbonLinesMembers(SplitOn(text, '\n'));
    var r := Take(all, 3);
    assert forall x :: x in r ==> x in all;
    r
  }

  lemma CarbonHasNoSpace()
    ensures |Carbon| > 0 && forall j :: 0 <= j < |Carbon| ==> !IsSpace(Carbon[j])
  {
  }

  /** Every snippet still contains `CO2`, neither starts nor ends with
      whitespace, and is a piece of the text. */
  lemma SimilarDocumentsInText(text: string)
    ensures forall x :: x in FindSimilarDocuments(text) ==>
              MentionsCarbon(x) && !IsSpace(x[0]) && !IsSpace(x[|x| - 1]) && IsSubstring(x, text)
  {
    CarbonHasNoSpace();
    SplitOnInText(text, '\n');
    forall x | x in FindSimilarDocuments(text)
      ensures MentionsCarbon(x) && !IsSpace(x[0]) && !IsSpace(x[|x| - 1]) && IsSubstring(x, text)
    {
      var l :| l in SplitOn(text, '\n') && MentionsCarbon(l) && x == Strip(l);
      StripKeeps(Carbon, l);
      StripInText(l);
      IsSubstringTrans(x, l, text);
    }
  }

  /** A text that does not contain `CO2` yields no snippet. */
  lemma NoCarbonNoDocuments(text: string)
    requires !MentionsCarbon(text)
    ensures FindSimilarDocuments(text) == []
  {
    SplitOnInText(text, '\n');
    forall l | l in SplitOn(text, '\n')
      ensures !MentionsCarbon(l)
    {
      if MentionsCarbon(l) {
        IsSubstringTrans(Carbon, l, text);
      }
    }
    CarbonLinesNone(SplitOn(text, '\n'));
  }

  /** The match is case-sensitive: a lower-case `co2` is not found. */
  lemma LowerCaseIsMissed()
    ensures FindSimilarDocuments("co2 levels rose") == []
  {
    FirstCharAbsent(Carbon, "co2 levels rose");
    NoCarbonNoDocuments("co2 levels rose");
  }

  /** The acronyms the second pipeline watches for. */
  const Watched: set<string> := {"CO2", "ESG", "CSR"}

  /** `text.split()`. */
  function Words(text: string): seq<string>
  {
    Runs(text, NonSpace)
  }

  /** The set of upper-cased words that are watched acronyms. */
  function WatchedIn(words: seq<string>): set<string>
  {
    set w | w in words && Upper(w) in Watched :: Upper(w)
  }

  /** `retrieve_external_knowledge`: every watched acronym that is, up to
      case, a whole word of the text, with its entity description; the set
      the source iterates makes the order immaterial, so the result is a
      map. Only `CSR` has no description. */
  function RetrieveExternalKnowledge(text: string): (facts: map<string, string>)
    ensures forall e :: e in facts <==> e in Watched && exists w :: w in Words(text) && Upper(w) == e
    ensures forall e :: e in facts ==> (facts[e] == "" <==> e == "CSR")
    ensures forall e :: e in facts && e != "CSR" ==> (e, facts[e]) in MockEntities
  {
    EntityNames();
    assert "CSR" !in Keys(MockEntities) by {
      assert "CSR"[1] != "CO2"[1];
    }
    map e | e in WatchedIn(Words(text)) :: EntityInfo(e)
  }

  /** Every acronym found with a description is one that the entity search
      finds in the same text. */
  lemma KnowledgeWithinSearch(text: string)
    ensures forall e :: e in RetrieveExternalKnowledge(text) && e != "CSR" ==> e in SearchEntities(text)
  {
    var facts := RetrieveExternalKnowledge(text);
    RunsInText(text, NonSpace);
    forall e | e in facts && e != "CSR"
      ensures e in SearchEntities(text)
    {
      var w :| w in Words(text) && Upper(w) == e;
      SubstringIgnoringCase(w, text);
      LowerUpper(w);
      KeyOfMember(MockEntities);
    }
  }

  /** The converse fails: a word with punctuation attached is not the
      acronym, although the entity search finds it. */
  lemma PunctuationHidesAcronym()
    ensures "CO2" !in RetrieveExternalKnowledge("CO2.")
    ensures "CO2" in SearchEntities("CO2.")
  {
    var text := "CO2.";
    RunsOfOneRun(text, NonSpace);
    assert Upper(text) == text;
    EntityNames();
    assert Lower("CO2") == Lower(text)[..3];
    IsSubstringWitness(Lower("CO2"), Lower(text), 0);
  }
}
