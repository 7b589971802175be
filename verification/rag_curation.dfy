/** The compact curation pipeline: sentence retrieval by keyword, fact
    look-up in a fixed table, fusion of facts and excerpts into one prompt,
    the rule-based metadata extraction from that prompt, and the curator's
    approval stamp. */
module RagCuration {

  import opened Wrappers
  import opened Seqs
  import opened Strings
  import opened Dicts
  import opened Lines
  import opened Sentences

  // ---------------------------------------------------------------------
  // Internal retrieval
  // ---------------------------------------------------------------------

  /** `any(k.lower() in s.lower() for k in keywords)`. */
  predicate MentionsKeyword(s: string, keywords: seq<string>)
  {
    exists k :: k in keywords && ContainsCI(s, k)
  }

  /** The sentences that mention a keyword, in order, repetitions kept. */
  function KeywordSentences(sentences: seq<string>, keywords: seq<string>): (r: seq<string>)
    ensures Subseq(r, sentences)
    ensures forall x :: multiset(r)[x] == if MentionsKeyword(x, keywords) then multiset(sentences)[x] else 0
  {
    if |sentences| == 0 then []
    else
      var rest := KeywordSentences(sentences[1..], keywords);
      assert sentences == [sentences[0]] + sentences[1..];
      if MentionsKeyword(sentences[0], keywords) then
        assert ([sentences[0]] + rest)[1..] == rest;
        [sentences[0]] + rest
      else
        assert |rest| > 0 ==> rest[0] in multiset(rest);
        rest
  }

  /** `retrieve_internal_passages`: at most five sentences of the text that
      mention a keyword, in text order; fewer only when there are no more. */
  function RetrieveInternalPassages(text: string, keywords: seq<string>): (r: seq<string>)
    ensures |r| == Min(5, |KeywordSentences(SplitSentences(text), keywords)|)
    ensures r <= KeywordSentences(SplitSentences(text), keywords)
    ensures Subseq(r, SplitSentences(text))
    ensures forall x :: x in r ==> MentionsKeyword(x, keywords) && IsSubstring(x, text)
    ensures |r| < 5 ==> forall x :: x in SplitSentences(text) && MentionsKeyword(x, keywords) ==> x in r
  {
    var sentences := SplitSentences(text);
    var hits := KeywordSentences(sentences, keywords);
    var r := Take(hits, 5);
    SubseqTake(hits, sentences, |r|);
    assert r == hits[..|r|];
    SentencesInText(text);
    forall x | x in r
      ensures MentionsKeyword(x, keywords) && x in sentences
    {
      assert x in hits;
      assert multiset(hits)[x] > 0;
    }
    forall x | x in sentences && MentionsKeyword(x, keywords) && |r| < 5
      ensures x in r
    {
      assert multiset(sentences)[x] > 0;
      assert multiset(hits)[x] > 0;
    }
    r
  }

  /** Without keywords no passage is retrieved. */
  lemma NoKeywordsNoPassages(text: string)
    ensures RetrieveInternalPassages(text, []) == []
  {
    var r := RetrieveInternalPassages(text, []);
    assert forall i :: 0 <= i < |r| ==> !MentionsKeyword(r[i], []);
  }

  // ---------------------------------------------------------------------
  // External knowledge-graph facts
  // ---------------------------------------------------------------------

  /** `MOCK_KG`. */
  const MockKg: Dict<string, string> :=
    assert "Scope 1" != "CO2" by { assert "Scope 1"[0] != "CO2"[0]; }
    assert Keys(KgTable) == ["Scope 1", "CO2"];
    KgTable

  const KgTable := [
    ("Scope 1", "Direct greenhouse\U{2011}gas emissions that occur from sources controlled by the organisation."),
    ("CO2", "A colourless gas consisting of carbon and oxygen atoms; primary greenhouse gas.")
  ]

  /** `MOCK_KG.get(e, '')`: the table's non-empty fact for a known entity,
      the empty string for any other. */
  function KgFact(e: string): (r: string)
    ensures e in Keys(MockKg) ==> (e, r) in MockKg && r != ""
    ensures e !in Keys(MockKg) ==> r == ""
  {
    GetOr(MockKg, e, "")
  }

  /** `retrieve_external_kg_facts`: the dict comprehension, one assignment
      per entity in list order. */
  function RetrieveExternalKgFacts(entities: seq<string>): Dict<string, string>
  {
    FromKeys(entities, KgFact)
  }

  /** One entry per distinct entity, in order of first mention. */
  lemma KgFactsKeys(entities: seq<string>)
    ensures Keys(RetrieveExternalKgFacts(entities)) == Dedup(entities)
  {
    FromKeysKeys(entities, KgFact);
  }

  /** Every entry holds its entity's fact. */
  lemma KgFactsValues(entities: seq<string>)
    ensures forall p :: p in RetrieveExternalKgFacts(entities) ==> p.1 == KgFact(p.0)
  {
    FromKeysValues(entities, KgFact);
  }

  // ---------------------------------------------------------------------
  // Context fusion
  // ---------------------------------------------------------------------

  /** One line of the facts block. */
  function FactLine(k: string, v: string): string
  {
    "* " + k + ": " + v
  }

  /** The lines of the facts block: one per fact with a non-empty value, in
      dict order. */
  function FactLines(facts: seq<(string, string)>): (r: seq<string>)
    ensures |r| <= |facts|
    ensures forall line :: line in r <==> exists p :: p in facts && p.1 != "" && line == FactLine(p.0, p.1)
  {
    if |facts| == 0 then []
    else
      var rest := FactLines(facts[1..]);
      assert forall p :: p in facts <==> p == facts[0] || p in facts[1..];
      if facts[0].1 != "" then [FactLine(facts[0].0, facts[0].1)] + rest else rest
  }

  /** The facts block keeps the dict's order: the lines of two runs of facts
      are the lines of the first run followed by those of the second. */
  lemma {:induction false} FactLinesAppend(a: seq<(string, string)>, b: seq<(string, string)>)
    ensures FactLines(a + b) == FactLines(a) + FactLines(b)
    decreases |a|
  {
    if |a| > 0 {
      assert (a + b)[1..] == a[1..] + b;
      FactLinesAppend(a[1..], b);
    } else {
      assert a + b == b;
    }
  }

  /** A single fact gives its line exactly when its value is non-empty. */
  lemma OneFactLine(k: string, v: string)
    ensures FactLines([(k, v)]) == if v != "" then [FactLine(k, v)] else []
  {
    assert [(k, v)][1..] == [];
  }

  // The prompt's fixed text, written in short pieces so that facts about
  // its characters can be checked piece by piece.

  const Preamble := "You are " + "an ESG " + "archivist " + "assistant.\n" + "Context " + "facts:\n"

  /** The marker the cited passage is looked up after. */
  const ExcerptsMarker := "Document " + "excerpts:"

  const Instruction :=
    "Based on " + "the evidence " + "above, " + "extract " + "YEAR, " + "METRIC " + "NAME, " + "and " + "VALUE " + "(with unit)."

  const Closing :=
    "Return " + "a JSON " + "dictionary " + "with keys: " + "year, " + "metric, " + "value, " + "unit, " + "cited_passage."

  const Instructions := Instruction + "\n" + Closing

  /** What follows the line break after the passages block. */
  const Trailer := "\n" + Instructions

  /** The prompt up to its marker: the preamble and the facts block. */
  function ContextHead(facts: Dict<string, string>): string
  {
    Preamble + Join(FactLines(facts), '\n') + "\n\n"
  }

  /** The prompt after its marker: the passages block and the instructions. */
  function ContextTail(passages: seq<string>): string
  {
    "\n" + Join(passages, '\n') + "\n" + Trailer
  }

  /** `build_rag_context`: the fixed prompt with the facts block and the
      passages block filled in, around the `Document excerpts:` line. */
  function BuildRagContext(passages: seq<string>, facts: Dict<string, string>): string
  {
    ContextHead(facts) + ExcerptsMarker + ContextTail(passages)
  }

  /** Only known entities contribute a line to the facts block. */
  lemma KnownFactsOnly(entities: seq<string>)
    ensures forall line :: line in FactLines(RetrieveExternalKgFacts(entities)) <==>
              exists e :: e in entities && e in Keys(MockKg) && line == FactLine(e, KgFact(e))
  {
    var facts := RetrieveExternalKgFacts(entities);
    KgFactsKeys(entities);
    KgFactsValues(entities);
    KeyOfMember(facts);
    forall line
      ensures line in FactLines(facts) <==> exists e :: e in entities && e in Keys(MockKg) && line == FactLine(e, KgFact(e))
    {
      if line in FactLines(facts) {
        var p :| p in facts && p.1 != "" && line == FactLine(p.0, p.1);
        assert p.0 in Dedup(entities);
        assert p.0 in entities && p.0 in Keys(MockKg);
      }
      if exists e :: e in entities && e in Keys(MockKg) && line == FactLine(e, KgFact(e)) {
        var e :| e in entities && e in Keys(MockKg) && line == FactLine(e, KgFact(e));
        assert e in Keys(facts);
        var i := IndexOf(Keys(facts), e);
        assert facts[i] in facts && facts[i].0 == e;
      }
    }
  }

  // ---------------------------------------------------------------------
  // Rule-based metadata generation
  // ---------------------------------------------------------------------

  /** `prompt.split('Document excerpts:')[-1].strip().split('\n')[0]`. */
  function CitedPassage(prompt: string): (r: string)
    ensures '\n' !in r
  {
    SplitOn(Strip(SplitLast(prompt, ExcerptsMarker)), '\n')[0]
  }

  /** The marker's first character occurs in it only once. */
  lemma MarkerDoesNotOverlap()
    ensures |ExcerptsMarker| > 0 && ExcerptsMarker[0] !in ExcerptsMarker[1..]
  {
    assert ExcerptsMarker[1..] == "ocument " + "excerpts:";
  }

  lemma InstructionFreeOfMarker()
    ensures 'D' !in Instruction && !IsSubstring(ExcerptsMarker, Instruction)
  {
    FirstCharAbsent(ExcerptsMarker, Instruction);
  }

  lemma InstructionIsOneLine()
    ensures '\n' !in Instruction
  {
  }

  lemma ClosingFreeOfMarker()
    ensures 'D' !in Closing && !IsSubstring(ExcerptsMarker, Closing)
  {
    FirstCharAbsent(ExcerptsMarker, Closing);
  }

  /** No `D` after the passages block, so no marker either. */
  lemma TrailerFreeOfMarker()
    ensures !IsSubstring(ExcerptsMarker, Trailer)
  {
    InstructionFreeOfMarker();
    ClosingFreeOfMarker();
    assert 'D' !in Trailer;
    FirstCharAbsent(ExcerptsMarker, Trailer);
  }

  /** The instructions start and end outside whitespace. */
  lemma InstructionsEnds()
    ensures |Instructions| > 0 && !IsSpace(Instructions[0]) && !IsSpace(Instructions[|Instructions| - 1])
    ensures Trailer[|Trailer| - 1] == Instructions[|Instructions| - 1]
  {
  }

  /** After a marker that cannot overlap itself, lines free of it, and a
      trailer free of it, the text after the last marker is all of that. */
  lemma AfterMarker(prefix: string, marker: string, lines: seq<string>, trailer: string)
    requires |marker| > 0 && marker[0] !in marker[1..] && '\n' !in marker
    requires forall x :: x in lines ==> !IsSubstring(marker, x)
    requires !IsSubstring(marker, trailer)
    ensures SplitLast(prefix + marker + ("\n" + Join(lines, '\n') + "\n" + trailer), marker)
              == "\n" + Join(lines, '\n') + "\n" + trailer
  {
    var block := Join(lines, '\n');
    FirstCharAbsent(marker, "");
    JoinAbsent(marker, lines, '\n');
    AbsentAcross(marker, block, '\n', trailer);
    AbsentAcross(marker, "", '\n', block + "\n" + trailer);
    assert "\n" + block + "\n" + trailer == "" + ['\n'] + (block + ['\n'] + trailer);
    SplitLastAfter(prefix, marker, "\n" + block + "\n" + trailer);
  }

  /** When no passage contains the marker, the text after the last marker
      is the passages block and the instructions. */
  lemma AfterLastMarker(passages: seq<string>, facts: Dict<string, string>)
    requires forall x :: x in passages ==> !IsSubstring(ExcerptsMarker, x)
    ensures SplitLast(BuildRagContext(passages, facts), ExcerptsMarker) == ContextTail(passages)
  {
    MarkerDoesNotOverlap();
    TrailerFreeOfMarker();
    AfterMarker(ContextHead(facts), ExcerptsMarker, passages, Trailer);
  }

  /** The first line of what follows a leading line break is the first line
      of the first of the lines, when that does not start with whitespace. */
  lemma FirstLineAfterBreak(lines: seq<string>, trailer: string)
    requires |lines| > 0 && |lines[0]| > 0 && !IsSpace(lines[0][0])
    requires |trailer| > 0 && !IsSpace(trailer[|trailer| - 1])
    ensures SplitOn(Strip("\n" + Join(lines, '\n') + "\n" + trailer), '\n')[0] == SplitOn(lines[0], '\n')[0]
  {
    var more := if |lines| > 1 then Join(lines[1..], '\n') + "\n" + trailer else trailer;
    var body := lines[0] + ['\n'] + more;
    assert Join(lines, '\n') + "\n" + trailer == body;
    assert "\n" + Join(lines, '\n') + "\n" + trailer == "\n" + body;
    StripAround("\n", body);
    SplitOnHead(lines[0], '\n', more);
  }

  /** The prompt cites the first line of its first passage, provided the
      passages do not themselves contain the marker and the first one does
      not start with whitespace. */
  lemma CitesFirstPassage(passages: seq<string>, facts: Dict<string, string>)
    requires |passages| > 0 && |passages[0]| > 0 && !IsSpace(passages[0][0])
    requires forall x :: x in passages ==> !IsSubstring(ExcerptsMarker, x)
    ensures CitedPassage(BuildRagContext(passages, facts)) == SplitOn(passages[0], '\n')[0]
    ensures '\n' !in passages[0] ==> CitedPassage(BuildRagContext(passages, facts)) == passages[0]
  {
    AfterLastMarker(passages, facts);
    InstructionsEnds();
    FirstLineAfterBreak(passages, Trailer);
  }

  lemma InstructionStarts()
    ensures |Instruction| > 0 && Instruction[0] == 'B'
  {
    assert Instruction == "Based on " + (Instruction[9..]);
  }

  lemma ClosingEnds()
    ensures |Closing| > 0 && Closing[|Closing| - 1] == '.'
  {
  }

  /** The first line after an empty passages block is the first line of
      the instructions. */
  lemma FirstLineOfEmptyBlock(first: string, rest: string)
    requires |first| > 0 && !IsSpace(first[0]) && '\n' !in first
    requires |rest| > 0 && !IsSpace(rest[|rest| - 1])
    ensures SplitOn(Strip("\n" + Join([], '\n') + "\n" + ("\n" + (first + "\n" + rest))), '\n')[0] == first
  {
    var body := first + ['\n'] + rest;
    assert "\n" + Join([], '\n') + "\n" + ("\n" + (first + "\n" + rest)) == "\n\n\n" + body;
    assert body[|body| - 1] == rest[|rest| - 1];
    StripAround("\n\n\n", body);
    SplitOnStep(first, '\n', rest);
  }

  /** Without passages the prompt cites the instruction line. */
  lemma NoPassagesCitesInstruction(facts: Dict<string, string>)
    ensures CitedPassage(BuildRagContext([], facts)) == Instruction
  {
    AfterLastMarker([], facts);
    InstructionStarts();
    ClosingEnds();
    InstructionIsOneLine();
    FirstLineOfEmptyBlock(Instruction, Closing);
  }

  // ---------------------------------------------------------------------
  // Year extraction
  // ---------------------------------------------------------------------

  /** The pattern `20\d{2}` matches at `i`. */
  predicate YearAt(s: string, i: nat)
  {
    i + 4 <= |s| && s[i] == '2' && s[i + 1] == '0' && IsDigit(s[i + 2]) && IsDigit(s[i + 3])
  }

  predicate HasYear(s: string)
  {
    exists i: nat :: i < |s| && YearAt(s, i)
  }

  /** `int(...)` of the four digits matched at `i`. */
  function YearValue(s: string, i: nat): int
    requires YearAt(s, i)
  {
    2000 + 10 * DigitValue(s[i + 2]) + DigitValue(s[i + 3])
  }

  /** The leftmost match at or after `from`. */
  function FirstYear(s: string, from: nat): (r: Option<nat>)
    ensures r.Some? ==> from <= r.value && YearAt(s, r.value)
    ensures r.Some? ==> forall k: nat :: from <= k < r.value ==> !YearAt(s, k)
    ensures r.None? ==> forall k: nat :: from <= k ==> !YearAt(s, k)
    decreases |s| - from
  {
    if from + 4 > |s| then None
    else if YearAt(s, from) then Some(from)
    else FirstYear(s, from + 1)
  }

  /** `re.search(r'(20\d{2})', prompt)` read as a number: the year written
      leftmost in the text, if any. */
  function ExtractYear(s: string): (r: Option<int>)
    ensures r.Some? <==> HasYear(s)
    ensures r.Some? ==> 2000 <= r.value <= 2099
    ensures r.Some? ==> exists i: nat :: YearAt(s, i) && r.value == YearValue(s, i) &&
                                        forall k: nat :: k < i ==> !YearAt(s, k)
  {
    match FirstYear(s, 0)
    case None => None
    case Some(i) => Some(YearValue(s, i))
  }

  function DigitChar(d: int): char
    requires 0 <= d <= 9
  {
    ('0' as int + d) as char
  }

  /** A year of this century written out in four digits. */
  function YearText(y: int): (r: string)
    requires 2000 <= y <= 2099
  {
    ['2', '0', DigitChar((y - 2000) / 10), DigitChar((y - 2000) % 10)]
  }

  /** Writing a year out and extracting it gives the year back. */
  lemma YearRoundTrip(y: int)
    requires 2000 <= y <= 2099
    ensures ExtractYear(YearText(y)) == Some(y)
  {
    assert YearAt(YearText(y), 0);
  }

  predicate NoDigit(s: string)
  {
    forall i :: 0 <= i < |s| ==> !IsDigit(s[i])
  }

  lemma NoDigitNoYear(s: string)
    requires NoDigit(s)
    ensures !HasYear(s)
  {
    forall i: nat | i + 4 <= |s|
      ensures !YearAt(s, i)
    {
      assert s[i] in s;
    }
  }

  /** A year cannot straddle a non-digit: when the two sides meet at one,
      a year in `a + b` is a year in `a` or in `b`. */
  lemma YearSplit(a: string, b: string)
    requires |a| == 0 || |b| == 0 || !IsDigit(a[|a| - 1]) || !IsDigit(b[0])
    ensures HasYear(a + b) <==> HasYear(a) || HasYear(b)
  {
    var s := a + b;
    forall i: nat | i < |a| < i + 4
      ensures !YearAt(s, i)
    {
      assert s[|a| - 1] == a[|a| - 1];
      assert |b| > 0 ==> s[|a|] == b[0];
    }
    forall i: nat | YearAt(s, i)
      ensures HasYear(a) || HasYear(b)
    {
      if i + 4 <= |a| {
        assert YearAt(a, i);
      } else {
        assert YearAt(b, i - |a|);
      }
    }
    forall i: nat | YearAt(a, i)
      ensures YearAt(s, i)
    {
    }
    forall i: nat | YearAt(b, i)
      ensures YearAt(s, |a| + i)
    {
    }
  }

  /** Lines joined with a non-digit hold a year exactly when one of them
      does. */
  lemma {:induction false} YearInJoin(xs: seq<string>, c: char)
    requires !IsDigit(c)
    ensures HasYear(Join(xs, c)) <==> exists x :: x in xs && HasYear(x)
  {
    if |xs| == 0 {
      NoDigitNoYear("");
    } else if |xs| > 1 {
      var rest := Join(xs[1..], c);
      YearInJoin(xs[1..], c);
      YearSplit(xs[0], [c]);
      YearSplit(xs[0] + [c], rest);
      NoDigitNoYear([c]);
      assert forall x :: x in xs <==> x == xs[0] || x in xs[1..];
    }
  }

  /** Text without digits in front does not change whether there is a
      year. */
  lemma YearAfter(a: string, x: string)
    requires NoDigit(a)
    ensures HasYear(a + x) <==> HasYear(x)
  {
    NoDigitNoYear(a);
    YearSplit(a, x);
  }

  /** Nor does text without digits behind. */
  lemma YearBefore(x: string, b: string)
    requires NoDigit(b)
    ensures HasYear(x + b) <==> HasYear(x)
  {
    NoDigitNoYear(b);
    YearSplit(x, b);
  }

  lemma NoDigitConcat(a: string, b: string)
    requires NoDigit(a) && NoDigit(b)
    ensures NoDigit(a + b)
  {
  }

  lemma InstructionHasNoDigit()
    ensures NoDigit(Instruction)
  {
    NoDigitConcat("Based on ", "the evidence ");
    NoDigitConcat("Based on " + "the evidence ", "above, ");
    NoDigitConcat("Based on " + "the evidence " + "above, ", "extract ");
    NoDigitConcat("Based on " + "the evidence " + "above, " + "extract ", "YEAR, ");
    NoDigitConcat("Based on " + "the evidence " + "above, " + "extract " + "YEAR, ", "METRIC ");
    NoDigitConcat("Based on " + "the evidence " + "above, " + "extract " + "YEAR, " + "METRIC ", "NAME, ");
    NoDigitConcat("Based on " + "the evidence " + "above, " + "extract " + "YEAR, " + "METRIC " + "NAME, ", "and ");
    NoDigitConcat("Based on " + "the evidence " + "above, " + "extract " + "YEAR, " + "METRIC " + "NAME, " + "and ", "VALUE ");
    NoDigitConcat("Based on " + "the evidence " + "above, " + "extract " + "YEAR, " + "METRIC " + "NAME, " + "and " + "VALUE ", "(with unit).");
  }

  lemma ClosingHasNoDigit()
    ensures NoDigit(Closing)
  {
    NoDigitConcat("Return ", "a JSON ");
    NoDigitConcat("Return " + "a JSON ", "dictionary ");
    NoDigitConcat("Return " + "a JSON " + "dictionary ", "with keys: ");
    NoDigitConcat("Return " + "a JSON " + "dictionary " + "with keys: ", "year, ");
    NoDigitConcat("Return " + "a JSON " + "dictionary " + "with keys: " + "year, ", "metric, ");
    NoDigitConcat("Return " + "a JSON " + "dictionary " + "with keys: " + "year, " + "metric, ", "value, ");
    NoDigitConcat("Return " + "a JSON " + "dictionary " + "with keys: " + "year, " + "metric, " + "value, ", "unit, ");
    NoDigitConcat("Return " + "a JSON " + "dictionary " + "with keys: " + "year, " + "metric, " + "value, " + "unit, ", "cited_passage.");
  }


  lemma PreambleHasNoDigit()
    ensures NoDigit(Preamble)
  {
  }

  lemma MarkerHasNoDigit()
    ensures NoDigit(ExcerptsMarker)
  {
  }

  lemma TrailerHasNoDigit()
    ensures NoDigit("\n" + Trailer)
  {
    InstructionHasNoDigit();
    ClosingHasNoDigit();
    NoDigitConcat(Instruction, "\n");
    NoDigitConcat(Instruction + "\n", Closing);
    NoDigitConcat("\n", Instructions);
    NoDigitConcat("\n", Trailer);
  }

  /** The part before the marker holds a year exactly when a fact line
      does. */
  lemma HeadYear(facts: Dict<string, string>)
    ensures HasYear(ContextHead(facts)) <==> exists x :: x in FactLines(facts) && HasYear(x)
  {
    var fb := Join(FactLines(facts), '\n');
    PreambleHasNoDigit();
    YearInJoin(FactLines(facts), '\n');
    YearAfter(Preamble, fb);
    YearBefore(Preamble + fb, "\n\n");
  }

  /** The part after the marker holds a year exactly when a passage does. */
  lemma TailYear(passages: seq<string>)
    ensures HasYear(ContextTail(passages)) <==> exists x :: x in passages && HasYear(x)
  {
    var pb := Join(passages, '\n');
    TrailerHasNoDigit();
    YearInJoin(passages, '\n');
    YearAfter("\n", pb);
    YearBefore("\n" + pb, "\n" + Trailer);
    assert ContextTail(passages) == "\n" + pb + ("\n" + Trailer);
  }

  /** The year read from the prompt comes from the evidence: the fixed text
      holds no digit, so the prompt holds a year exactly when a passage or
      a line of the facts block does. */
  lemma YearFromEvidence(passages: seq<string>, facts: Dict<string, string>)
    ensures HasYear(BuildRagContext(passages, facts)) <==>
              (exists x :: x in passages && HasYear(x)) || (exists x :: x in FactLines(facts) && HasYear(x))
  {
    var head := ContextHead(facts);
    var tail := ContextTail(passages);
    HeadYear(facts);
    TailYear(passages);
    MarkerHasNoDigit();
    YearAfter(ExcerptsMarker, tail);
    YearSplit(head, ExcerptsMarker + tail);
    assert BuildRagContext(passages, facts) == head + (ExcerptsMarker + tail);
  }

  // ---------------------------------------------------------------------
  // Metadata and review
  // ---------------------------------------------------------------------

  /** The JSON values the metadata holds. */
  datatype Json = Null | Int(n: int) | Str(s: string) | Bool(b: bool)

  const Metric := "Scope\U{A0}1\U{A0}CO\U{2082}\U{A0}Emissions"

  const Unit := "metric tonnes (tCO\U{2082}e)"

  const MetadataKeys := ["year", "metric", "value", "unit", "cited_passage"]

  /** The keys differ in their first characters. */
  lemma MetadataKeysDistinct()
    ensures Distinct(MetadataKeys)
    ensures forall i :: 0 <= i < |MetadataKeys| ==> MetadataKeys[i][1] != 'u'
  {
    var ks := MetadataKeys;
    assert forall i, j :: 0 <= i < j < 5 ==> ks[i][0] != ks[j][0];
  }

  /** `generate_metadata_with_llm`; the match of the value pattern is a
      parameter. */
  function GenerateMetadata(prompt: string, value: Option<string>): (m: Dict<string, Json>)
    ensures Keys(m) == MetadataKeys
  {
    var year := match ExtractYear(prompt) case Some(y) => Int(y) case None => Null;
    var v := match value case Some(x) => Str(x) case None => Null;
    var m := [("year", year), ("metric", Str(Metric)), ("value", v), ("unit", Str(Unit)),
              ("cited_passage", Str(CitedPassage(prompt)))];
    assert Keys(m) == MetadataKeys;
    MetadataKeysDistinct();
    m
  }

  /** What the generated metadata holds: the year found in the prompt (null
      when there is none), the fixed metric and unit, the value read from the
      answer (null when none), and the cited passage. */
  lemma GeneratedFields(prompt: string, value: Option<string>)
    ensures var m := GenerateMetadata(prompt, value);
      && Get(m, "year").Some? && (Get(m, "year").value == Null <==> !HasYear(prompt))
      && (Get(m, "year").value.Int? ==> 2000 <= Get(m, "year").value.n <= 2099)
      && (Get(m, "year").value.Null? || Get(m, "year").value.Int?)
      && Get(m, "metric") == Some(Str(Metric)) && Get(m, "unit") == Some(Str(Unit))
      && Get(m, "value") == Some(if value.Some? then Str(value.value) else Null)
      && Get(m, "cited_passage") == Some(Str(CitedPassage(prompt)))
  {
    var m := GenerateMetadata(prompt, value);
    GetAt(m, 0);
    GetAt(m, 1);
    GetAt(m, 2);
    GetAt(m, 3);
    GetAt(m, 4);
  }

  /** `curator_review`: approve and stamp with the given time; nothing else
      changes. */
  function CuratorReview(m: Dict<string, Json>, timestamp: string): (r: Dict<string, Json>)
    ensures Get(r, "curator_approved") == Some(Bool(true))
    ensures Get(r, "curator_timestamp") == Some(Str(timestamp))
    ensures forall k :: k != "curator_approved" && k != "curator_timestamp" ==> Get(r, k) == Get(m, k)
    ensures Keys(m) <= Keys(r) && |r| <= |m| + 2
  {
    ReviewKeysDiffer();
    PutTwo(m, "curator_approved", Bool(true), "curator_timestamp", Str(timestamp));
    Put(Put(m, "curator_approved", Bool(true)), "curator_timestamp", Str(timestamp))
  }

  lemma ReviewKeysDiffer()
    ensures "curator_approved" != "curator_timestamp"
    ensures "curator_approved"[1] == 'u' && "curator_timestamp"[1] == 'u'
  {
    assert "curator_approved"[8] != "curator_timestamp"[8];
  }

  /** A second review only replaces the timestamp. */
  lemma ReviewTwice(m: Dict<string, Json>, t1: string, t2: string)
    ensures CuratorReview(CuratorReview(m, t1), t2) == CuratorReview(m, t2)
  {
    ReviewKeysDiffer();
    PutPairAgain(m, "curator_approved", Bool(true), "curator_timestamp", Str(t1), Str(t2));
  }

  /** Reviewed metadata holds the five generated keys, then the two review
      keys. */
  lemma ReviewedMetadataKeys(prompt: string, value: Option<string>, timestamp: string)
    ensures Keys(CuratorReview(GenerateMetadata(prompt, value), timestamp)) ==
              MetadataKeys + ["curator_approved", "curator_timestamp"]
  {
    ReviewKeysDiffer();
    MetadataKeysDistinct();
    var m := GenerateMetadata(prompt, value);
    assert "curator_approved" !in Keys(m);
    assert "curator_timestamp" !in Keys(m);
    PutTwoNew(m, "curator_approved", Bool(true), "curator_timestamp", Str(timestamp));
  }
}
