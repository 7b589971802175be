/** The exploration variant of the search: `\w` tokens, expansion through
    the placeholder knowledge-graph interface (every entity a token mentions
    contributes its related terms), de-duplication in first-occurrence order,
    and a corpus scan that records a fixed-length preview of every document
    containing a term. */
module KgExploration {

  import opened Wrappers
  import opened Seqs
  import opened Strings
  import opened Dicts
  import opened Tokenize
  import opened KgInterface
  import opened Corpus

  /** `parse_query`: the maximal runs of word characters, in order. */
  function ParseQuery(q: string): (tokens: seq<string>)
    ensures forall i :: 0 <= i < |tokens| ==> |tokens[i]| > 0 && AllIn(tokens[i], WordChar)
    ensures Concat(tokens) == Kept(q, WordChar)
    ensures |tokens| == RunEnds(q, WordChar)
    ensures Tokenizes(q, Gaps(q, WordChar), tokens, WordChar)
    ensures forall g, r :: Tokenizes(q, g, r, WordChar) ==> r == tokens
  {
    RunsKeepContent(q, WordChar);
    RunsAreMaximal(q, WordChar);
    RunsTokenize(q, WordChar);
    forall g, r | Tokenizes(q, g, r, WordChar)
      ensures r == Runs(q, WordChar)
    {
      RunsUnique(q, g, r, WordChar);
    }
    Runs(q, WordChar)
  }

  /** Parsed tokens contain neither spaces nor apostrophes. */
  lemma TokensHaveNoSpaceOrApostrophe(q: string)
    ensures forall i, j :: 0 <= i < |ParseQuery(q)| && 0 <= j < |ParseQuery(q)[i]| ==>
              ParseQuery(q)[i][j] != ' ' && ParseQuery(q)[i][j] != '\''
  {
  }

  /** Because a parsed token holds no space, it can never mention the entity
      `Scope 1`. */
  lemma TokenNeverFindsScope1(tok: string)
    requires AllIn(tok, WordChar)
    ensures "Scope 1" !in SearchEntities(tok)
  {
    var name := Lower("Scope 1");
    assert name[5] == ' ';
    forall i | 0 <= i <= |Lower(tok)| - |name|
      ensures !OccursAt(name, Lower(tok), i)
    {
      assert Lower(tok)[i..i + |name|][5] == LowerChar(tok[i + 5]) != ' ';
    }
  }

  /** The related terms of the entities, one list after the other. */
  function RelatedOfEntities(ents: seq<string>): seq<string>
  {
    if |ents| == 0 then [] else RelatedEntities(ents[0]) + RelatedOfEntities(ents[1..])
  }

  /** What one token contributes: `for ent in search_entities(tok):
      expanded += get_related_entities(ent)`. */
  function RelatedOf(tok: string): seq<string>
  {
    RelatedOfEntities(SearchEntities(tok))
  }

  /** Everything the tokens contribute, in token order. */
  function FoundRelated(tokens: seq<string>): seq<string>
  {
    if |tokens| == 0 then [] else RelatedOf(tokens[0]) + FoundRelated(tokens[1..])
  }

  /** `x` is a related term of an entity that `tok` mentions. */
  predicate RelatedVia(x: string, tok: string)
  {
    exists ent :: ent in SearchEntities(tok) && x in RelatedEntities(ent)
  }

  lemma {:induction false} RelatedOfEntitiesMembers(ents: seq<string>)
    ensures forall x :: x in RelatedOfEntities(ents) <==> exists ent :: ent in ents && x in RelatedEntities(ent)
  {
    if |ents| > 0 {
      RelatedOfEntitiesMembers(ents[1..]);
      assert forall ent :: ent in ents <==> ent == ents[0] || ent in ents[1..];
    }
  }

  lemma {:induction false} FoundRelatedMembers(tokens: seq<string>)
    ensures forall x :: x in FoundRelated(tokens) <==> exists tok :: tok in tokens && RelatedVia(x, tok)
  {
    if |tokens| > 0 {
      FoundRelatedMembers(tokens[1..]);
      RelatedOfEntitiesMembers(SearchEntities(tokens[0]));
      forall x
        ensures x in FoundRelated(tokens) <==> exists tok :: tok in tokens && RelatedVia(x, tok)
      {
        assert x in RelatedOf(tokens[0]) <==> RelatedVia(x, tokens[0]);
        if exists tok :: tok in tokens && RelatedVia(x, tok) {
          var tok :| tok in tokens && RelatedVia(x, tok);
          assert tok == tokens[0] || tok in tokens[1..];
        }
      }
    }
  }

  /** `expand_query`: the tokens followed by what they contribute, each term
      once, in the order of its first occurrence. */
  function ExpandQuery(tokens: seq<string>): (r: seq<string>)
    ensures Distinct(r)
    ensures forall x :: x in r <==> x in tokens || exists tok :: tok in tokens && RelatedVia(x, tok)
    ensures Dedup(tokens) <= r
    ensures InFirstOccurrenceOrder(r, tokens + FoundRelated(tokens))
  {
    FoundRelatedMembers(tokens);
    DedupPrefix(tokens, FoundRelated(tokens));
    DedupFirstOccurrenceOrder(tokens + FoundRelated(tokens));
    Dedup(tokens + FoundRelated(tokens))
  }

  /** No tokens, no expansion. */
  lemma ExpandNothing()
    ensures ExpandQuery([]) == []
  {
    var r := ExpandQuery([]);
    assert forall i :: 0 <= i < |r| ==> r[i] !in r;
  }

  /** The loop over the terms with its `break`: does some term occur in the
      content, ignoring case? */
  function AnyTermIn(content: string, terms: seq<string>): bool
  {
    if |terms| == 0 then false
    else ContainsCI(content, terms[0]) || AnyTermIn(content, terms[1..])
  }

  lemma {:induction false} AnyTermInIff(content: string, terms: seq<string>)
    ensures AnyTermIn(content, terms) <==> exists t :: t in terms && ContainsCI(content, t)
  {
    if |terms| > 0 {
      AnyTermInIff(content, terms[1..]);
      assert forall t :: t in terms <==> t == terms[0] || t in terms[1..];
    }
  }

  /** `content[:200] + '...'`: at most 200 leading characters of the content,
      then an ellipsis. */
  function Preview(content: string): (r: string)
    ensures |r| == Min(200, |content|) + 3 && |r| <= 203
    ensures r[..|r| - 3] <= content && r[|r| - 3..] == "..."
  {
    var p := Take(content, 200);
    var r := p + "...";
    assert r[..|p|] == p;
    r
  }

  /** What one document yields in the scan of `search_corpus`: the preview,
      whichever term occurred. */
  function PreviewIfAny(content: string, terms: seq<string>): Option<string>
  {
    if AnyTermIn(content, terms) then Some(Preview(content)) else None
  }

  /** `search_corpus`. */
  function SearchCorpus(terms: seq<string>, corpus: seq<Doc>): Dict<string, string>
  {
    Scan(corpus, content => PreviewIfAny(content, terms))
  }

  /** A file name is a hit exactly when some document of that name contains
      one of the terms. */
  lemma SearchCorpusKeys(terms: seq<string>, corpus: seq<Doc>)
    ensures forall k :: k in Keys(SearchCorpus(terms, corpus)) <==>
              exists doc :: doc in corpus && doc.0 == k && exists t :: t in terms && ContainsCI(doc.1, t)
  {
    ScanKeys(corpus, content => PreviewIfAny(content, terms));
    forall doc | doc in corpus
      ensures AnyTermIn(doc.1, terms) <==> exists t :: t in terms && ContainsCI(doc.1, t)
    {
      AnyTermInIff(doc.1, terms);
    }
  }

  /** Every hit is the preview of a document of that name, whichever term
      occurred in it. */
  lemma SearchCorpusValues(terms: seq<string>, corpus: seq<Doc>)
    ensures forall h :: h in SearchCorpus(terms, corpus) ==>
              exists doc :: doc in corpus && doc.0 == h.0 && h.1 == Preview(doc.1)
  {
    ScanValues(corpus, content => PreviewIfAny(content, terms));
  }

  /** So every hit has at most 203 characters and ends in `...`. */
  lemma SearchCorpusPreviews(terms: seq<string>, corpus: seq<Doc>)
    ensures forall h :: h in SearchCorpus(terms, corpus) ==>
              3 <= |h.1| <= 203 && h.1[|h.1| - 3..] == "..."
  {
    SearchCorpusValues(terms, corpus);
  }

  /** An empty term list finds nothing. */
  lemma SearchWithoutTerms(corpus: seq<Doc>)
    ensures SearchCorpus([], corpus) == []
  {
    ScanNothing(corpus, content => PreviewIfAny(content, []));
  }
}
