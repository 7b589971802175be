/** The knowledge-graph-guided search: a query is split into tokens, the
    tokens the mock knowledge graph knows are linked to their entity
    identifiers, the linked entities contribute expansion keywords, documents
    are scanned for the first term that occurs in them, the hits are ranked,
    and the linked entities form a small semantic subgraph. */
module KgSearch {

  import opened Wrappers
  import opened Seqs
  import opened Strings
  import opened Dicts
  import opened Tokenize
  import opened RegexWindow
  import opened Ranking
  import opened Corpus

  /** `parse_query`: the maximal runs of word characters and apostrophes, in
      order. Nothing but those characters survives, and none of them is lost. */
  function ParseQuery(q: string): (tokens: seq<string>)
    ensures forall i :: 0 <= i < |tokens| ==> |tokens[i]| > 0 && AllIn(tokens[i], QueryChar)
    ensures Concat(tokens) == Kept(q, QueryChar)
    ensures |tokens| == RunEnds(q, QueryChar)
    ensures Tokenizes(q, Gaps(q, QueryChar), tokens, QueryChar)
    ensures forall g, r :: Tokenizes(q, g, r, QueryChar) ==> r == tokens
  {
    RunsKeepContent(q, QueryChar);
    RunsAreMaximal(q, QueryChar);
    RunsTokenize(q, QueryChar);
    forall g, r | Tokenizes(q, g, r, QueryChar)
      ensures r == Runs(q, QueryChar)
    {
      RunsUnique(q, g, r, QueryChar);
    }
    Runs(q, QueryChar)
  }

  /** `KG_ENTITIES`: the mock DBpedia identifiers. */
  const KgEntities: Dict<string, string> := [
    ("CO2", "dbr:Carbon_dioxide"),
    ("emissions", "dbr:Greenhouse_gas"),
    ("Scope", "dbr:Greenhouse_gas_protocol")
  ]

  /** The tokens the knowledge graph knows, in order, repetitions kept. */
  function Known(tokens: seq<string>): (r: seq<string>)
    ensures forall t :: t in r <==> t in tokens && t in Keys(KgEntities)
    ensures Subseq(r, tokens)
    ensures forall x :: multiset(r)[x] == if x in Keys(KgEntities) then multiset(tokens)[x] else 0
  {
    if |tokens| == 0 then []
    else
      var front := tokens[..|tokens| - 1];
      var t := tokens[|tokens| - 1];
      assert forall u :: u in tokens <==> u in front || u == t;
      assert tokens == front + [t];
      var p := Known(front);
      if t in Keys(KgEntities) then
        SubseqSnoc(p, front, t);
        p + [t]
      else
        SubseqSnocRight(p, front, t);
        p
  }

  /** `link_entities_to_kg`: `{t: KG_ENTITIES[t] for t in tokens if t in
      KG_ENTITIES}`, built token by token. */
  function LinkEntities(tokens: seq<string>): Dict<string, string>
  {
    if |tokens| == 0 then []
    else
      var d := LinkEntities(tokens[..|tokens| - 1]);
      var t := tokens[|tokens| - 1];
      match Get(KgEntities, t)
      case None => d
      case Some(uri) => Put(d, t, uri)
  }

  /** The linked entities are the known tokens, each once, in the order of
      their first occurrence. */
  lemma {:induction false} LinkEntitiesKeys(tokens: seq<string>)
    ensures Keys(LinkEntities(tokens)) == Dedup(Known(tokens))
  {
    if |tokens| > 0 {
      var prefix := tokens[..|tokens| - 1];
      var t := tokens[|tokens| - 1];
      LinkEntitiesKeys(prefix);
      if t in Keys(KgEntities) {
        assert Known(tokens) == Known(prefix) + [t];
        DedupSnoc(Known(prefix), t);
      } else {
        assert Known(tokens) == Known(prefix);
      }
    }
  }

  /** A token is linked exactly when it occurs in the query and the
      knowledge graph knows it. */
  lemma LinkEntitiesMembers(tokens: seq<string>)
    ensures forall k :: k in Keys(LinkEntities(tokens)) <==> k in tokens && k in Keys(KgEntities)
  {
    LinkEntitiesKeys(tokens);
  }

  /** Every linked token is mapped to its identifier in the knowledge graph. */
  lemma {:induction false} LinkEntitiesValues(tokens: seq<string>)
    ensures forall i :: 0 <= i < |LinkEntities(tokens)| ==>
              Get(KgEntities, LinkEntities(tokens)[i].0) == Some(LinkEntities(tokens)[i].1)
  {
    if |tokens| > 0 {
      LinkEntitiesValues(tokens[..|tokens| - 1]);
    }
  }

  /** The linked entities appear in the order in which the query first
      mentions them. */
  lemma LinkEntitiesOrder(tokens: seq<string>)
    ensures InFirstOccurrenceOrder(Keys(LinkEntities(tokens)), Known(tokens))
  {
    LinkEntitiesKeys(tokens);
    DedupFirstOccurrenceOrder(Known(tokens));
  }

  /** `EXPANSION`: extra keywords per entity. */
  const Expansion: Dict<string, seq<string>> := [
    ("CO2", ["carbon dioxide", "CO\U{2082}", "greenhouse gas"]),
    ("emissions", ["footprint", "GHG", "discharge"])
  ]

  /** `EXPANSION.get(t, [])`. */
  function ExpansionOf(t: string): (r: seq<string>)
    ensures forall i :: 0 <= i < |r| ==> |r[i]| > 0
    ensures t in Keys(Expansion) ==> (t, r) in Expansion
    ensures t !in Keys(Expansion) ==> r == []
  {
    GetOr(Expansion, t, [])
  }

  /** The expansions of the keys, one list after the other. */
  function ExpandKeys(ks: seq<string>): seq<string>
  {
    if |ks| == 0 then [] else ExpansionOf(ks[0]) + ExpandKeys(ks[1..])
  }

  /** Expanding a concatenation of keys concatenates the expansions. */
  lemma {:induction false} ExpandKeysAppend(a: seq<string>, b: seq<string>)
    ensures ExpandKeys(a + b) == ExpandKeys(a) + ExpandKeys(b)
  {
    if |a| > 0 {
      assert (a + b)[0] == a[0];
      assert (a + b)[1..] == a[1..] + b;
      ExpandKeysAppend(a[1..], b);
    } else {
      assert a + b == b;
    }
  }

  /** A keyword is in the expansion exactly when one of the keys expands to it. */
  lemma {:induction false} ExpandKeysMembers(ks: seq<string>)
    ensures forall x :: x in ExpandKeys(ks) <==> exists k :: k in ks && x in ExpansionOf(k)
    ensures forall i :: 0 <= i < |ExpandKeys(ks)| ==> |ExpandKeys(ks)[i]| > 0
  {
    if |ks| > 0 {
      ExpandKeysMembers(ks[1..]);
      assert forall k :: k in ks <==> k == ks[0] || k in ks[1..];
    }
  }

  /** `expand_query_terms`: the expansions of the entities, in entity order. */
  function ExpandQueryTerms(entities: Dict<string, string>): (r: seq<string>)
    ensures forall x :: x in r <==> exists k :: k in Keys(entities) && x in ExpansionOf(k)
    ensures forall i :: 0 <= i < |r| ==> |r[i]| > 0
  {
    ExpandKeysMembers(Keys(entities));
    ExpandKeys(Keys(entities))
  }

  /** The search terms of `main`: `tokens + expand_query_terms(ents)`. */
  function SearchTerms(query: string): (r: seq<string>)
    ensures ParseQuery(query) <= r
    ensures forall x :: x in r[|ParseQuery(query)|..] <==>
              exists k :: k in ParseQuery(query) && k in Keys(KgEntities) && x in ExpansionOf(k)
    ensures forall i :: 0 <= i < |r| ==> |r[i]| > 0
    ensures r == ParseQuery(query) + ExpandKeys(Dedup(Known(ParseQuery(query))))
  {
    var tokens := ParseQuery(query);
    LinkEntitiesMembers(tokens);
    LinkEntitiesKeys(tokens);
    var r := tokens + ExpandQueryTerms(LinkEntities(tokens));
    assert r[|tokens|..] == ExpandQueryTerms(LinkEntities(tokens));
    r
  }

  /** The excerpt a document yields: that of the first term, in list order,
      that matches in it (the loop's `break`). */
  function DocExcerpt(text: string, terms: seq<string>): Option<string>
  {
    if |terms| == 0 then None
    else
      match Excerpt(text, terms[0])
      case Some(e) => Some(e)
      case None => DocExcerpt(text, terms[1..])
  }

  /** A document yields an excerpt exactly when one of the terms occurs in
      it. */
  lemma {:induction false} DocExcerptSome(text: string, terms: seq<string>)
    ensures DocExcerpt(text, terms).Some? <==> exists t :: t in terms && ContainsCI(text, t)
  {
    if |terms| > 0 {
      assert forall t :: t in terms <==> t == terms[0] || t in terms[1..];
      DocExcerptSome(text, terms[1..]);
    }
  }

  /** The excerpt a document yields is that of the first term that occurs
      in it. */
  lemma {:induction false} DocExcerptIndex(text: string, terms: seq<string>) returns (i: nat)
    requires DocExcerpt(text, terms).Some?
    ensures i < |terms| && Excerpt(text, terms[i]) == DocExcerpt(text, terms)
    ensures forall j :: 0 <= j < i ==> !ContainsCI(text, terms[j])
  {
    if Excerpt(text, terms[0]).Some? {
      i := 0;
    } else {
      var k := DocExcerptIndex(text, terms[1..]);
      i := k + 1;
      forall j | 0 < j < i
        ensures !ContainsCI(text, terms[j])
      {
        assert terms[j] == terms[1..][j - 1];
      }
    }
  }

  /** Both together: a document yields an excerpt exactly when one of the
      terms occurs in it, and then it is the excerpt of the first such
      term. */
  lemma DocExcerptFirstTerm(text: string, terms: seq<string>)
    ensures DocExcerpt(text, terms).Some? <==> exists t :: t in terms && ContainsCI(text, t)
    ensures DocExcerpt(text, terms).Some? ==>
              exists i :: 0 <= i < |terms| && Excerpt(text, terms[i]) == DocExcerpt(text, terms)
                && forall j :: 0 <= j < i ==> !ContainsCI(text, terms[j])
  {
    DocExcerptSome(text, terms);
    if DocExcerpt(text, terms).Some? {
      var i := DocExcerptIndex(text, terms);
    }
  }

  /** `retrieve_documents`: for every document, in corpus order, in which some
      term occurs, `hits[name]` is set to its excerpt. */
  function RetrieveDocuments(terms: seq<string>, corpus: seq<Doc>): Dict<string, string>
  {
    Scan(corpus, text => DocExcerpt(text, terms))
  }

  /** A file name is a hit exactly when some document of that name contains
      one of the terms. */
  lemma RetrieveKeys(terms: seq<string>, corpus: seq<Doc>)
    ensures forall k :: k in Keys(RetrieveDocuments(terms, corpus)) <==>
              exists doc :: doc in corpus && doc.0 == k && exists t :: t in terms && ContainsCI(doc.1, t)
  {
    ScanKeys(corpus, text => DocExcerpt(text, terms));
    forall doc | doc in corpus
      ensures DocExcerpt(doc.1, terms).Some? <==> exists t :: t in terms && ContainsCI(doc.1, t)
    {
      DocExcerptFirstTerm(doc.1, terms);
    }
  }

  /** Every hit holds the excerpt, for the first matching term, of a document
      of that name. */
  lemma RetrieveValues(terms: seq<string>, corpus: seq<Doc>)
    ensures forall h :: h in RetrieveDocuments(terms, corpus) ==>
              exists doc :: doc in corpus && doc.0 == h.0 && DocExcerpt(doc.1, terms) == Some(h.1)
  {
    ScanValues(corpus, text => DocExcerpt(text, terms));
  }

  /** With distinct file names (one directory), every matching document's
      excerpt is exactly what is stored under its name. */
  lemma RetrieveDistinctNames(terms: seq<string>, corpus: seq<Doc>, j: nat)
    requires Distinct(Keys(corpus)) && j < |corpus| && exists t :: t in terms && ContainsCI(corpus[j].1, t)
    ensures Get(RetrieveDocuments(terms, corpus), corpus[j].0) == DocExcerpt(corpus[j].1, terms)
  {
    DocExcerptFirstTerm(corpus[j].1, terms);
    ScanDistinctNames(corpus, text => DocExcerpt(text, terms), j);
  }

  /** An excerpt contains its term, ignoring case. */
  lemma WindowContainsTerm(e: string, text: string, term: string, p: nat, k: nat)
    requires IsWindow(e, text, term, p, k)
    ensures ContainsCI(e, term)
  {
    IsSubstringWitness(Lower(term), Lower(e), k);
  }

  /** Every retrieved excerpt scores at least one against the terms that
      retrieved it. */
  lemma RetrievedHitsScore(terms: seq<string>, corpus: seq<Doc>)
    ensures forall h :: h in RetrieveDocuments(terms, corpus) ==> Score(h.1, terms) > 0
  {
    var r := RetrieveDocuments(terms, corpus);
    RetrieveValues(terms, corpus);
    forall h | h in r
      ensures Score(h.1, terms) > 0
    {
      var doc :| doc in corpus && doc.0 == h.0 && DocExcerpt(doc.1, terms) == Some(h.1);
      DocExcerptFirstTerm(doc.1, terms);
      var a :| 0 <= a < |terms| && Excerpt(doc.1, terms[a]) == Some(h.1)
                 && forall b :: 0 <= b < a ==> !ContainsCI(doc.1, terms[b]);
      var p: nat, k: nat :| IsWindow(h.1, doc.1, terms[a], p, k);
      WindowContainsTerm(h.1, doc.1, terms[a], p, k);
      ScorePositiveIff(h.1, terms);
    }
  }

  /** The whole search of `main` up to display: every ranked result scores
      at least one, and the results are the retrieved documents. */
  function Search(query: string, corpus: seq<Doc>): (ranked: Dict<string, string>)
    ensures forall h :: h in ranked <==> h in RetrieveDocuments(SearchTerms(query), corpus)
    ensures forall h :: h in ranked ==> Score(h.1, SearchTerms(query)) > 0
    ensures StrictlyRanked(ranked, SearchTerms(query))
  {
    var terms := SearchTerms(query);
    var hits := RetrieveDocuments(terms, corpus);
    RetrievedHitsScore(terms, corpus);
    var ranked := RankResults(hits, terms);
    assert forall h :: h in ranked <==> h in multiset(hits);
    ranked
  }

  /** A query without word characters retrieves nothing. */
  lemma EmptyQueryFindsNothing(query: string, corpus: seq<Doc>)
    requires Kept(query, QueryChar) == []
    ensures Search(query, corpus) == []
  {
    var tokens := ParseQuery(query);
    assert LinkEntities(tokens) == [];
    NoTermsNoHits(corpus);
  }

  lemma NoTermsNoHits(corpus: seq<Doc>)
    ensures RetrieveDocuments([], corpus) == []
  {
    ScanNothing(corpus, text => DocExcerpt(text, []));
  }

  /** The attributes of one node. */
  type Attrs = map<string, string>

  /** An undirected graph: attributed nodes and unordered edges. */
  datatype Graph = Graph(nodes: map<string, Attrs>, edges: set<set<string>>)

  /** `g.add_node(n, **attrs)`: adds the node, or updates the attributes of
      the existing one. */
  function AddNode(g: Graph, n: string, attrs: Attrs): Graph
  {
    var current := if n in g.nodes then g.nodes[n] else map[];
    g.(nodes := g.nodes[n := current + attrs])
  }

  /** `g.add_edge(a, b)`. */
  function AddEdge(g: Graph, a: string, b: string): Graph
  {
    g.(edges := g.edges + {{a, b}})
  }

  /** `g.nodes[n].get(key)`. */
  function Attr(a: Attrs, key: string): Option<string>
  {
    if key in a then Some(a[key]) else None
  }

  function EntityNode(uri: string): Attrs
  {
    map["uri" := uri, "type" := "entity"]
  }

  function ConceptNode(): Attrs
  {
    map["type" := "concept"]
  }

  function Values<K, V>(d: seq<(K, V)>): seq<V>
  {
    seq(|d|, i requires 0 <= i < |d| => d[i].1)
  }

  /** Every term-to-identifier pair adds the two nodes and an edge between
      them, in order, starting from the empty graph. */
  function AddEntities(entities: seq<(string, string)>): Graph
  {
    if |entities| == 0 then Graph(map[], {})
    else
      var n := |entities| - 1;
      AddPair(AddEntities(entities[..n]), entities[n].0, entities[n].1)
  }

  /** The nodes are the terms and the identifiers. */
  lemma {:induction false} SubgraphNodes(entities: seq<(string, string)>)
    ensures AddEntities(entities).nodes.Keys == (set p | p in entities :: p.0) + (set p | p in entities :: p.1)
  {
    if |entities| > 0 {
      var prefix := entities[..|entities| - 1];
      SubgraphNodes(prefix);
      assert forall p :: p in entities <==> p in prefix || p == entities[|entities| - 1];
    }
  }

  /** There is one edge per pair, between its term and its identifier. */
  lemma {:induction false} SubgraphEdges(entities: seq<(string, string)>)
    ensures AddEntities(entities).edges == set p | p in entities :: {p.0, p.1}
  {
    if |entities| > 0 {
      var prefix := entities[..|entities| - 1];
      SubgraphEdges(prefix);
      assert forall p :: p in entities <==> p in prefix || p == entities[|entities| - 1];
    }
  }

  /** Every node has a type. */
  lemma {:induction false} SubgraphTyped(entities: seq<(string, string)>)
    ensures forall x :: x in AddEntities(entities).nodes ==> "type" in AddEntities(entities).nodes[x]
  {
    if |entities| > 0 {
      SubgraphTyped(entities[..|entities| - 1]);
    }
  }

  /** Adding one pair to the graph of `AddEntities`. */
  function AddPair(g: Graph, term: string, uri: string): Graph
  {
    AddEdge(AddNode(AddNode(g, term, EntityNode(uri)), uri, ConceptNode()), term, uri)
  }

  /** Every term carries its identifier as the `uri` attribute. */
  lemma {:induction false} SubgraphUris(entities: seq<(string, string)>)
    requires Distinct(Keys(entities))
    ensures forall p :: p in entities ==>
              p.0 in AddEntities(entities).nodes && Attr(AddEntities(entities).nodes[p.0], "uri") == Some(p.1)
  {
    if |entities| > 0 {
      var n := |entities| - 1;
      var prefix := entities[..n];
      assert Keys(prefix) == Keys(entities)[..n];
      SubgraphUris(prefix);
      DistinctLast(Keys(entities));
      assert Keys(entities)[n] == entities[n].0;
      KeyOfMember(prefix);
      UriStep(AddEntities(prefix), prefix, entities[n].0, entities[n].1);
      assert entities == prefix + [entities[n]];
    }
  }

  lemma UriStep(g: Graph, prefix: seq<(string, string)>, term: string, uri: string)
    requires forall p :: p in prefix ==> p.0 in g.nodes && Attr(g.nodes[p.0], "uri") == Some(p.1)
    requires forall p :: p in prefix ==> p.0 != term
    ensures forall p :: p in prefix + [(term, uri)] ==>
              p.0 in AddPair(g, term, uri).nodes && Attr(AddPair(g, term, uri).nodes[p.0], "uri") == Some(p.1)
  {
    assert forall p :: p in prefix + [(term, uri)] <==> p in prefix || p == (term, uri);
  }

  /** A node that is no identifier is an entity; a node that is no term is
      a concept and carries nothing else. */
  lemma {:induction false} SubgraphKinds(entities: seq<(string, string)>)
    ensures forall x :: x in AddEntities(entities).nodes && x !in Values(entities) ==>
              Attr(AddEntities(entities).nodes[x], "type") == Some("entity")
    ensures forall x :: x in AddEntities(entities).nodes && x !in Keys(entities) ==>
              AddEntities(entities).nodes[x] == ConceptNode()
  {
    if |entities| > 0 {
      var n := |entities| - 1;
      var prefix := entities[..n];
      SubgraphKinds(prefix);
      assert Keys(entities) == Keys(prefix) + [entities[n].0];
      assert Values(entities) == Values(prefix) + [entities[n].1];
    }
  }

  /** `build_semantic_subgraph`. */
  function BuildSubgraph(entities: Dict<string, string>): (g: Graph)
    ensures g.nodes.Keys == (set p | p in entities :: p.0) + (set p | p in entities :: p.1)
    ensures g.edges == set p | p in entities :: {p.0, p.1}
    ensures forall x :: x in g.nodes ==> "type" in g.nodes[x]
    ensures forall p :: p in entities ==> p.0 in g.nodes && Attr(g.nodes[p.0], "uri") == Some(p.1)
    ensures forall x :: x in g.nodes && x !in Values(entities) ==> Attr(g.nodes[x], "type") == Some("entity")
    ensures forall x :: x in g.nodes && x !in Keys(entities) ==> g.nodes[x] == ConceptNode()
  {
    SubgraphNodes(entities);
    SubgraphEdges(entities);
    SubgraphTyped(entities);
    SubgraphUris(entities);
    SubgraphKinds(entities);
    AddEntities(entities)
  }
}
