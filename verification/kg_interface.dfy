/** The placeholder knowledge-graph interface: a fixed table of entity
    descriptions and a fixed table of related terms, searched by
    case-insensitive containment of the entity name in the query. */
module KgInterface {

  import opened Seqs
  import opened Strings
  import opened Dicts

  /** `MOCK_ENTITIES`. */
  const MockEntities: Dict<string, string> :=
    assert "ESG" != "CO2" by { assert "ESG"[0] != "CO2"[0]; }
    assert Keys(EntityTable) == ["ESG", "CO2", "Scope 1"];
    EntityTable

  const EntityTable := [
    ("ESG", "Environmental, Social, and Governance is a framework for..."),
    ("CO2", "Carbon dioxide, a greenhouse gas."),
    ("Scope 1", "Direct GHG emissions from owned or controlled sources.")
  ]

  /** `MOCK_RELATED`. */
  const MockRelated: Dict<string, seq<string>> :=
    assert "ESG" != "CO2" by { assert "ESG"[0] != "CO2"[0]; }
    assert Keys(RelatedTable) == ["ESG", "CO2"];
    RelatedTable

  const RelatedTable := [
    ("ESG", ["CSR", "sustainability"]),
    ("CO2", ["greenhouse gas", "emissions"])
  ]

  /** The names among `ks`, in order, that occur in `query` ignoring case. */
  function Mentioned(ks: seq<string>, query: string): (r: seq<string>)
    ensures forall k :: k in r <==> k in ks && ContainsCI(query, k)
    ensures Subseq(r, ks)
  {
    if |ks| == 0 then []
    else
      assert forall k :: k in ks <==> k == ks[0] || k in ks[1..];
      if ContainsCI(query, ks[0]) then [ks[0]] + Mentioned(ks[1..], query)
      else Mentioned(ks[1..], query)
  }

  /** `search_entities(query)`, the generator read as the list it yields:
      the entity names contained in the query ignoring case, in table order,
      each once. */
  function SearchEntities(query: string): (r: seq<string>)
    ensures forall k :: k in r <==> k in Keys(MockEntities) && ContainsCI(query, k)
    ensures Subseq(r, Keys(MockEntities))
    ensures Distinct(r)
  {
    var r := Mentioned(Keys(MockEntities), query);
    SubseqDistinct(r, Keys(MockEntities));
    r
  }

  /** `get_entity_info(entity)`: empty exactly for an unknown entity (every
      description in the table is non-empty). */
  function EntityInfo(entity: string): (r: string)
    ensures r == "" <==> entity !in Keys(MockEntities)
    ensures entity in Keys(MockEntities) ==> (entity, r) in MockEntities
  {
    GetOr(MockEntities, entity, "")
  }

  /** `get_related_entities(entity)`: empty exactly for an entity without
      related terms. */
  function RelatedEntities(entity: string): (r: seq<string>)
    ensures r == [] <==> entity !in Keys(MockRelated)
    ensures entity in Keys(MockRelated) ==> (entity, r) in MockRelated
  {
    GetOr(MockRelated, entity, [])
  }

  lemma EntityNames()
    ensures Keys(MockEntities) == ["ESG", "CO2", "Scope 1"]
  {
  }

  /** A name longer than the query cannot occur in it. */
  lemma TooLongToOccur(query: string, k: string)
    requires |query| < |k|
    ensures !ContainsCI(query, k)
  {
  }

  /** The empty query mentions no entity. */
  lemma EmptyQueryFindsNoEntity()
    ensures SearchEntities("") == []
  {
    EntityNames();
    forall k | k in Keys(MockEntities)
      ensures !ContainsCI("", k)
    {
      TooLongToOccur("", k);
    }
    var r := SearchEntities("");
    assert forall i :: 0 <= i < |r| ==> r[i] !in r;
  }

  /** Containment is not word matching: a query that merely contains `co2`
      finds the entity. */
  lemma SearchFindsInsideWords()
    ensures "CO2" in SearchEntities("co2x")
  {
    EntityNames();
    assert Lower("CO2") == "co2" by { assert LowerChar('C') == 'c' && LowerChar('O') == 'o'; }
    IsSubstringWitness(Lower("CO2"), Lower("co2x"), 0);
  }

  /** The name `Scope` alone does not find the entity `Scope 1`. */
  lemma ScopeAloneMissesScope1()
    ensures "Scope 1" !in SearchEntities("Scope")
  {
    TooLongToOccur("Scope", "Scope 1");
  }

  /** `Scope 1` is a known entity without related terms. */
  lemma Scope1HasNoRelatedTerms()
    ensures EntityInfo("Scope 1") != "" && RelatedEntities("Scope 1") == []
  {
    EntityNames();
    assert Keys(MockRelated) == ["ESG", "CO2"];
  }
}
