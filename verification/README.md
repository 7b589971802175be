# ESG archive search and curation, modelled in Dafny

This project models the keyword-search and metadata-curation logic of the
"active archive" demo in Dafny, and proves what it does. The demo answers
ESG questions over a corpus of reports through a small mock knowledge graph.

The model has three parts:

- **Search, variant A** (`src/kg_search.py`), modules `KgSearch`,
  `RegexWindow` and `Ranking`:
  - the query is cut into `[\w']` tokens;
  - tokens that are exact keys of the entity table are linked to their
    URIs;
  - the linked entities are expanded through the expansion table;
  - each document yields the excerpt `.{0,40}TERM.{0,40}` of the first
    term that occurs in it, ignoring case;
  - the hits are ranked by keyword count;
  - the term/URI subgraph is built.
- **Search, variant B** (`src/kg_exploration.py` over `src/kg_interface.py`),
  modules `KgExploration` and `KgInterface`:
  - the query is cut into `\w` tokens;
  - entities are found by case-insensitive substring search;
  - the expansion is de-duplicated in first-occurrence order;
  - each hit is a 200-character preview.
- **Curation** (`src/rag_curation.py` and `src/rag_curation_b.py`), modules
  `RagCuration` and `RagCurationB`:
  - keyword sentences are selected;
  - knowledge-graph facts are looked up;
  - the prompt is built;
  - the rule-based year, metric, unit and cited passage are extracted;
  - the curator stamp is applied;
  - the `CO2` line filter and the watched-acronym lookup of the second
    pipeline.

Python's own behaviour is modelled by supporting modules:
- `Dicts`: insertion-ordered dicts, as sequences of pairs with distinct keys.
- `Seqs`: `dict.fromkeys` as `Dedup`.
- `Lines`: `str.split('\n')`, `'\n'.join`, `str.strip` and `str.split(sep)[-1]`.
- `Tokenize`: `re.findall` over a character class.
- `Sentences`: the sentence splitter `re.split(r'(?<=[.!?])\s+', …)`.
- `Strings`: ASCII case mapping and Python's string order.
- `Corpus`: the per-file scan loop shared by both search variants.

The corpus is a parameter: a sequence of (file name, text) pairs standing
for the `data/*.txt` files in glob order. The curator's clock is a
parameter too.

Where the source and its design notes disagree, the model follows the code.
- **Ranking ties.** `rank_results` sorts the (score, name, snippet) triples
  in reverse. So equal scores are ordered by *descending* file name, not by
  discovery order. `Ranking.RankIgnoresHitOrder` proves that the input
  order does not matter at all.
- **Case sensitivity.**
  - `link_entities_to_kg` is case-sensitive, so `co2` links to nothing.
  - `find_similar_documents` also matches `CO2` case-sensitively
    (`RagCurationB.LowerCaseIsMissed`).
  - `retrieve_external_knowledge` compares whole whitespace-separated
    words after upper-casing, so `CO2.` is missed there. The substring
    search of the interface does find it
    (`RagCurationB.PunctuationHidesAcronym`).
- **Cited passage with no passages.** When there are no passages, the
  cited passage is the instruction line of the prompt
  (`RagCuration.NoPassagesCitesInstruction`).
- **Regex window.** The excerpt is modelled exactly, as the leftmost match
  with greedy backtracking, and not only as a relation. The relation
  (`RegexWindow.IsWindow`) is then proved about it.
- **Sentence splitter.** It is modelled exactly, with a round-trip lemma.

## Model

| member | source | states |
|---|---|---|
| KgSearch.ParseQuery | src/kg_search.py:21-23 | the tokens are non-empty runs of word characters and apostrophes; concatenated they give exactly the query's word and apostrophe characters in order; the query is the tokens, in order, with stretches free of those characters between them (non-empty between two tokens, so every token is maximal), and no other list of tokens cuts the query that way |
| KgSearch.Known | src/kg_search.py:36 | a token is kept iff it is an exact, case-sensitive key of the entity table; the kept tokens are a subsequence of the tokens, in their order, and every occurrence of a known token is kept (same multiplicity) |
| KgSearch.LinkEntitiesKeys | src/kg_search.py:35-36 | the linked keys are the known tokens, each once, in first-occurrence order |
| KgSearch.LinkEntitiesMembers | src/kg_search.py:35-36 | a key is linked iff it is a token and a key of the entity table, so unknown tokens such as `co2` are dropped |
| KgSearch.LinkEntitiesValues | src/kg_search.py:29-36 | every linked key maps to its value in the entity table |
| KgSearch.LinkEntitiesOrder | src/kg_search.py:35-36 | linked keys appear in the order the tokens first mention them |
| KgSearch.ExpansionOf | src/kg_search.py:42-50 | a key of the expansion table gets its table entry, any other token the empty list; every expansion term is non-empty |
| KgSearch.ExpandKeysAppend | src/kg_search.py:47-51 | expanding a concatenation of keys gives the concatenation of the expansions: per-entity lists in entity order, nothing removed |
| KgSearch.ExpandKeysMembers | src/kg_search.py:47-51 | a term is in the expansion iff it is in the expansion list of one of the keys |
| KgSearch.ExpandQueryTerms | src/kg_search.py:47-51 | a term is produced iff some entity's expansion list holds it; entities without an entry contribute nothing |
| KgSearch.SearchTerms | src/kg_search.py:112-114 | the search terms are the tokens, duplicates kept, followed by the expansion lists of the known tokens taken once each in order of first mention; each term is non-empty, and a term after the tokens is in the expansion of some known token |
| KgSearch.DocExcerptSome | src/kg_search.py:62-66 | a document yields an excerpt iff some term occurs in it ignoring case |
| KgSearch.DocExcerptIndex | src/kg_search.py:62-66 | the excerpt is the window of the first term in list order that occurs; no earlier term occurs |
| KgSearch.DocExcerptFirstTerm | src/kg_search.py:62-66 | both facts together: an excerpt iff some term occurs, and then it is the first occurring term's window |
| KgSearch.RetrieveKeys | src/kg_search.py:57-67 | a file name is a hit iff some document of that name contains a term ignoring case |
| KgSearch.RetrieveValues | src/kg_search.py:57-67 | every hit is the excerpt of a document of that name |
| KgSearch.RetrieveDistinctNames | src/kg_search.py:59-66 | with distinct file names, each matching document's hit is its own excerpt |
| KgSearch.WindowContainsTerm | src/kg_search.py:63 | a window contains its term ignoring case |
| KgSearch.RetrievedHitsScore | src/kg_search.py:63-76 | every retrieved excerpt scores above zero against the terms that found it |
| KgSearch.Search | src/kg_search.py:112-116 | the ranked hits are exactly the retrieved hits for the composed term list, each scores above zero, and they fall strictly by (score, name) |
| KgSearch.EmptyQueryFindsNothing | src/kg_search.py:112-116 | a query without word characters finds nothing |
| KgSearch.NoTermsNoHits | src/kg_search.py:57-67 | an empty term list finds nothing |
| KgSearch.SubgraphNodes | src/kg_search.py:85-91 | the nodes are exactly the terms and the URIs |
| KgSearch.SubgraphEdges | src/kg_search.py:85-91 | the edges are exactly the term–URI pairs |
| KgSearch.SubgraphTyped | src/kg_search.py:88-89 | every node has a type |
| KgSearch.SubgraphUris | src/kg_search.py:87-88 | every term node carries its URI |
| KgSearch.SubgraphKinds | src/kg_search.py:88-89 | a node that is not a URI is typed `entity`; a node that is not a term is a plain `concept` node |
| KgSearch.BuildSubgraph | src/kg_search.py:85-91 | all of the above for `build_semantic_subgraph`: no other nodes or edges |
| RegexWindow.DotRunBounds | src/kg_search.py:63 | `.{0,40}` consumes at most 40 characters, none of them a newline |
| RegexWindow.BackOffFound | src/kg_search.py:63 | backtracking the leading `.{0,40}` lands only on an occurrence of the term |
| RegexWindow.BackOffReachesStart | src/kg_search.py:63 | if the term occurs at the start position, backtracking finds a match |
| RegexWindow.MatchFromIsSpan | src/kg_search.py:63 | a match found at a position is a well-formed span around an occurrence |
| RegexWindow.SearchFromIsSpan | src/kg_search.py:63 | the leftmost match found by the search is a well-formed span |
| RegexWindow.MatchFromAtOccurrence | src/kg_search.py:63 | a match attempt starting at an occurrence of the term succeeds |
| RegexWindow.SearchFromFinds | src/kg_search.py:63 | if a match exists at or after a position, the search finds one |
| RegexWindow.NotFoundMeansAbsent | src/kg_search.py:63 | a failed search means the term does not occur ignoring case |
| RegexWindow.SpanIsWindow | src/kg_search.py:63-65 | `m.group(0)` is a slice of the text with at most 40 newline-free characters each side of a case-insensitive occurrence of the term |
| RegexWindow.Excerpt | src/kg_search.py:63-65 | an excerpt exists iff the term occurs ignoring case, and it is such a window |
| Ranking.CountCI | src/kg_search.py:76 | the lower-cased occurrence count is positive iff the term occurs ignoring case |
| Ranking.ScoreAppend | src/kg_search.py:76 | the score is additive over the term list, so repeated terms count again |
| Ranking.ScorePositiveIff | src/kg_search.py:76 | the score is positive iff some term occurs in the snippet ignoring case |
| Ranking.AtLeastTotal | src/kg_search.py:77-78 | any two hits are comparable under the reverse tuple order |
| Ranking.AtLeastAntisymmetric | src/kg_search.py:77-78 | two hits that rank at least as high as each other are equal |
| Ranking.AtLeastTransitive | src/kg_search.py:77-78 | the reverse tuple order is transitive |
| Ranking.InsertPerm | src/kg_search.py:78 | insertion adds exactly the one hit |
| Ranking.InsertRanked | src/kg_search.py:78 | insertion into a ranked list keeps it ranked |
| Ranking.SortPerm | src/kg_search.py:78 | sorting is a permutation of the hits |
| Ranking.SortRanked | src/kg_search.py:78 | the sorted hits are in non-increasing (score, name, snippet) order |
| Ranking.RankedUnique | src/kg_search.py:78 | two ranked orders of the same hits are identical, so the sort result is determined |
| Ranking.SortKeepsKeysDistinct | src/kg_search.py:74-79 | sorting hits with distinct file names keeps them distinct |
| Ranking.RankedStrictly | src/kg_search.py:77-79 | with distinct names, a ranked list has strictly falling scores or, at equal scores, strictly falling names |
| Ranking.RankResults | src/kg_search.py:73-79 | the ranking holds exactly the hits, each once; scores do not increase, and equal scores come in descending file-name order |
| Ranking.RankIgnoresHitOrder | src/kg_search.py:73-79 | the ranking depends only on which hits there are, not on their discovery order |
| Strings.StrLeTotal | src/kg_search.py:78 | Python string order is total |
| Strings.StrLeAntisymmetric | src/kg_search.py:78 | Python string order is antisymmetric |
| Strings.StrLeTransitive | src/kg_search.py:78 | Python string order is transitive |
| Tokenize.RunsKeepContent | src/kg_search.py:22 | `re.findall` over a character class keeps exactly the class's characters, in order |
| Tokenize.RunsAreMaximal | src/kg_search.py:22 | there are exactly as many tokens as places where a run of class characters ends |
| Tokenize.RunsTokenize | src/kg_search.py:22 | the text is the tokens, in order, with class-free gaps around them, the gaps between two tokens non-empty, so each token is a whole maximal run |
| Tokenize.RunsUnique | src/kg_search.py:22 | any cut of the text into non-empty class runs and class-free gaps, inner gaps non-empty, has exactly the tokens and gaps computed |
| Tokenize.RunsInText | src/kg_search.py:22 | every token is a piece of the query |
| Corpus.ScanKeys | src/kg_exploration.py:23-30 | a file name is a hit iff some document of that name yields an excerpt |
| Corpus.ScanValues | src/kg_exploration.py:23-30 | every hit is what a document of that name yields |
| Corpus.ScanDistinctNames | src/kg_exploration.py:23-30 | with distinct file names, a yielding document's hit is its own excerpt |
| Corpus.ScanNothing | src/kg_exploration.py:23-30 | when no document yields anything, there are no hits |
| KgInterface.Mentioned | src/kg_interface.py:21-23 | the names yielded are those whose lower case occurs in the lower-cased query, in table order |
| KgInterface.SearchEntities | src/kg_interface.py:19-23 | only entity-table keys are yielded, each once, in table order, exactly those mentioned ignoring case |
| KgInterface.EntityInfo | src/kg_interface.py:25-27 | the table value for a known entity, the empty string iff unknown |
| KgInterface.RelatedEntities | src/kg_interface.py:29-30 | the table list for a listed entity, the empty list iff unlisted |
| KgInterface.EntityNames | src/kg_interface.py:8-12 | the entity table holds `ESG`, `CO2` and `Scope 1`, in that order |
| KgInterface.TooLongToOccur | src/kg_interface.py:22 | a name longer than the query is never found |
| KgInterface.EmptyQueryFindsNoEntity | src/kg_interface.py:21-23 | an empty query yields nothing |
| KgInterface.SearchFindsInsideWords | src/kg_interface.py:22 | `co2x` yields `CO2` |
| KgInterface.ScopeAloneMissesScope1 | src/kg_interface.py:22 | `Scope` alone does not yield `Scope 1` |
| KgInterface.Scope1HasNoRelatedTerms | src/kg_interface.py:8-17 | `Scope 1` has information but no related terms |
| KgExploration.ParseQuery | src/kg_exploration.py:12-13 | the tokens are non-empty runs of word characters keeping all word characters in order; the query is the tokens, in order, with word-free stretches between them (non-empty between two tokens), and no other list of tokens cuts the query that way |
| KgExploration.TokensHaveNoSpaceOrApostrophe | src/kg_exploration.py:13 | no token contains a space or an apostrophe |
| KgExploration.TokenNeverFindsScope1 | src/kg_exploration.py:13-18 | a parsed token can never yield `Scope 1` |
| KgExploration.RelatedOfEntitiesMembers | src/kg_exploration.py:18-19 | a term is contributed iff it is related to one of the entities |
| KgExploration.FoundRelatedMembers | src/kg_exploration.py:17-19 | a term is contributed iff it is related to an entity some token mentions |
| KgExploration.ExpandQuery | src/kg_exploration.py:15-20 | no duplicates; every token appears, and the distinct tokens form a prefix; each element is a token or a related term of a mentioned entity; first-occurrence order |
| KgExploration.ExpandNothing | src/kg_exploration.py:15-20 | no tokens give an empty expansion |
| KgExploration.AnyTermInIff | src/kg_exploration.py:26-29 | the term loop succeeds iff some term occurs ignoring case |
| KgExploration.Preview | src/kg_exploration.py:28 | at most 200 leading characters of the content followed by `...` |
| KgExploration.SearchCorpusKeys | src/kg_exploration.py:22-30 | a file name is a hit iff some document of that name contains a term ignoring case |
| KgExploration.SearchCorpusValues | src/kg_exploration.py:22-30 | every hit is the preview of a document of that name, whichever term matched |
| KgExploration.SearchCorpusPreviews | src/kg_exploration.py:28 | every hit has at most 203 characters and ends in `...` |
| KgExploration.SearchWithoutTerms | src/kg_exploration.py:22-30 | an empty term list finds nothing |
| Seqs.DedupDistinct | src/kg_exploration.py:20 | `dict.fromkeys` changes nothing in a list without duplicates |
| Seqs.DedupFirstOccurrenceOrder | src/kg_exploration.py:20 | `dict.fromkeys` keeps the order of first occurrences |
| Seqs.DedupPrefix | src/kg_exploration.py:16-20 | de-duplicating a list that starts with the tokens starts with the de-duplicated tokens |
| Sentences.SentencesRoundTrip | src/rag_curation.py:36 | the sentences with the removed whitespace runs put back give the text |
| Sentences.GapsAreSpace | src/rag_curation.py:36 | every removed run is non-empty whitespace |
| Sentences.SentencesEndWithTerminator | src/rag_curation.py:36 | every sentence but the last ends in `.`, `!` or `?` |
| Sentences.SentencesStartOutsideSpace | src/rag_curation.py:36 | no later sentence starts with whitespace: the removed runs are maximal |
| Sentences.SentencesHaveNoBreak | src/rag_curation.py:36 | no sentence contains a place where the pattern matches |
| Sentences.SentencesInText | src/rag_curation.py:36 | every sentence is a piece of the text |
| RagCuration.KeywordSentences | src/rag_curation.py:37-40 | an order-preserving subsequence holding every keyword sentence as often as the text does, and nothing else |
| RagCuration.RetrieveInternalPassages | src/rag_curation.py:34-42 | the first five keyword sentences, or all of them when there are fewer, repeats kept, in document order; each mentions a keyword and is a piece of the text; fewer than five only when no other sentence qualifies |
| RagCuration.NoKeywordsNoPassages | src/rag_curation.py:37-40 | an empty keyword list gives no passages |
| RagCuration.KgFact | src/rag_curation.py:48-55 | the table's non-empty fact for a known entity, the empty string otherwise |
| RagCuration.KgFactsKeys | src/rag_curation.py:53-55 | one key per distinct input entity, in first-occurrence order |
| RagCuration.KgFactsValues | src/rag_curation.py:53-55 | every entity maps to its fact or to the empty string |
| RagCuration.FactLines | src/rag_curation.py:62 | one `* k: v` line per fact with a non-empty value, and no other lines |
| RagCuration.FactLinesAppend | src/rag_curation.py:62 | the facts block follows the dict's order: the lines of two runs of facts are the first run's lines followed by the second's |
| RagCuration.OneFactLine | src/rag_curation.py:62 | a single fact gives the line `* k: v` exactly when its value is non-empty |
| RagCuration.KnownFactsOnly | src/rag_curation.py:53-62 | the fact lines of looked-up entities are exactly those of the entities the table knows |
| RagCuration.CitedPassage | src/rag_curation.py:89 | the cited passage is a single line |
| RagCuration.AfterLastMarker | src/rag_curation.py:61-73 | when no passage contains the marker, what follows the last `Document excerpts:` is the passages block and the instructions |
| RagCuration.CitesFirstPassage | src/rag_curation.py:61-89 | when no passage contains the `Document excerpts:` marker and the first passage is non-empty and does not start with whitespace, the cited passage is the first line of the first passage (the whole passage when it is one line) |
| RagCuration.NoPassagesCitesInstruction | src/rag_curation.py:61-89 | with no passages, the cited passage is the instruction line of the prompt |
| RagCuration.FirstYear | src/rag_curation.py:82 | the leftmost position of a `20dd` digit run, if any |
| RagCuration.ExtractYear | src/rag_curation.py:82-85 | a year is found iff the text holds `20` followed by two digits; it lies in 2000..2099 and is the value at the leftmost such place |
| RagCuration.YearRoundTrip | src/rag_curation.py:82-85 | extracting the year from its own four digits gives the year back |
| RagCuration.YearFromEvidence | src/rag_curation.py:61-82 | the prompt holds a year iff a passage or a fact line does; the fixed prompt text contributes none |
| RagCuration.GenerateMetadata | src/rag_curation.py:84-90 | the metadata keys are year, metric, value, unit and cited_passage, in that order |
| RagCuration.GeneratedFields | src/rag_curation.py:82-90 | year is null iff the prompt has no year, else in 2000..2099; metric and unit are the fixed constants; value is what the value pattern found or null; cited_passage is the cited line |
| RagCuration.CuratorReview | src/rag_curation.py:96-101 | approved is true, the timestamp is the given one, every other key is unchanged, and at most the two review keys are added |
| RagCuration.ReviewTwice | src/rag_curation.py:96-101 | a second review only replaces the timestamp |
| RagCuration.ReviewedMetadataKeys | src/rag_curation.py:84-101 | reviewed metadata holds the five generated keys and then the two review keys |
| Lines.JoinSplit | src/rag_curation_b.py:15 | joining the pieces of a split with the separator gives the text back |
| Lines.SplitJoin | src/rag_curation.py:63 | splitting a join of separator-free lines gives the lines back |
| Lines.Strip | src/rag_curation_b.py:15 | the stripped text is a slice of the text with only whitespace around it, and neither starts nor ends with whitespace |
| Lines.SplitLastAfter | src/rag_curation.py:89 | the last piece of a split is what follows the last separator |
| RagCurationB.CarbonLinesMembers | src/rag_curation_b.py:15 | the comprehension keeps exactly the stripped lines that contain `CO2` |
| RagCurationB.CarbonLinesAppend | src/rag_curation_b.py:15 | the comprehension works line by line: a concatenation of lines gives the results of the first part followed by those of the second |
| RagCurationB.OneCarbonLine | src/rag_curation_b.py:15 | one line gives its stripped self when it contains `CO2`, and nothing otherwise |
| RagCurationB.FindSimilarDocuments | src/rag_curation_b.py:13-15 | the first three stripped lines containing `CO2`, or all of them when there are fewer, repeats kept, in text order; fewer than three only when there are no more |
| RagCurationB.SimilarDocumentsInText | src/rag_curation_b.py:15 | every result contains `CO2`, has no leading or trailing whitespace, and is a piece of the text |
| RagCurationB.NoCarbonNoDocuments | src/rag_curation_b.py:15 | a text without `CO2` gives nothing |
| RagCurationB.LowerCaseIsMissed | src/rag_curation_b.py:15 | `co2` does not count |
| RagCurationB.RetrieveExternalKnowledge | src/rag_curation_b.py:17-23 | a key is present iff it is `CO2`, `ESG` or `CSR` and some whitespace-separated word upper-cases to it; `CSR` and only `CSR` maps to the empty string; the others map to their entity-table value |
| RagCurationB.KnowledgeWithinSearch | src/rag_curation_b.py:17-23 | every found key other than `CSR` is also found by the interface's substring search |
| RagCurationB.PunctuationHidesAcronym | src/rag_curation_b.py:19-21 | `CO2.` does not yield `CO2` here, though the substring search finds it |

## Left out

- PDF ingestion (`ingest_document`, `parse_pdf`) is left out: it calls a foreign PDF library.
- Logging and `setup_logging` are left out: they have no effect on any result.
- Reading files and globbing `data/*.txt` are left out. The corpus is a parameter, in glob order.
- The `corpus_glob` and `corpus_dir` arguments are not modelled. The first is ignored by the code anyway.
- `update_metadata_store`, the orchestrators (`curate_document`, `run_curation_pipeline`, `run_exploration_pipeline`) and the command-line entry points are left out: they are I/O.
- `display_results` is left out: it only prints.
- The language-model placeholders (`llm_interface.py`, `generate_summary`, `generate_tags`) are left out: they stand for an external service.
- RagCuration.GenerateMetadata: the value regex `(\d+[\.,]?\d*)\s*(?:Mt|t|tonnes)` is not modelled. Its result is a parameter, so the value field is stated only as "what the pattern found, or null".
- RagCuration.CuratorReview: `datetime.utcnow().isoformat()` is a parameter. The review returns a new dict instead of changing the caller's in place. This is the same value, but the aliasing is not modelled.
- Case mapping (`str.lower`, `str.upper`, `re.I`), `\w` and `\d` cover ASCII letters, digits and `_` only. Non-ASCII characters are left unchanged, they are not word characters, and non-ASCII decimal digits (which Python's `\d` in `(20\d{2})` at src/rag_curation.py:82 and `\d+` at line 83 would match) are not digits here.
- The graph library is reduced to a map of attributed nodes and a set of unordered edges. Edge iteration order is not modelled.
- Generators (`search_entities`) are modelled as the list they yield.
- RagCurationB.RetrieveExternalKnowledge: the entities come from a Python `set`, so the result's key order is hash order. The model returns a `map`, which states the keys and values but not their order.
- Lines.SplitLastAfter: `str.split(sep)[-1]` is characterised only in the case the prompt needs, where the separator does not overlap itself and does not occur after the chosen occurrence.
- The multi-line prompt template is written as string constants that spell out the source's text, including its line breaks.
