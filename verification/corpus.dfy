/** The document corpus both searches scan, given as a sequence of
    `(file name, text)` pairs in the order the directory listing yields them,
    and the scan itself: every document, in order, that yields an excerpt is
    recorded under its name, `hits[name] = excerpt`. */
module Corpus {

  import opened Wrappers
  import opened Seqs
  import opened Dicts

  /** A document: its file name and its text. */
  type Doc = (string, string)

  /** Scans the corpus; `excerpt` says what a text yields, if anything. */
  function Scan(corpus: seq<Doc>, excerpt: string -> Option<string>): Dict<string, string>
  {
    if |corpus| == 0 then []
    else
      var d := Scan(corpus[..|corpus| - 1], excerpt);
      var doc := corpus[|corpus| - 1];
      match excerpt(doc.1)
      case None => d
      case Some(e) => Put(d, doc.0, e)
  }

  /** A name is a hit exactly when some document of that name yields an
      excerpt. */
  lemma {:induction false} ScanKeys(corpus: seq<Doc>, excerpt: string -> Option<string>)
    ensures forall k :: k in Keys(Scan(corpus, excerpt)) <==>
              exists doc :: doc in corpus && doc.0 == k && excerpt(doc.1).Some?
  {
    if |corpus| > 0 {
      var prefix := corpus[..|corpus| - 1];
      ScanKeys(prefix, excerpt);
      assert forall doc :: doc in corpus <==> doc in prefix || doc == corpus[|corpus| - 1];
    }
  }

  /** Every hit holds the excerpt of a document of that name. */
  lemma {:induction false} ScanValues(corpus: seq<Doc>, excerpt: string -> Option<string>)
    ensures forall h :: h in Scan(corpus, excerpt) ==>
              exists doc :: doc in corpus && doc.0 == h.0 && excerpt(doc.1) == Some(h.1)
  {
    if |corpus| > 0 {
      var prefix := corpus[..|corpus| - 1];
      ScanValues(prefix, excerpt);
      assert forall doc :: doc in prefix ==> doc in corpus;
      var doc := corpus[|corpus| - 1];
      if excerpt(doc.1).Some? {
        PutMembers(Scan(prefix, excerpt), doc.0, excerpt(doc.1).value);
      }
    }
  }

  /** With distinct file names (one directory), every document that yields
      an excerpt is stored under its name with exactly that excerpt. */
  lemma ScanDistinctNames(corpus: seq<Doc>, excerpt: string -> Option<string>, j: nat)
    requires Distinct(Keys(corpus)) && j < |corpus| && excerpt(corpus[j].1).Some?
    ensures Get(Scan(corpus, excerpt), corpus[j].0) == excerpt(corpus[j].1)
  {
    var r := Scan(corpus, excerpt);
    var k := corpus[j].0;
    ScanKeys(corpus, excerpt);
    assert k in Keys(r);
    var v := Get(r, k).value;
    assert (k, v) in r;
    ScanValues(corpus, excerpt);
    var doc :| doc in corpus && doc.0 == k && excerpt(doc.1) == Some(v);
    SameKeySameEntry(corpus, doc, j);
  }

  /** A scan in which no text yields anything finds nothing. */
  lemma {:induction false} ScanNothing(corpus: seq<Doc>, excerpt: string -> Option<string>)
    requires forall doc :: doc in corpus ==> excerpt(doc.1).None?
    ensures Scan(corpus, excerpt) == []
  {
    if |corpus| > 0 {
      var prefix := corpus[..|corpus| - 1];
      assert forall doc :: doc in prefix ==> doc in corpus;
      ScanNothing(prefix, excerpt);
    }
  }
}
