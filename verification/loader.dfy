/** a2/Loader.java, loading: each fetched page's text is counted, every word of a page
    raises that word's document frequency once, and each page's counts are then replaced by
    their TF-IDF weights. Fetching, titles and the page list's I/O are left out: a page is
    given by its body text. */
module Loader {
  import opened Wrappers
  import opened Seqs
  import opened ChainedTable
  import opened CountMap
  import opened Similarity
  import opened Tfidf
  import opened Text

  /** The per-word counters built for the pages, in order: `Similarity.countWords(text)`. */
  function CountAll(texts: seq<string>): (docs: seq<Map<real>>)
    ensures |docs| == |texts| && forall i | 0 <= i < |texts| :: docs[i] == CountWords(texts[i])
  {
    seq(|texts|, i requires 0 <= i < |texts| => CountWords(texts[i]))
  }

  /** `wordDocCount`: for each page in turn, `wordDocCount.add(node.key)` for each node of
      its counter. */
  function DocFrequencies(docs: seq<Map<real>>): (df: Map<real>)
    ensures |df.buckets| > 0
    decreases |docs|
  {
    if docs == [] then New()
    else TouchAll(DocFrequencies(docs[..|docs| - 1]), KeysOf(Entries(docs[|docs| - 1])))
  }

  /** A word's document frequency is the number of pages whose counter holds it; the table
      stores no values. */
  lemma {:induction false} DocFrequenciesSpec(docs: seq<Map<real>>, w: string)
    requires forall i | 0 <= i < |docs| :: Valid(docs[i])
    ensures Valid(DocFrequencies(docs))
    ensures GetCount(DocFrequencies(docs), w) == DocsContaining(docs, w)
    ensures Get(DocFrequencies(docs), w) == None
    ensures w in KeySet(DocFrequencies(docs)) <==> DocsContaining(docs, w) > 0
    decreases |docs|
  {
    if docs == [] {
      LookupSpec(New<real>(), w);
    } else {
      var init := docs[..|docs| - 1];
      var last := docs[|docs| - 1];
      DocFrequenciesSpec(init, w);
      TouchAllSpec(DocFrequencies(init), KeysOf(Entries(last)), w);
      KeysOfNodes(last, w);
      NodesSpec(DocFrequencies(docs));
    }
  }

  /** The calculator `main` builds: the document frequencies and `totalDocs`, one per page. */
  function LoadCalculator(texts: seq<string>): (c: Calculator)
    ensures ValidCalculator(c) && c.totalDocs == |texts|
  {
    var docs := CountAll(texts);
    DocFrequenciesSpec(docs, "");
    Calculator(DocFrequencies(docs), |texts|)
  }

  /** Step 2 of `main`: each page's counts replaced by `computeTfidf(counts)`. */
  function PageVectors(texts: seq<string>, logRatio: (int, int) -> real): (vs: seq<Map<real>>)
    ensures |vs| == |texts|
  {
    var c := LoadCalculator(texts);
    seq(|texts|, i requires 0 <= i < |texts| => ComputeTfidf(c, CountWords(texts[i]), logRatio))
  }

  /** Every page vector is a well-formed table whose nodes all carry a weight, holding
      exactly the page's tokens. */
  lemma PageVectorsSpec(texts: seq<string>, logRatio: (int, int) -> real, i: nat, w: string)
    requires i < |texts|
    ensures Valid(PageVectors(texts, logRatio)[i]) && Valued(PageVectors(texts, logRatio)[i])
    ensures w in KeySet(PageVectors(texts, logRatio)[i]) <==> w in Tokens(texts[i])
  {
    var c := LoadCalculator(texts);
    assert PageVectors(texts, logRatio)[i] == ComputeTfidf(c, CountWords(texts[i]), logRatio);
    ComputeTfidfSpec(c, CountWords(texts[i]), logRatio, w);
    ComputeTfidfValued(c, CountWords(texts[i]), logRatio);
    CountWordsSpec(texts[i], w);
  }

  /** A token of page i weighs `tf * ln(N / df)` where N is the number of pages and df, the
      number of pages holding the token, is at least 1: within the loader the idf never
      divides by zero. */
  lemma PageWeight(texts: seq<string>, logRatio: (int, int) -> real, i: nat, w: string)
    requires i < |texts| && w in Tokens(texts[i])
    ensures 1 <= DocsContaining(CountAll(texts), w) <= |texts|
    ensures Get(PageVectors(texts, logRatio)[i], w)
         == Some(TfIdf(multiset(Tokens(texts[i]))[w], |Tokens(texts[i])|,
                       logRatio(|texts|, DocsContaining(CountAll(texts), w))))
  {
    var docs := CountAll(texts);
    var c := LoadCalculator(texts);
    CountWordsSpec(texts[i], w);
    DocsContainingBounds(docs, i, w);
    forall j | 0 <= j < |docs| ensures Valid(docs[j]) {
      CountWordsSpec(texts[j], w);
    }
    DocFrequenciesSpec(docs, w);
    assert GetCount(c.wordDocCount, w) == DocsContaining(docs, w);
    ComputeTfidfForTextWeight(c, texts[i], logRatio, w);
    assert PageVectors(texts, logRatio)[i] == ComputeTfidfForText(c, texts[i], logRatio);
  }
}
