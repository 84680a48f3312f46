/** a2/TfidfCalculator.java: term frequency times inverse document frequency. The whole
    expression `Math.log((double) totalDocs / df)` is the parameter `logRatio(totalDocs, df)`,
    so a document frequency of 0 is passed through exactly as the source does. */
module Tfidf {
  import opened Wrappers
  import opened Seqs
  import opened ChainedTable
  import opened CountMap
  import opened Similarity
  import opened Text

  /** A calculator: the document-frequency table and the number of documents. */
  datatype Calculator = Calculator(wordDocCount: Map<real>, totalDocs: int)

  ghost predicate ValidCalculator(c: Calculator)
  {
    Valid(c.wordDocCount)
  }

  /** With every count at least 1, the counts add up to at least the number of nodes. */
  lemma {:induction false} TotalCountAtLeast<X>(s: seq<Entry<Slot<X>>>)
    requires forall e | e in s :: e.val.count >= 1
    ensures TotalCount(s) >= |s|
    decreases |s|
  {
    if s != [] {
      assert s[0] in s;
      forall e | e in s[1..] ensures e.val.count >= 1 {
        assert e in s;
      }
      TotalCountAtLeast(s[1..]);
    }
  }

  /** `tf * idf` with `tf = count / total`. */
  function TfIdf(count: int, total: int, idf: real): real
    requires total != 0
  {
    (count as real / total as real) * idf
  }

  /** The `(word, tf * idf)` pairs computeTfidf adds, one per node in node order. */
  function WeightPairs(c: Calculator, ns: seq<Entry<Slot<real>>>, totalWords: int, logRatio: (int, int) -> real)
    : (ops: seq<(string, real)>)
    requires |c.wordDocCount.buckets| > 0
    requires ns == [] || totalWords > 0
    ensures Written(ops) == KeysOf(ns)
  {
    seq(|ns|, i requires 0 <= i < |ns| =>
      (ns[i].key, TfIdf(ns[i].val.count, totalWords, logRatio(c.totalDocs, GetCount(c.wordDocCount, ns[i].key)))))
  }

  /** `computeTfidf(wordCounts)`: `totalWords` is the sum of the nodes' counts; each node
      then adds its word with weight `(count / totalWords) * ln(totalDocs / df)`, the
      document frequency read with `getCount`. An empty table gives an empty result and
      evaluates no division. */
  function ComputeTfidf(c: Calculator, counts: Map<real>, logRatio: (int, int) -> real): (r: Map<real>)
    requires ValidCalculator(c) && Valid(counts)
    ensures Entries(counts) == [] ==> Entries(r) == []
  {
    var ns := Entries(counts);
    TotalCountAtLeast(ns);
    AddAll(New(), WeightPairs(c, ns, TotalCount(ns), logRatio))
  }

  /** `(count / totalWords) * ln(totalDocs / df)` for a word of a count table and a given
      document frequency. */
  function WeightFor(c: Calculator, counts: Map<real>, w: string, df: int, logRatio: (int, int) -> real): real
    requires Valid(counts)
  {
    var total := TotalCount(Entries(counts));
    if total == 0 then 0.0
    else TfIdf(GetCount(counts, w), total, logRatio(c.totalDocs, df))
  }

  /** The weight the calculator gives a word of a count table, its document frequency read
      with `getCount`. */
  function Weight(c: Calculator, counts: Map<real>, w: string, logRatio: (int, int) -> real): real
    requires ValidCalculator(c) && Valid(counts)
  {
    WeightFor(c, counts, w, GetCount(c.wordDocCount, w), logRatio)
  }

  /** The pair for the i-th node carries that node's word and its weight. */
  lemma WeightPairAt(c: Calculator, counts: Map<real>, logRatio: (int, int) -> real, i: nat)
    requires ValidCalculator(c) && Valid(counts) && i < |Entries(counts)|
    ensures TotalCount(Entries(counts)) > 0
    ensures LastValue(WeightPairs(c, Entries(counts), TotalCount(Entries(counts)), logRatio), Entries(counts)[i].key)
         == Some(Weight(c, counts, Entries(counts)[i].key, logRatio))
  {
    var ns := Entries(counts);
    TotalCountAtLeast(ns);
    var ops := WeightPairs(c, ns, TotalCount(ns), logRatio);
    var k := ns[i].key;
    var v := ops[i].1;
    assert LastValue(ops, k) == Some(v) by {
      UniqueKeysDistinct(ns);
      LastValueUnique(ops, i);
    }
    assert GetCount(counts, k) == ns[i].val.count by {
      LookupSpec(counts, k);
      assert ns[i] in ns;
    }
    assert v == Weight(c, counts, k, logRatio);
  }

  /** The output holds exactly the words of the count table, each once with count 1 and
      value `(count / totalWords) * ln(totalDocs / df)`. */
  lemma ComputeTfidfSpec(c: Calculator, counts: Map<real>, logRatio: (int, int) -> real, w: string)
    requires ValidCalculator(c) && Valid(counts)
    ensures Valid(ComputeTfidf(c, counts, logRatio))
    ensures w in KeySet(ComputeTfidf(c, counts, logRatio)) <==> w in KeySet(counts)
    ensures Get(ComputeTfidf(c, counts, logRatio), w)
         == if w in KeySet(counts) then Some(Weight(c, counts, w, logRatio)) else None
    ensures GetCount(ComputeTfidf(c, counts, logRatio), w) == if w in KeySet(counts) then 1 else 0
  {
    var ns := Entries(counts);
    TotalCountAtLeast(ns);
    var ops := WeightPairs(c, ns, TotalCount(ns), logRatio);
    assert ComputeTfidf(c, counts, logRatio) == AddAll(New(), ops);
    PairsShape(c, counts, logRatio, w, ops);
    if w in KeySet(counts) {
      PairsValue(c, counts, logRatio, w, ops);
    }
  }

  lemma PairsShape(c: Calculator, counts: Map<real>, logRatio: (int, int) -> real, w: string, ops: seq<(string, real)>)
    requires ValidCalculator(c) && Valid(counts)
    requires TotalCount(Entries(counts)) >= |Entries(counts)|
    requires ops == WeightPairs(c, Entries(counts), TotalCount(Entries(counts)), logRatio)
    ensures Valid(AddAll(New(), ops))
    ensures w in KeySet(AddAll(New(), ops)) <==> w in KeySet(counts)
    ensures GetCount(AddAll(New(), ops), w) == if w in KeySet(counts) then 1 else 0
    ensures w !in KeySet(counts) ==> Get(AddAll(New(), ops), w) == None
  {
    assert w in Written(ops) <==> w in KeySet(counts);
    UniqueKeysDistinct(Entries(counts));
    AddDistinctSpec(ops, w);
    if w !in Written(ops) {
      LastValueAbsent(ops, w);
    }
  }

  lemma PairsValue(c: Calculator, counts: Map<real>, logRatio: (int, int) -> real, w: string, ops: seq<(string, real)>)
    requires ValidCalculator(c) && Valid(counts)
    requires TotalCount(Entries(counts)) >= |Entries(counts)|
    requires ops == WeightPairs(c, Entries(counts), TotalCount(Entries(counts)), logRatio)
    requires w in KeySet(counts)
    ensures Get(AddAll(New(), ops), w) == Some(Weight(c, counts, w, logRatio))
  {
    var ns := Entries(counts);
    UniqueKeysDistinct(ns);
    AddDistinctSpec(ops, w);
    var i :| 0 <= i < |ns| && ns[i].key == w;
    WeightPairAt(c, counts, logRatio, i);
  }

  /** Every node of the output carries a value. */
  lemma ComputeTfidfValued(c: Calculator, counts: Map<real>, logRatio: (int, int) -> real)
    requires ValidCalculator(c) && Valid(counts)
    ensures Valid(ComputeTfidf(c, counts, logRatio)) && Valued(ComputeTfidf(c, counts, logRatio))
  {
    var r := ComputeTfidf(c, counts, logRatio);
    ComputeTfidfSpec(c, counts, logRatio, "");
    forall e | e in Entries(r) ensures e.val.value.Some? {
      ComputeTfidfSpec(c, counts, logRatio, e.key);
      LookupSpec(r, e.key);
    }
  }

  /** A word the document-frequency table has never seen is not special-cased: its idf is
      `ln(totalDocs / 0)`. */
  lemma UnseenWordWeight(c: Calculator, counts: Map<real>, logRatio: (int, int) -> real, w: string)
    requires ValidCalculator(c) && Valid(counts)
    requires w in KeySet(counts) && w !in KeySet(c.wordDocCount)
    ensures Get(ComputeTfidf(c, counts, logRatio), w) == Some(WeightFor(c, counts, w, 0, logRatio))
  {
    ComputeTfidfSpec(c, counts, logRatio, w);
    LookupSpec(c.wordDocCount, w);
  }

  /** `computeTfidfForText(text)`: the weights of the text's own word counts. */
  function ComputeTfidfForText(c: Calculator, text: string, logRatio: (int, int) -> real): Map<real>
    requires ValidCalculator(c)
  {
    ComputeTfidf(c, CountWords(text), logRatio)
  }

  /** A text's weights cover exactly its tokens, each carrying a value. */
  lemma ComputeTfidfForTextSpec(c: Calculator, text: string, logRatio: (int, int) -> real, w: string)
    requires ValidCalculator(c)
    ensures Valid(ComputeTfidfForText(c, text, logRatio)) && Valued(ComputeTfidfForText(c, text, logRatio))
    ensures w in KeySet(ComputeTfidfForText(c, text, logRatio)) <==> w in Tokens(text)
    ensures w !in Tokens(text) ==> Get(ComputeTfidfForText(c, text, logRatio), w) == None
  {
    var m := CountWords(text);
    CountWordsSpec(text, w);
    var r := ComputeTfidf(c, m, logRatio);
    assert ComputeTfidfForText(c, text, logRatio) == r;
    ComputeTfidfSpec(c, m, logRatio, w);
    ComputeTfidfValued(c, m, logRatio);
  }

  /** A token occurring n times among N tokens weighs `(n / N) * ln(totalDocs / df)`. */
  lemma ComputeTfidfForTextWeight(c: Calculator, text: string, logRatio: (int, int) -> real, w: string)
    requires ValidCalculator(c) && w in Tokens(text)
    ensures Get(ComputeTfidfForText(c, text, logRatio), w)
         == Some(TfIdf(multiset(Tokens(text))[w], |Tokens(text)|, logRatio(c.totalDocs, GetCount(c.wordDocCount, w))))
  {
    var m := CountWords(text);
    CountWordsSpec(text, w);
    ComputeTfidfSpec(c, m, logRatio, w);
    assert ComputeTfidfForText(c, text, logRatio) == ComputeTfidf(c, m, logRatio);
  }
}
