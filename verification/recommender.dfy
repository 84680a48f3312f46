/** src/Main.java, the recommender behind the page drop-down: word counting, document
    frequencies, TF-IDF weights, the two-loop cosine similarity and the top-two scan of
    `findSimilar`, all over the value-only table of src/HT.java. The window, the urls file
    and the fetching are left out: a page is given by its body text. */
module Recommender {
  import opened Wrappers
  import opened Seqs
  import opened ChainedTable
  import opened ValueMap
  import opened Vectors
  import opened Text
  import Similarity
  import Tfidf

  // ---------------------------------------------------------------------------
  // Counting

  /** A counter's next value: 1 for a word not seen yet (`current == null`), else one more. */
  function Next(current: Option<int>): int
  {
    match current
    case None => 1
    case Some(n) => n + 1
  }

  /** The loop `countWords` and `countDocumentFrequencies` share: for each word in turn,
      `add(word, current == null ? 1 : current + 1)`. */
  function RaiseAll(t: Map<int>, ws: seq<string>): (r: Map<int>)
    requires |t.buckets| > 0
    ensures |r.buckets| >= |t.buckets|
    decreases |ws|
  {
    if ws == [] then t
    else
      var m := RaiseAll(t, ws[..|ws| - 1]);
      var w := ws[|ws| - 1];
      Add(m, w, Next(Get(m, w)))
  }

  /** A counter raised `n` times; an absent counter stays absent when `n` is 0. */
  function Raised(current: Option<int>, n: nat): Option<int>
  {
    if n == 0 then current else Some(current.GetOr(0) + n)
  }

  /** Each counter rises by the number of times its word is listed, starting from 0 for a
      word the table lacks. */
  lemma {:induction false} RaiseAllSpec(t: Map<int>, ws: seq<string>, w: string)
    requires Valid(t)
    ensures Valid(RaiseAll(t, ws))
    ensures Get(RaiseAll(t, ws), w) == Raised(Get(t, w), multiset(ws)[w])
    decreases |ws|
  {
    if ws != [] {
      var init := ws[..|ws| - 1];
      var last := ws[|ws| - 1];
      var m := RaiseAll(t, init);
      assert RaiseAll(t, ws) == Add(m, last, Next(Get(m, last)));
      RaiseAllSpec(t, init, w);
      RaiseStep(m, last, w, Get(t, w), multiset(init)[w]);
      MultisetLast(ws);
      assert multiset(ws)[w] == multiset(init)[w] + if last == w then 1 else 0;
    }
  }

  /** One step of the loop raises the counter of the word it meets by one. */
  lemma RaiseStep(m: Map<int>, k: string, w: string, current: Option<int>, n: nat)
    requires Valid(m) && Get(m, w) == Raised(current, n)
    ensures Valid(Add(m, k, Next(Get(m, k))))
    ensures Get(Add(m, k, Next(Get(m, k))), w) == Raised(current, n + if k == w then 1 else 0)
  {
    AddGet(m, k, Next(Get(m, k)), w);
  }

  /** The words listed join the key set and nothing else does. */
  lemma RaiseAllKeys(t: Map<int>, ws: seq<string>, w: string)
    requires Valid(t)
    ensures w in KeySet(RaiseAll(t, ws)) <==> w in KeySet(t) || w in ws
  {
    RaiseAllSpec(t, ws, w);
    LookupSpec(t, w);
    LookupSpec(RaiseAll(t, ws), w);
  }

  /** `countWords(text)`: the tokens of the split text, the empty ones included, counted. */
  function CountWords(text: string): (m: Map<int>)
  {
    RaiseAll(New(), RawTokens(text))
  }

  /** Counting a list of words from an empty table gives each listed word its number of
      occurrences, and no other word a counter. */
  lemma CountAllSpec(ws: seq<string>, w: string)
    ensures Valid(RaiseAll(New(), ws))
    ensures Get(RaiseAll(New(), ws), w) == if w in ws then Some(multiset(ws)[w]) else None
    ensures w in KeySet(RaiseAll(New(), ws)) <==> w in ws
  {
    var t := New<int>();
    LookupSpec(t, w);
    RaiseAllSpec(t, ws, w);
    RaiseAllKeys(t, ws, w);
    RaisedFromNothing(multiset(ws)[w]);
  }

  lemma RaisedFromNothing(n: nat)
    ensures Raised(None, n) == if n == 0 then None else Some(n)
  {
  }

  /** Every token, the empty one included, is counted by its number of occurrences, and
      nothing else has a counter. */
  lemma CountWordsSpec(text: string, w: string)
    ensures Valid(CountWords(text))
    ensures Get(CountWords(text), w) == if w in RawTokens(text) then Some(multiset(RawTokens(text))[w]) else None
    ensures w in KeySet(CountWords(text)) <==> w in RawTokens(text)
  {
    CountAllSpec(RawTokens(text), w);
  }

  /** Case folding and the deletion of punctuation merge "Hi!" and "hi,". */
  lemma CountWordsExample()
    ensures Get(CountWords("Hi! hi,"), "hi") == Some(2)
    ensures Get(CountWords("Hi! hi,"), "Hi") == None
  {
    var ws := RawTokens("Hi! hi,");
    HelloClean();
    WordsHiHi();
    assert ws == ["hi", "hi"];
    assert multiset(ws)["hi"] == 2;
    CountWordsSpec("Hi! hi,", "hi");
    CountWordsSpec("Hi! hi,", "Hi");
  }

  /** The empty token is counted: a text with nothing left after the deletion, or one that
      starts with a space, records the word "". */
  lemma CountWordsKeepsEmpty()
    ensures Get(CountWords("!"), "") == Some(1)
    ensures Get(CountWords(" a"), "") == Some(1)
  {
    SplitExamples();
    CountWordsSpec("!", "");
    CountWordsSpec(" a", "");
  }

  /** `countDocumentFrequencies(wordCounts)`: each word of the page raises its document
      frequency. */
  function CountDocumentFrequencies(df: Map<int>, wordCounts: Map<int>): (r: Map<int>)
    requires |df.buckets| > 0
  {
    RaiseAll(df, KeysOf(Entries(wordCounts)))
  }

  /** A word of the page has its document frequency raised by exactly one (from 0 when the
      table lacks it); every other word keeps its entry. */
  lemma CountDocumentFrequenciesSpec(df: Map<int>, wordCounts: Map<int>, w: string)
    requires Valid(df) && WellFormed(wordCounts)
    ensures Valid(CountDocumentFrequencies(df, wordCounts))
    ensures Get(CountDocumentFrequencies(df, wordCounts), w)
         == Raised(Get(df, w), if w in KeySet(wordCounts) then 1 else 0)
  {
    RaiseAllSpec(df, KeysOf(Entries(wordCounts)), w);
    KeysOfNodes(wordCounts, w);
  }

  /** `countDocumentFrequencies` applied to each page's counter in turn, from an empty table. */
  function DocumentFrequencies(docs: seq<Map<int>>): (df: Map<int>)
    ensures |df.buckets| > 0
    decreases |docs|
  {
    if docs == [] then New()
    else CountDocumentFrequencies(DocumentFrequencies(docs[..|docs| - 1]), docs[|docs| - 1])
  }

  /** A word's document frequency is the number of pages holding it, and a word no page
      holds has none. */
  lemma DocumentFrequenciesSpec(docs: seq<Map<int>>, w: string)
    requires forall i | 0 <= i < |docs| :: WellFormed(docs[i])
    ensures Valid(DocumentFrequencies(docs))
    ensures Get(DocumentFrequencies(docs), w)
         == if DocsContaining(docs, w) == 0 then None else Some(DocsContaining(docs, w))
  {
    DocumentFrequenciesRaised(docs, w);
    RaisedFromNothing(DocsContaining(docs, w));
  }

  lemma {:induction false} DocumentFrequenciesRaised(docs: seq<Map<int>>, w: string)
    requires forall i | 0 <= i < |docs| :: WellFormed(docs[i])
    ensures Valid(DocumentFrequencies(docs))
    ensures Get(DocumentFrequencies(docs), w) == Raised(None, DocsContaining(docs, w))
    decreases |docs|
  {
    if docs == [] {
      LookupSpec(New<int>(), w);
    } else {
      var init := docs[..|docs| - 1];
      var last := docs[|docs| - 1];
      var prev := DocumentFrequencies(init);
      var h := if w in KeySet(last) then 1 else 0;
      assert DocumentFrequencies(docs) == CountDocumentFrequencies(prev, last);
      assert DocsContaining(docs, w) == DocsContaining(init, w) + h;
      assert Valid(prev) && Get(prev, w) == Raised(None, DocsContaining(init, w)) by {
        DocumentFrequenciesRaised(init, w);
      }
      assert WellFormed(last);
      CountDocumentFrequenciesSpec(prev, last, w);
      RaisedTwice(None, DocsContaining(init, w), h);
    }
  }

  lemma RaisedTwice(current: Option<int>, a: nat, b: nat)
    ensures Raised(Raised(current, a), b) == Raised(current, a + b)
  {
  }

  // ---------------------------------------------------------------------------
  // TF-IDF

  /** The counters `countWords` builds: every count at least 1. */
  ghost predicate Counted(t: Map<int>)
  {
    forall e | e in Entries(t) :: e.val >= 1
  }

  function Value(e: Entry<int>): int
  {
    e.val
  }

  /** `totalWords`: the counts summed over the nodes. */
  function TotalWords(t: Map<int>): int
  {
    Sum(Entries(t), Value)
  }

  /** Counts of at least 1 add up to at least the number of nodes. */
  lemma {:induction false} SumAtLeast(ns: seq<Entry<int>>)
    requires forall e | e in ns :: e.val >= 1
    ensures Sum(ns, Value) >= |ns|
    decreases |ns|
  {
    if ns != [] {
      assert ns[0] in ns;
      forall e | e in ns[1..] ensures e.val >= 1 {
        assert e in ns;
      }
      SumAtLeast(ns[1..]);
    }
  }

  /** Every word of the page has a document frequency, so the unboxing of
      `wordDocCount.get(word)` never meets null. */
  predicate AllKnown(df: Map<int>, ns: seq<Entry<int>>)
    requires |df.buckets| > 0
  {
    forall i | 0 <= i < |ns| :: Get(df, ns[i].key).Some?
  }

  /** The `(word, tf * idf)` pairs, one per node in node order, with
      `tf = wordFreq / totalWords` and `idf = ln(totalDocs / docsWithWord)`. */
  function TfidfPairs(df: Map<int>, totalDocs: int, ns: seq<Entry<int>>, totalWords: int, logRatio: (int, int) -> real)
    : (ops: seq<(string, real)>)
    requires |df.buckets| > 0 && AllKnown(df, ns)
    requires ns == [] || totalWords != 0
    ensures Written(ops) == KeysOf(ns)
  {
    seq(|ns|, i requires 0 <= i < |ns| =>
      (ns[i].key, Tfidf.TfIdf(ns[i].val, totalWords, logRatio(totalDocs, Get(df, ns[i].key).value))))
  }

  /** `calculateTFIDF(wordCounts)`: `None` when a word has no document frequency (the
      unboxing of null throws), otherwise the table of the pairs. */
  function CalculateTfidf(df: Map<int>, totalDocs: int, wordCounts: Map<int>, logRatio: (int, int) -> real)
    : Option<Map<real>>
    requires Valid(df) && Valid(wordCounts) && Counted(wordCounts)
  {
    var ns := Entries(wordCounts);
    if !AllKnown(df, ns) then None
    else
      SumAtLeast(ns);
      Some(AddAll(New(), TfidfPairs(df, totalDocs, ns, TotalWords(wordCounts), logRatio)))
  }

  /** The computation fails exactly when some word of the page has no document frequency. */
  lemma CalculateTfidfFails(df: Map<int>, totalDocs: int, wordCounts: Map<int>, logRatio: (int, int) -> real)
    requires Valid(df) && Valid(wordCounts) && Counted(wordCounts)
    ensures CalculateTfidf(df, totalDocs, wordCounts, logRatio).None?
        <==> exists w | w in KeySet(wordCounts) :: w !in KeySet(df)
  {
    var ns := Entries(wordCounts);
    if !AllKnown(df, ns) {
      var i :| 0 <= i < |ns| && Get(df, ns[i].key).None?;
      LookupSpec(df, ns[i].key);
      assert ns[i].key in KeySet(wordCounts);
    } else {
      forall w | w in KeySet(wordCounts) ensures w in KeySet(df) {
        var i :| 0 <= i < |ns| && ns[i].key == w;
        LookupSpec(df, w);
      }
    }
  }

  /** On success the weights cover exactly the page's words, each weighing
      `(count / totalWords) * ln(totalDocs / df)`, with `totalWords` the sum of the counts. */
  lemma CalculateTfidfSpec(df: Map<int>, totalDocs: int, wordCounts: Map<int>, logRatio: (int, int) -> real, w: string)
    requires Valid(df) && Valid(wordCounts) && Counted(wordCounts)
    requires CalculateTfidf(df, totalDocs, wordCounts, logRatio).Some?
    ensures var r := CalculateTfidf(df, totalDocs, wordCounts, logRatio).value;
            && Valid(r)
            && (w in KeySet(r) <==> w in KeySet(wordCounts))
            && (w !in KeySet(wordCounts) ==> Get(r, w) == None)
    ensures w in KeySet(wordCounts) ==>
              && TotalWords(wordCounts) >= 1
              && Get(CalculateTfidf(df, totalDocs, wordCounts, logRatio).value, w)
                 == Some(Tfidf.TfIdf(Get(wordCounts, w).GetOr(0), TotalWords(wordCounts),
                                     logRatio(totalDocs, Get(df, w).GetOr(0))))
  {
    var ns := Entries(wordCounts);
    SumAtLeast(ns);
    var ops := TfidfPairs(df, totalDocs, ns, TotalWords(wordCounts), logRatio);
    assert CalculateTfidf(df, totalDocs, wordCounts, logRatio) == Some(AddAll(New(), ops));
    if w in KeySet(wordCounts) {
      PairsWeight(df, totalDocs, wordCounts, logRatio, w, ops);
    } else {
      PairsMiss(df, totalDocs, wordCounts, logRatio, w, ops);
    }
  }

  /** A word of the page gets its weight. */
  lemma PairsWeight(df: Map<int>, totalDocs: int, wordCounts: Map<int>, logRatio: (int, int) -> real, w: string,
                    ops: seq<(string, real)>)
    requires Valid(df) && Valid(wordCounts) && AllKnown(df, Entries(wordCounts))
    requires TotalWords(wordCounts) >= |Entries(wordCounts)|
    requires ops == TfidfPairs(df, totalDocs, Entries(wordCounts), TotalWords(wordCounts), logRatio)
    requires w in KeySet(wordCounts)
    ensures TotalWords(wordCounts) >= 1
    ensures Valid(AddAll(New(), ops)) && w in KeySet(AddAll(New(), ops))
    ensures Get(AddAll(New(), ops), w)
         == Some(Tfidf.TfIdf(Get(wordCounts, w).GetOr(0), TotalWords(wordCounts), logRatio(totalDocs, Get(df, w).GetOr(0))))
  {
    var ns := Entries(wordCounts);
    var i :| 0 <= i < |ns| && ns[i].key == w;
    UniqueKeysDistinct(ns);
    LastValueUnique(ops, i);
    AddAllSpec(New(), ops, w);
    LookupSpec(wordCounts, w);
    assert ns[i] in ns;
    LookupSpec(AddAll(New(), ops), w);
  }

  /** A word outside the page gets nothing. */
  lemma PairsMiss(df: Map<int>, totalDocs: int, wordCounts: Map<int>, logRatio: (int, int) -> real, w: string,
                  ops: seq<(string, real)>)
    requires Valid(df) && Valid(wordCounts) && AllKnown(df, Entries(wordCounts))
    requires TotalWords(wordCounts) >= |Entries(wordCounts)|
    requires ops == TfidfPairs(df, totalDocs, Entries(wordCounts), TotalWords(wordCounts), logRatio)
    requires w !in KeySet(wordCounts)
    ensures Valid(AddAll(New(), ops)) && w !in KeySet(AddAll(New(), ops)) && Get(AddAll(New(), ops), w) == None
  {
    KeysOfKeySet(wordCounts, w);
    LastValueAbsent(ops, w);
    AddAllSpec(New(), ops, w);
    LookupSpec(New<real>(), w);
    LookupSpec(AddAll(New(), ops), w);
  }

  // ---------------------------------------------------------------------------
  // Similarity

  /** Nodes read as a vector: their (word, value) pairs in node order. */
  function Pairs(ns: seq<Entry<real>>): (v: Vec)
    ensures |v| == |ns| && forall i | 0 <= i < |ns| :: v[i] == (ns[i].key, ns[i].val)
  {
    seq(|ns|, i requires 0 <= i < |ns| => (ns[i].key, ns[i].val))
  }

  function VecOf(t: Map<real>): Vec
  {
    Pairs(Entries(t))
  }

  /** The first loop's `dot`: `score1 * score2` over the nodes of the first table, `score2`
      being the second table's value for the word or 0 when it has none. */
  function DotPass(ns: seq<Entry<real>>, t2: Map<real>): real
    requires |t2.buckets| > 0
  {
    if ns == [] then 0.0 else ns[0].val * Get(t2, ns[0].key).GetOr(0.0) + DotPass(ns[1..], t2)
  }

  /** The first loop's `mag1`: `score1 * score1` over the nodes of the first table. */
  function OwnSquares(ns: seq<Entry<real>>): (r: real)
    ensures r >= 0.0
  {
    if ns == [] then 0.0
    else
      SqNonNegative(ns[0].val);
      Sq(ns[0].val) + OwnSquares(ns[1..])
  }

  /** The first loop's part of `mag2`: `score2 * score2` over the nodes of the first table. */
  function SharedSquares(ns: seq<Entry<real>>, t2: Map<real>): (r: real)
    requires |t2.buckets| > 0
    ensures r >= 0.0
  {
    if ns == [] then 0.0
    else
      var x := Get(t2, ns[0].key).GetOr(0.0);
      SqNonNegative(x);
      Sq(x) + SharedSquares(ns[1..], t2)
  }

  /** The second loop's part of `mag2`: the squared values of the second table's nodes whose
      word the first table lacks. */
  function RestSquares(ns: seq<Entry<real>>, t1: Map<real>): (r: real)
    requires |t1.buckets| > 0
    ensures r >= 0.0
  {
    if ns == [] then 0.0
    else
      SqNonNegative(ns[0].val);
      (if Get(t1, ns[0].key).None? then Sq(ns[0].val) else 0.0) + RestSquares(ns[1..], t1)
  }

  /** `similarity(tfidf1, tfidf2)`: 0 when either magnitude is 0, otherwise the dot product
      over the product of the square roots of the magnitudes. */
  function PageSimilarity(t1: Map<real>, t2: Map<real>, sqrt: real -> real): real
    requires |t1.buckets| > 0 && |t2.buckets| > 0
    requires forall x: real :: x > 0.0 ==> sqrt(x) > 0.0
  {
    var e1 := Entries(t1);
    Similarity.CosineOf(DotPass(e1, t2), OwnSquares(e1), SharedSquares(e1, t2) + RestSquares(Entries(t2), t1), sqrt)
  }

  lemma VecOfKeys(t: Map<real>)
    requires WellFormed(t)
    ensures DistinctKeys(VecOf(t)) && Keys(VecOf(t)) == KeySet(t)
  {
  }

  /** Reading a word's weight off the vector gives what `get` returns, 0 standing for null. */
  lemma AtIsGet(t: Map<real>, w: string)
    requires WellFormed(t)
    ensures At(VecOf(t), w) == Get(t, w).GetOr(0.0)
  {
    var v := VecOf(t);
    var es := Entries(t);
    VecOfKeys(t);
    LookupSpec(t, w);
    match Lookup(t, w)
    case Some(e) =>
      var i :| 0 <= i < |es| && es[i] == e;
      AtListed(v, i);
    case None =>
      AtAbsent(v, w);
  }

  lemma {:induction false} DotPassIsDot(ns: seq<Entry<real>>, t2: Map<real>)
    requires WellFormed(t2)
    ensures DotPass(ns, t2) == Dot(Pairs(ns), VecOf(t2))
    decreases |ns|
  {
    if ns != [] {
      assert Pairs(ns)[1..] == Pairs(ns[1..]);
      AtIsGet(t2, ns[0].key);
      DotPassIsDot(ns[1..], t2);
    }
  }

  lemma {:induction false} OwnSquaresIsSumSq(ns: seq<Entry<real>>)
    ensures OwnSquares(ns) == SumSq(Pairs(ns))
    decreases |ns|
  {
    if ns != [] {
      assert Pairs(ns)[1..] == Pairs(ns[1..]);
      OwnSquaresIsSumSq(ns[1..]);
    }
  }

  /** The first loop's `score2 * score2` terms: the second table's squared weights read at
      the first table's words. */
  lemma {:induction false} SharedSquaresIsDot(ns: seq<Entry<real>>, t2: Map<real>)
    requires WellFormed(t2)
    ensures SharedSquares(ns, t2) == Dot(Ones(Pairs(ns)), Squares(VecOf(t2)))
    decreases |ns|
  {
    if ns != [] {
      assert Ones(Pairs(ns))[1..] == Ones(Pairs(ns[1..]));
      AtSquares(VecOf(t2), ns[0].key);
      AtIsGet(t2, ns[0].key);
      SharedSquaresIsDot(ns[1..], t2);
    }
  }

  /** The second loop's terms: the squared weights of the nodes whose word lies outside the
      first table. */
  lemma {:induction false} RestSquaresIsOutside(ns: seq<Entry<real>>, t1: Map<real>)
    requires WellFormed(t1)
    ensures RestSquares(ns, t1) == SumSqOutside(Pairs(ns), KeySet(t1))
    decreases |ns|
  {
    if ns != [] {
      assert Pairs(ns)[1..] == Pairs(ns[1..]);
      LookupSpec(t1, ns[0].key);
      RestSquaresIsOutside(ns[1..], t1);
    }
  }

  /** `mag2` is the sum of squares over every node of the second table: its shared words are
      counted in the first loop and the others in the second. */
  lemma SecondMagnitude(t1: Map<real>, t2: Map<real>)
    requires WellFormed(t1) && WellFormed(t2)
    ensures SharedSquares(Entries(t1), t2) + RestSquares(Entries(t2), t1) == SumSq(VecOf(t2))
  {
    VecOfKeys(t1);
    VecOfKeys(t2);
    SharedSquaresIsDot(Entries(t1), t2);
    RestSquaresIsOutside(Entries(t2), t1);
    TwoPassMagnitude(VecOf(t1), VecOf(t2));
  }

  /** The two loops compute the cosine of the two weight vectors. */
  lemma PageSimilarityIsCosine(t1: Map<real>, t2: Map<real>, sqrt: real -> real)
    requires WellFormed(t1) && WellFormed(t2) && |t1.buckets| > 0 && |t2.buckets| > 0
    requires forall x: real :: x > 0.0 ==> sqrt(x) > 0.0
    ensures PageSimilarity(t1, t2, sqrt) == Similarity.VecCosine(VecOf(t1), VecOf(t2), sqrt)
  {
    DotPassIsDot(Entries(t1), t2);
    OwnSquaresIsSumSq(Entries(t1));
    SecondMagnitude(t1, t2);
  }

  /** A page with all weights 0, or no words, scores 0 against any other, and the other way round. */
  lemma PageSimilarityZero(t1: Map<real>, t2: Map<real>, sqrt: real -> real)
    requires WellFormed(t1) && WellFormed(t2) && |t1.buckets| > 0 && |t2.buckets| > 0
    requires forall x: real :: x > 0.0 ==> sqrt(x) > 0.0
    requires SumSq(VecOf(t1)) == 0.0 || SumSq(VecOf(t2)) == 0.0
    ensures PageSimilarity(t1, t2, sqrt) == 0.0
  {
    OwnSquaresIsSumSq(Entries(t1));
    SecondMagnitude(t1, t2);
  }

  /** The score does not depend on which page is selected. */
  lemma PageSimilaritySymmetric(t1: Map<real>, t2: Map<real>, sqrt: real -> real)
    requires WellFormed(t1) && WellFormed(t2) && |t1.buckets| > 0 && |t2.buckets| > 0
    requires forall x: real :: x > 0.0 ==> sqrt(x) > 0.0
    ensures PageSimilarity(t1, t2, sqrt) == PageSimilarity(t2, t1, sqrt)
  {
    PageSimilarityIsCosine(t1, t2, sqrt);
    PageSimilarityIsCosine(t2, t1, sqrt);
    var u, v := VecOf(t1), VecOf(t2);
    VecOfKeys(t1);
    VecOfKeys(t2);
    DotSymmetric(u, v);
    Similarity.CosineOfSymmetric(Dot(u, v), SumSq(u), SumSq(v), sqrt);
  }

  /** A page scores 1 against itself unless all its weights are 0, given a square root that
      squares back. */
  lemma PageSimilaritySelf(t: Map<real>, sqrt: real -> real)
    requires WellFormed(t) && |t.buckets| > 0
    requires forall x: real :: x > 0.0 ==> sqrt(x) > 0.0 && sqrt(x) * sqrt(x) == x
    ensures PageSimilarity(t, t, sqrt) == if SumSq(VecOf(t)) == 0.0 then 0.0 else 1.0
  {
    PageSimilarityIsCosine(t, t, sqrt);
    VecOfKeys(t);
    DotSelf(VecOf(t));
    Similarity.CosineOfSelf(SumSq(VecOf(t)), sqrt);
  }

  // ---------------------------------------------------------------------------
  // findSimilar

  /** The scan's state: the best and second-best page so far with their scores; a page not
      recorded (`null`) goes with the score 0 it starts from. */
  datatype Pick = Pick(best: Option<nat>, bestScore: real, second: Option<nat>, secondScore: real)

  /** One iteration, on page i with its score: a new best pushes the old best into second
      place; otherwise a score above the second takes second place. */
  function Consider(p: Pick, i: nat, score: real): Pick
  {
    if score > p.bestScore then Pick(Some(i), score, p.best, p.bestScore)
    else if score > p.secondScore then Pick(p.best, p.bestScore, Some(i), score)
    else p
  }

  /** The loop over the first n pages, the selected page skipped. */
  function ScanPages(scores: seq<real>, selected: nat, n: nat): Pick
    requires n <= |scores|
    decreases n
  {
    if n == 0 then Pick(None, 0.0, None, 0.0)
    else
      var p := ScanPages(scores, selected, n - 1);
      if n - 1 == selected then p else Consider(p, n - 1, scores[n - 1])
  }

  /** The selected page's similarity to each page in turn. */
  function SimilarityScores(pages: seq<Map<real>>, selected: nat, sqrt: real -> real): (s: seq<real>)
    requires forall i | 0 <= i < |pages| :: |pages[i].buckets| > 0
    requires selected < |pages|
    requires forall x: real :: x > 0.0 ==> sqrt(x) > 0.0
    ensures |s| == |pages|
  {
    seq(|pages|, i requires 0 <= i < |pages| => PageSimilarity(pages[selected], pages[i], sqrt))
  }

  /** `findSimilar()`: nothing to show without pages; otherwise the scan over the scores of
      the selected page against every other page. */
  function FindSimilar(pages: seq<Map<real>>, selected: nat, sqrt: real -> real): Option<Pick>
    requires forall i | 0 <= i < |pages| :: |pages[i].buckets| > 0
    requires pages == [] || selected < |pages|
    requires forall x: real :: x > 0.0 ==> sqrt(x) > 0.0
  {
    if pages == [] then None
    else Some(ScanPages(SimilarityScores(pages, selected, sqrt), selected, |pages|))
  }

  /** What the scan records: never the selected page; a page only with its own, strictly
      positive score; a second page only below or level with a different best page;
      `bestScore >= secondScore >= 0`, an empty place keeping score 0. */
  ghost predicate Recorded(scores: seq<real>, selected: nat, n: nat, p: Pick)
    requires n <= |scores|
  {
    && p.bestScore >= p.secondScore >= 0.0
    && (p.best.None? ==> p.bestScore == 0.0 && p.second.None?)
    && (p.second.None? ==> p.secondScore == 0.0)
    && (p.best.Some? ==>
          p.best.value < n && p.best.value != selected && scores[p.best.value] == p.bestScore > 0.0)
    && (p.second.Some? ==>
          && p.second.value < n && p.second.value != selected && scores[p.second.value] == p.secondScore > 0.0
          && p.best.Some? && p.best != p.second)
  }

  /** No page outscores the best one, the best one is the first of its score, no page
      besides the best outscores the second, and the second is the first of its score
      among the pages besides the best. */
  ghost predicate TopTwo(scores: seq<real>, selected: nat, n: nat, p: Pick)
    requires n <= |scores|
  {
    && (forall i | 0 <= i < n && i != selected :: scores[i] <= p.bestScore)
    && (p.best.Some? ==> forall i | 0 <= i < n && i < p.best.value && i != selected :: scores[i] < p.bestScore)
    && (forall i | 0 <= i < n && i != selected && Some(i) != p.best :: scores[i] <= p.secondScore)
    && (p.second.Some? ==>
          forall i | 0 <= i < n && i < p.second.value && i != selected && Some(i) != p.best :: scores[i] < p.secondScore)
  }

  /** The scan keeps both descriptions true after every page. */
  lemma {:induction false} ScanPagesSpec(scores: seq<real>, selected: nat, n: nat)
    requires n <= |scores|
    ensures Recorded(scores, selected, n, ScanPages(scores, selected, n))
    ensures TopTwo(scores, selected, n, ScanPages(scores, selected, n))
    decreases n
  {
    if n > 0 {
      ScanPagesSpec(scores, selected, n - 1);
    }
  }

  /** `Recorded` and `TopTwo` leave no choice: two picks that both satisfy them are the same,
      so they describe the scan's outcome completely, ties included. */
  lemma PickUnique(scores: seq<real>, selected: nat, n: nat, p: Pick, q: Pick)
    requires n <= |scores|
    requires Recorded(scores, selected, n, p) && TopTwo(scores, selected, n, p)
    requires Recorded(scores, selected, n, q) && TopTwo(scores, selected, n, q)
    ensures p == q
  {
    if p.best.Some? && q.best.Some? {
      assert scores[p.best.value] <= q.bestScore && scores[q.best.value] <= p.bestScore;
    }
    if p.second.Some? && q.second.Some? {
      assert scores[p.second.value] <= q.secondScore && scores[q.second.value] <= p.secondScore;
    }
  }

  /** On a tie for second place the first page of that score stays second: with scores
      0.3, 0.5, 0.3 and the fourth page selected, page 0 is second, not page 2. */
  lemma SecondTieExample()
    ensures ScanPages([0.3, 0.5, 0.3, 0.0], 3, 4) == Pick(Some(1), 0.5, Some(0), 0.3)
  {
  }

  /** When page n becomes the best, the previous best moves to second place with its score. */
  lemma BestDemoted(scores: seq<real>, selected: nat, n: nat)
    requires n < |scores| && n != selected
    ensures var p, q := ScanPages(scores, selected, n), ScanPages(scores, selected, n + 1);
            (q.best == Some(n) <==> scores[n] > p.bestScore)
            && (q.best == Some(n) ==> q.second == p.best && q.secondScore == p.bestScore)
  {
    ScanPagesSpec(scores, selected, n);
  }

  /** Without pages nothing is shown. Otherwise the scan runs over the selected page's
      similarity to every page, so what it records and the top-two order it keeps are those
      of the similarity scores. */
  lemma FindSimilarSpec(pages: seq<Map<real>>, selected: nat, sqrt: real -> real)
    requires forall i | 0 <= i < |pages| :: |pages[i].buckets| > 0
    requires pages == [] || selected < |pages|
    requires forall x: real :: x > 0.0 ==> sqrt(x) > 0.0
    ensures FindSimilar(pages, selected, sqrt).None? <==> pages == []
    ensures FindSimilar(pages, selected, sqrt).Some? ==>
              var p := FindSimilar(pages, selected, sqrt).value;
              var s := SimilarityScores(pages, selected, sqrt);
              Recorded(s, selected, |pages|, p) && TopTwo(s, selected, |pages|, p)
  {
    if pages != [] {
      ScanPagesSpec(SimilarityScores(pages, selected, sqrt), selected, |pages|);
    }
  }

  // ---------------------------------------------------------------------------
  // Weights over a corpus

  /** Every counter `countWords` builds counts each of its words at least once. */
  lemma CountWordsCounted(text: string)
    ensures Valid(CountWords(text)) && Counted(CountWords(text))
  {
    var m := CountWords(text);
    CountWordsSpec(text, "");
    forall e | e in Entries(m) ensures e.val >= 1 {
      LookupSpec(m, e.key);
      CountWordsSpec(text, e.key);
    }
  }

  /** When the document frequencies come from folding `countDocumentFrequencies` over a
      corpus that holds the page, a word of the page weighs
      `(count / totalWords) * ln(totalDocs / df)` with `df` the number of pages holding it,
      between 1 and the corpus size. */
  lemma CorpusWeight(docs: seq<Map<int>>, j: nat, totalDocs: int, logRatio: (int, int) -> real, w: string)
    requires j < |docs| && forall i | 0 <= i < |docs| :: Valid(docs[i]) && Counted(docs[i])
    requires w in KeySet(docs[j])
    ensures Valid(DocumentFrequencies(docs))
    ensures CalculateTfidf(DocumentFrequencies(docs), totalDocs, docs[j], logRatio).Some?
    ensures var n := DocsContaining(docs, w);
            var r := CalculateTfidf(DocumentFrequencies(docs), totalDocs, docs[j], logRatio).value;
            && 1 <= n <= |docs|
            && TotalWords(docs[j]) >= 1
            && Valid(r)
            && Get(r, w) == Some(Tfidf.TfIdf(Get(docs[j], w).GetOr(0), TotalWords(docs[j]), logRatio(totalDocs, n)))
  {
    AllWordsKnown(docs, j, totalDocs, logRatio);
    CorpusFrequency(docs, j, w);
    CalculateTfidfSpec(DocumentFrequencies(docs), totalDocs, docs[j], logRatio, w);
  }

  lemma CorpusFrequency(docs: seq<Map<int>>, j: nat, w: string)
    requires j < |docs| && forall i | 0 <= i < |docs| :: WellFormed(docs[i])
    requires w in KeySet(docs[j])
    ensures 1 <= DocsContaining(docs, w) <= |docs|
    ensures Valid(DocumentFrequencies(docs))
    ensures Get(DocumentFrequencies(docs), w) == Some(DocsContaining(docs, w))
  {
    DocsContainingBounds(docs, j, w);
    DocumentFrequenciesSpec(docs, w);
  }

  /** After the fold every word of every page has a document frequency, so no page's
      weights fail. */
  lemma AllWordsKnown(docs: seq<Map<int>>, j: nat, totalDocs: int, logRatio: (int, int) -> real)
    requires j < |docs| && forall i | 0 <= i < |docs| :: Valid(docs[i]) && Counted(docs[i])
    ensures Valid(DocumentFrequencies(docs))
    ensures CalculateTfidf(DocumentFrequencies(docs), totalDocs, docs[j], logRatio).Some?
  {
    var df := DocumentFrequencies(docs);
    assert Valid(df) && forall w | w in KeySet(docs[j]) :: w in KeySet(df) by {
      assert forall i | 0 <= i < |docs| :: WellFormed(docs[i]);
      DocumentFrequenciesSpec(docs, "");
      forall w | w in KeySet(docs[j]) ensures w in KeySet(df) {
        FrequencyKnown(docs, j, w);
      }
    }
    CalculateTfidfFails(df, totalDocs, docs[j], logRatio);
  }

  lemma FrequencyKnown(docs: seq<Map<int>>, j: nat, w: string)
    requires j < |docs| && forall i | 0 <= i < |docs| :: WellFormed(docs[i])
    requires w in KeySet(docs[j])
    ensures w in KeySet(DocumentFrequencies(docs))
  {
    DocsContainingBounds(docs, j, w);
    DocumentFrequenciesSpec(docs, w);
    LookupSpec(DocumentFrequencies(docs), w);
  }
}
