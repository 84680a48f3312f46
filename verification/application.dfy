/** a2/Application.java, the search behind the "Find Similar" button: the entered text is
    trimmed and rejected when blank, weighted with the calculator read back from the loader's
    file (`ReadCalculator`), sent to its nearest centroid, compared with every page of that
    cluster, and the two best-scoring pages are shown. The window, the stored files and the text layout are left out. */
module Application {
  import opened Wrappers
  import opened CountMap
  import opened Similarity
  import opened Tfidf
  import opened Clustering
  import opened ChainedTable
  import opened Text
  import opened Loader

  // ---------------------------------------------------------------------------
  // String.trim

  /** Java's `trim` drops leading and trailing characters up to U+0020. */
  predicate IsTrimmed(c: char)
  {
    c <= ' '
  }

  function TrimStart(s: string): string
    decreases |s|
  {
    if s != [] && IsTrimmed(s[0]) then TrimStart(s[1..]) else s
  }

  function TrimEnd(s: string): string
    decreases |s|
  {
    if s != [] && IsTrimmed(s[|s| - 1]) then TrimEnd(s[..|s| - 1]) else s
  }

  /** `text.trim()`. */
  function Trim(s: string): string
  {
    TrimEnd(TrimStart(s))
  }

  /** Stripping the front drops a run of characters up to U+0020 and stops at a character
      above it, or at the end. */
  lemma {:induction false} TrimStartSpec(s: string) returns (a: nat)
    ensures a <= |s| && TrimStart(s) == s[a..]
    ensures forall i | 0 <= i < a :: IsTrimmed(s[i])
    ensures a < |s| ==> !IsTrimmed(s[a])
    decreases |s|
  {
    if s != [] && IsTrimmed(s[0]) {
      var a' := TrimStartSpec(s[1..]);
      a := a' + 1;
      assert s[1..][a'..] == s[a..];
    } else {
      a := 0;
    }
  }

  /** Stripping the back drops a run of characters up to U+0020 and stops after a character
      above it, or at the start. */
  lemma {:induction false} TrimEndSpec(s: string) returns (b: nat)
    ensures b <= |s| && TrimEnd(s) == s[..b]
    ensures forall i | b <= i < |s| :: IsTrimmed(s[i])
    ensures b > 0 ==> !IsTrimmed(s[b - 1])
    decreases |s|
  {
    if s != [] && IsTrimmed(s[|s| - 1]) {
      var init := s[..|s| - 1];
      b := TrimEndSpec(init);
      assert init[..b] == s[..b];
    } else {
      b := |s|;
    }
  }

  /** A text is blank after trimming exactly when all its characters are at most U+0020;
      otherwise the trimmed text starts and ends with a character above U+0020. */
  lemma TrimSpec(s: string)
    ensures Trim(s) == [] <==> forall i | 0 <= i < |s| :: IsTrimmed(s[i])
    ensures Trim(s) != [] ==> !IsTrimmed(Trim(s)[0]) && !IsTrimmed(Trim(s)[|Trim(s)| - 1])
  {
    var a := TrimStartSpec(s);
    var t := s[a..];
    var b := TrimEndSpec(t);
    if a < |s| {
      assert t[0] == s[a];
      assert b > 0;
      assert Trim(s)[0] == s[a];
    }
  }

  // ---------------------------------------------------------------------------
  // Ranking

  /** `Result(page, score, cluster)`, the page given by its index. */
  datatype Result = Result(page: nat, score: real, cluster: nat)

  /** `nearestCluster(vector)`: the scan over the centroids' cosines, 0 when there are none. */
  function NearestCluster(v: Map<real>, centroids: seq<Map<real>>, sqrt: real -> real): (c: nat)
    requires Valid(v) && Valued(v) && Weighted(centroids) && GoodSqrt(sqrt)
  {
    Nearest(v, centroids, sqrt)
  }

  /** No centroid gives cluster 0; otherwise the first centroid of highest similarity, in
      range, provided some similarity exceeds the starting threshold -1. */
  lemma NearestClusterSpec(v: Map<real>, centroids: seq<Map<real>>, sqrt: real -> real)
    requires Valid(v) && Valued(v) && Weighted(centroids) && GoodSqrt(sqrt)
    ensures centroids == [] ==> NearestCluster(v, centroids, sqrt) == 0
    ensures centroids != [] ==> NearestCluster(v, centroids, sqrt) < |centroids|
    ensures var c := NearestCluster(v, centroids, sqrt);
            (exists j | 0 <= j < |centroids| :: Cosine(v, centroids[j], sqrt) > -1.0) ==>
              && (forall j | 0 <= j < |centroids| :: Cosine(v, centroids[j], sqrt) <= Cosine(v, centroids[c], sqrt))
              && (forall j | 0 <= j < c :: Cosine(v, centroids[j], sqrt) < Cosine(v, centroids[c], sqrt))
  {
    var s := Scores(v, centroids, sqrt);
    assert forall j | 0 <= j < |centroids| :: s[j] == Cosine(v, centroids[j], sqrt);
    if centroids != [] {
      NearestSpec(v, centroids, sqrt);
    }
  }

  /** The loop over the pages: page i, scored against the query, whenever `clusters[i]` is
      the chosen cluster, in page order. */
  function Candidates(v: Map<real>, pages: seq<Map<real>>, clusters: seq<int>, c: nat, sqrt: real -> real, n: nat)
    : (rs: seq<Result>)
    requires Valid(v) && Valued(v) && Weighted(pages) && GoodSqrt(sqrt)
    requires n <= |pages| && |clusters| == |pages|
    ensures forall k | 0 <= k < |rs| :: rs[k].page < n
    decreases n
  {
    if n == 0 then []
    else
      Candidates(v, pages, clusters, c, sqrt, n - 1)
      + (if clusters[n - 1] == c then [Result(n - 1, Cosine(v, pages[n - 1], sqrt), c)] else [])
  }

  /** Page indices strictly increase along a listing. */
  ghost predicate Increasing(rs: seq<Result>)
  {
    forall i, j | 0 <= i < j < |rs| :: rs[i].page < rs[j].page
  }

  /** The candidates come in increasing page order. */
  lemma {:induction false} CandidatesIncreasing(v: Map<real>, pages: seq<Map<real>>, clusters: seq<int>, c: nat,
                                                sqrt: real -> real, n: nat)
    requires Valid(v) && Valued(v) && Weighted(pages) && GoodSqrt(sqrt)
    requires n <= |pages| && |clusters| == |pages|
    ensures Increasing(Candidates(v, pages, clusters, c, sqrt, n))
    decreases n
  {
    if n > 0 {
      var prev := Candidates(v, pages, clusters, c, sqrt, n - 1);
      CandidatesIncreasing(v, pages, clusters, c, sqrt, n - 1);
      if clusters[n - 1] == c {
        var x := Result(n - 1, Cosine(v, pages[n - 1], sqrt), c);
        assert Candidates(v, pages, clusters, c, sqrt, n) == prev + [x];
      } else {
        assert Candidates(v, pages, clusters, c, sqrt, n) == prev;
      }
    }
  }

  /** The candidates are exactly the pages of the cluster, each with its cosine with the
      query and the cluster's index. */
  lemma {:induction false} CandidatesMember(v: Map<real>, pages: seq<Map<real>>, clusters: seq<int>, c: nat,
                                            sqrt: real -> real, n: nat, x: Result)
    requires Valid(v) && Valued(v) && Weighted(pages) && GoodSqrt(sqrt)
    requires n <= |pages| && |clusters| == |pages|
    ensures x in Candidates(v, pages, clusters, c, sqrt, n)
        <==> x.page < n && clusters[x.page] == c && x == Result(x.page, Cosine(v, pages[x.page], sqrt), c)
    decreases n
  {
    if n > 0 {
      var prev := Candidates(v, pages, clusters, c, sqrt, n - 1);
      CandidatesMember(v, pages, clusters, c, sqrt, n - 1, x);
      if clusters[n - 1] == c {
        var y := Result(n - 1, Cosine(v, pages[n - 1], sqrt), c);
        assert Candidates(v, pages, clusters, c, sqrt, n) == prev + [y];
        assert x in prev + [y] <==> x in prev || x == y;
      } else {
        assert Candidates(v, pages, clusters, c, sqrt, n) == prev;
      }
    }
  }

  /** Sorted by descending score, equal scores in increasing page order: the order a
      stable sort by descending score gives to a listing in page order. */
  ghost predicate Ranked(rs: seq<Result>)
  {
    forall i, j | 0 <= i < j < |rs| ::
      rs[i].score > rs[j].score || (rs[i].score == rs[j].score && rs[i].page < rs[j].page)
  }

  /** `x` goes before the first element whose score does not exceed its own. */
  function InsertRanked(x: Result, rs: seq<Result>): (r: seq<Result>)
    ensures |r| == |rs| + 1 && multiset(r) == multiset(rs) + multiset{x}
    decreases |rs|
  {
    if rs == [] || x.score >= rs[0].score then [x] + rs
    else
      assert rs == [rs[0]] + rs[1..];
      [rs[0]] + InsertRanked(x, rs[1..])
  }

  /** `results.sort((a, b) -> Double.compare(b.score, a.score))`: a stable sort by descending
      score, here an insertion sort from the back of the list. */
  function SortByScore(rs: seq<Result>): (r: seq<Result>)
    ensures |r| == |rs| && multiset(r) == multiset(rs)
    decreases |rs|
  {
    if rs == [] then []
    else
      assert rs == [rs[0]] + rs[1..];
      InsertRanked(rs[0], SortByScore(rs[1..]))
  }

  /** Inserting an element whose page precedes all others keeps a listing ranked. */
  lemma {:induction false} InsertRankedKeeps(x: Result, rs: seq<Result>)
    requires Ranked(rs) && forall k | 0 <= k < |rs| :: x.page < rs[k].page
    ensures Ranked(InsertRanked(x, rs))
    decreases |rs|
  {
    if rs != [] && x.score < rs[0].score {
      InsertRankedKeeps(x, rs[1..]);
      var r := InsertRanked(x, rs);
      var tail := InsertRanked(x, rs[1..]);
      assert r == [rs[0]] + tail;
      forall k | 0 <= k < |tail| ensures rs[0].score > tail[k].score || (rs[0].score == tail[k].score && rs[0].page < tail[k].page) {
        assert tail[k] in multiset(rs[1..]) + multiset{x};
        if tail[k] != x {
          assert tail[k] in rs[1..];
        }
      }
    }
  }

  /** Sorting a listing in page order ranks it. */
  lemma {:induction false} SortByScoreRanked(rs: seq<Result>)
    requires Increasing(rs)
    ensures Ranked(SortByScore(rs))
    decreases |rs|
  {
    if rs != [] {
      var rest := SortByScore(rs[1..]);
      SortByScoreRanked(rs[1..]);
      forall k | 0 <= k < |rest| ensures rs[0].page < rest[k].page {
        assert rest[k] in multiset(rs[1..]);
      }
      InsertRankedKeeps(rs[0], rest);
    }
  }

  /** Two ranked orderings of the same elements start with the same element. */
  lemma RankedHead(a: seq<Result>, b: seq<Result>)
    requires Ranked(a) && Ranked(b) && multiset(a) == multiset(b) && a != []
    ensures b != [] && a[0] == b[0]
  {
    assert a[0] in multiset(b);
    var i :| 0 <= i < |b| && b[i] == a[0];
    assert b[0] in multiset(a);
    var j :| 0 <= j < |a| && a[j] == b[0];
  }

  lemma MultisetTail(a: seq<Result>)
    requires a != []
    ensures multiset(a[1..]) == multiset(a) - multiset{a[0]}
  {
    assert a == [a[0]] + a[1..];
  }

  /** Two ranked orderings of the same elements are the same sequence: the ranking fixes
      the sorted list completely. */
  lemma {:induction false} RankedUnique(a: seq<Result>, b: seq<Result>)
    requires Ranked(a) && Ranked(b) && multiset(a) == multiset(b)
    ensures a == b
    decreases |a|
  {
    if a != [] {
      RankedHead(a, b);
      MultisetTail(a);
      MultisetTail(b);
      RankedUnique(a[1..], b[1..]);
      assert a == [a[0]] + a[1..] && b == [b[0]] + b[1..];
    } else {
      assert |b| == |multiset(b)| == 0;
    }
  }

  /** `displayResults`: at most the first two results. */
  function TopTwo(rs: seq<Result>): (r: seq<Result>)
  {
    rs[..if |rs| < 2 then |rs| else 2]
  }

  /** The calculator as `loadData` reads it back from the loader's file: deserializing its
      `wordDocCount` goes through `readObject`. */
  function ReadCalculator(c: Calculator): (r: Calculator)
    requires ValidCalculator(c)
    ensures ValidCalculator(r) && r.totalDocs == c.totalDocs
  {
    ReadObjectSpec(c.wordDocCount, "");
    Calculator(ReadObject(c.wordDocCount), c.totalDocs)
  }

  /** With the calculator read back, a token of the typed text weighs `tf * ln(N / (df + 1))`,
      where df is the number of pages holding it: one more than the loader used for the
      pages. A word no page holds keeps df 0. */
  lemma ReadCalculatorWeight(texts: seq<string>, text: string, logRatio: (int, int) -> real, w: string)
    requires w in Tokens(text)
    ensures Get(ComputeTfidfForText(ReadCalculator(LoadCalculator(texts)), text, logRatio), w)
         == Some(TfIdf(multiset(Tokens(text))[w], |Tokens(text)|,
                       logRatio(|texts|, if DocsContaining(CountAll(texts), w) > 0
                                         then DocsContaining(CountAll(texts), w) + 1 else 0)))
  {
    var docs := CountAll(texts);
    var c := LoadCalculator(texts);
    forall j | 0 <= j < |docs| ensures Valid(docs[j]) {
      CountWordsSpec(texts[j], w);
    }
    DocFrequenciesSpec(docs, w);
    ReadObjectSpec(c.wordDocCount, w);
    ComputeTfidfForTextWeight(ReadCalculator(c), text, logRatio, w);
  }

  /** What the search produces: the blank-input message, or the nearest cluster with the
      results shown. */
  datatype Outcome = PleaseEnterText | Shown(cluster: nat, results: seq<Result>)

  /** `findSimilarPages()` followed by `displayResults`: the text is trimmed; a blank text
      is answered with the message before anything is computed. */
  function FindSimilarPages(text: string, tfidf: Calculator, pages: seq<Map<real>>, clusters: seq<int>,
                            centroids: seq<Map<real>>, logRatio: (int, int) -> real, sqrt: real -> real)
    : Outcome
    requires ValidCalculator(tfidf) && Weighted(pages) && Weighted(centroids) && GoodSqrt(sqrt)
    requires |clusters| == |pages|
  {
    var t := Trim(text);
    if t == [] then PleaseEnterText
    else
      var v := ComputeTfidfForText(tfidf, t, logRatio);
      ComputeTfidfForTextSpec(tfidf, t, logRatio, "");
      Search(v, pages, clusters, centroids, sqrt)
  }

  /** The search proper for the weights `v` of a non-blank text: the nearest cluster, and the
      first two of its pages once ranked by their cosine with `v`. */
  function Search(v: Map<real>, pages: seq<Map<real>>, clusters: seq<int>, centroids: seq<Map<real>>,
                  sqrt: real -> real): Outcome
    requires Valid(v) && Valued(v) && Weighted(pages) && Weighted(centroids) && GoodSqrt(sqrt)
    requires |clusters| == |pages|
  {
    var c := NearestCluster(v, centroids, sqrt);
    Shown(c, TopTwo(SortByScore(Candidates(v, pages, clusters, c, sqrt, |pages|))))
  }

  /** The results shown for a listing in page order: `min(2, n)` of its elements, ranked,
      and no element left out scores higher than one shown. */
  lemma ShownSpec(all: seq<Result>)
    requires Increasing(all)
    ensures var shown := TopTwo(SortByScore(all));
            && |shown| == (if |all| < 2 then |all| else 2)
            && Ranked(shown)
            && (forall k | 0 <= k < |shown| :: shown[k] in all)
            && (forall x | x in all && x !in shown :: forall k | 0 <= k < |shown| :: x.score <= shown[k].score)
  {
    var sorted := SortByScore(all);
    var shown := TopTwo(sorted);
    SortByScoreRanked(all);
    TopTwoSpec(sorted);
    forall k | 0 <= k < |shown| ensures shown[k] in all {
      assert shown[k] in multiset(sorted);
    }
    forall x | x in all && x !in shown
      ensures forall k | 0 <= k < |shown| :: x.score <= shown[k].score
    {
      assert x in multiset(sorted);
      var m :| 0 <= m < |sorted| && sorted[m] == x;
      assert m >= |shown|;
    }
  }

  /** A blank text gets the message; any other text is searched with its weights under the
      stored calculator. */
  lemma FindSimilarPagesSpec(text: string, tfidf: Calculator, pages: seq<Map<real>>, clusters: seq<int>,
                             centroids: seq<Map<real>>, logRatio: (int, int) -> real, sqrt: real -> real)
    requires ValidCalculator(tfidf) && Weighted(pages) && Weighted(centroids) && GoodSqrt(sqrt)
    requires |clusters| == |pages|
    ensures FindSimilarPages(text, tfidf, pages, clusters, centroids, logRatio, sqrt).PleaseEnterText?
        <==> forall i | 0 <= i < |text| :: IsTrimmed(text[i])
    ensures (exists i | 0 <= i < |text| :: !IsTrimmed(text[i])) ==>
              var v := ComputeTfidfForText(tfidf, Trim(text), logRatio);
              && Valid(v) && Valued(v)
              && FindSimilarPages(text, tfidf, pages, clusters, centroids, logRatio, sqrt)
                 == Search(v, pages, clusters, centroids, sqrt)
  {
    TrimSpec(text);
    ComputeTfidfForTextSpec(tfidf, Trim(text), logRatio, "");
  }

  /** The search answers with the nearest cluster and `min(2, n)` of the n pages of that
      cluster, each with its cosine score, ranked best first with equal scores in page
      order, none left out scoring higher than one shown. */
  lemma SearchSpec(v: Map<real>, pages: seq<Map<real>>, clusters: seq<int>, centroids: seq<Map<real>>,
                   sqrt: real -> real)
    requires Valid(v) && Valued(v) && Weighted(pages) && Weighted(centroids) && GoodSqrt(sqrt)
    requires |clusters| == |pages|
    ensures var out := Search(v, pages, clusters, centroids, sqrt);
            && out.Shown?
            && out.cluster == NearestCluster(v, centroids, sqrt)
            && var n := |Candidates(v, pages, clusters, out.cluster, sqrt, |pages|)|;
               |out.results| == if n < 2 then n else 2
    ensures var out := Search(v, pages, clusters, centroids, sqrt);
            && Ranked(out.results)
            && forall k | 0 <= k < |out.results| ::
                 var x := out.results[k];
                 x.page < |pages| && clusters[x.page] == out.cluster
                 && x == Result(x.page, Cosine(v, pages[x.page], sqrt), out.cluster)
    ensures var out := Search(v, pages, clusters, centroids, sqrt);
            forall p | 0 <= p < |pages| && clusters[p] == out.cluster
                       && Result(p, Cosine(v, pages[p], sqrt), out.cluster) !in out.results ::
              forall k | 0 <= k < |out.results| :: Cosine(v, pages[p], sqrt) <= out.results[k].score
  {
    var c := NearestCluster(v, centroids, sqrt);
    var all := Candidates(v, pages, clusters, c, sqrt, |pages|);
    var out := Search(v, pages, clusters, centroids, sqrt);
    assert out.results == TopTwo(SortByScore(all));
    CandidatesIncreasing(v, pages, clusters, c, sqrt, |pages|);
    ShownSpec(all);
    forall k | 0 <= k < |out.results|
      ensures var x := out.results[k];
              x.page < |pages| && clusters[x.page] == c && x == Result(x.page, Cosine(v, pages[x.page], sqrt), c)
    {
      CandidatesMember(v, pages, clusters, c, sqrt, |pages|, out.results[k]);
    }
    forall p | 0 <= p < |pages| && clusters[p] == c && Result(p, Cosine(v, pages[p], sqrt), c) !in out.results
      ensures forall k | 0 <= k < |out.results| :: Cosine(v, pages[p], sqrt) <= out.results[k].score
    {
      CandidatesMember(v, pages, clusters, c, sqrt, |pages|, Result(p, Cosine(v, pages[p], sqrt), c));
    }
  }

  /** The first two of a ranked list are ranked and come before every other element. */
  lemma TopTwoSpec(rs: seq<Result>)
    requires Ranked(rs)
    ensures TopTwo(rs) == rs[..|TopTwo(rs)|] && |TopTwo(rs)| == if |rs| < 2 then |rs| else 2
    ensures Ranked(TopTwo(rs))
    ensures forall m, k | |TopTwo(rs)| <= m < |rs| && 0 <= k < |TopTwo(rs)| :: rs[m].score <= TopTwo(rs)[k].score
  {
  }
}
