/** a2/Loader.java, clustering: k-means over the pages' TF-IDF vectors with cosine
    similarity, seven clusters and at most one hundred passes. The shuffle that picks the
    initial centroids is a parameter. */
module Clustering {
  import opened Wrappers
  import opened Seqs
  import opened ChainedTable
  import opened CountMap
  import opened Similarity

  const NumClusters: nat := 7
  const MaxIterations: nat := 100

  /** The square roots the cosine may be given. */
  ghost predicate GoodSqrt(sqrt: real -> real)
  {
    forall x: real :: x > 0.0 ==> sqrt(x) > 0.0
  }

  /** Weight vectors as the pages and centroids hold them: every node carries a `Double`. */
  ghost predicate Weighted(vs: seq<Map<real>>)
  {
    forall i | 0 <= i < |vs| :: Valid(vs[i]) && Valued(vs[i])
  }

  /** Well-formed tables, all that adding up pages needs of them. */
  ghost predicate Tables(vs: seq<Map<real>>)
  {
    forall i | 0 <= i < |vs| :: WellFormed(vs[i])
  }

  // ---------------------------------------------------------------------------
  // Best-scoring index

  /** The scan `best = 0; bestSim = -1; for i: if (sim > bestSim) { bestSim = sim; best = i; }`
      over a list of scores: the final `(best, bestSim)`. */
  function Scan(scores: seq<real>): (r: (nat, real))
    decreases |scores|
  {
    if scores == [] then (0, -1.0)
    else
      var prev := Scan(scores[..|scores| - 1]);
      var x := scores[|scores| - 1];
      if x > prev.1 then (|scores| - 1, x) else prev
  }

  /** The index the scan settles on. */
  function Best(scores: seq<real>): nat
  {
    Scan(scores).0
  }

  /** When some score exceeds -1 the scan picks the first index of the largest score;
      otherwise it keeps 0. */
  lemma {:induction false} ScanSpec(scores: seq<real>)
    ensures (forall j | 0 <= j < |scores| :: scores[j] <= -1.0) ==> Scan(scores) == (0, -1.0)
    ensures (exists j | 0 <= j < |scores| :: scores[j] > -1.0) ==>
              && Scan(scores).0 < |scores|
              && Scan(scores).1 == scores[Scan(scores).0]
              && (forall j | 0 <= j < |scores| :: scores[j] <= scores[Scan(scores).0])
              && (forall j | 0 <= j < Scan(scores).0 :: scores[j] < scores[Scan(scores).0])
    decreases |scores|
  {
    if scores != [] {
      var init := scores[..|scores| - 1];
      ScanSpec(init);
      assert forall j | 0 <= j < |init| :: init[j] == scores[j];
    }
  }

  /** The chosen index is within range whenever there is at least one score, and it is
      the only index with its properties: a maximum with no equal score before it. */
  lemma BestSpec(scores: seq<real>, k: nat)
    requires k < |scores| && scores[k] > -1.0
    requires forall j | 0 <= j < |scores| :: scores[j] <= scores[k]
    requires forall j | 0 <= j < k :: scores[j] < scores[k]
    ensures Best(scores) == k
  {
    ScanSpec(scores);
    var b := Best(scores);
    assert scores[b] <= scores[k] && scores[k] <= scores[b];
  }

  // ---------------------------------------------------------------------------
  // Assignment

  /** The page's similarity to each centroid in turn. */
  function Scores(page: Map<real>, centroids: seq<Map<real>>, sqrt: real -> real): (s: seq<real>)
    requires Valid(page) && Valued(page) && Weighted(centroids) && GoodSqrt(sqrt)
    ensures |s| == |centroids|
  {
    seq(|centroids|, j requires 0 <= j < |centroids| => Cosine(page, centroids[j], sqrt))
  }

  /** The cluster a page is assigned to: the most similar centroid, the first on ties. */
  function Nearest(page: Map<real>, centroids: seq<Map<real>>, sqrt: real -> real): nat
    requires Valid(page) && Valued(page) && Weighted(centroids) && GoodSqrt(sqrt)
  {
    Best(Scores(page, centroids, sqrt))
  }

  /** The assigned cluster is a valid index. When some centroid scores above -1 (the scan's
      starting threshold), no centroid is more similar to the page than the assigned one
      and every centroid before it is strictly less similar; otherwise the page goes to
      cluster 0. */
  lemma NearestSpec(page: Map<real>, centroids: seq<Map<real>>, sqrt: real -> real)
    requires Valid(page) && Valued(page) && Weighted(centroids) && GoodSqrt(sqrt) && centroids != []
    ensures Nearest(page, centroids, sqrt) < |centroids|
    ensures var s := Scores(page, centroids, sqrt);
            var b := Nearest(page, centroids, sqrt);
            && ((exists j | 0 <= j < |s| :: s[j] > -1.0) ==>
                  (forall j | 0 <= j < |s| :: s[j] <= s[b]) && (forall j | 0 <= j < b :: s[j] < s[b]))
            && ((forall j | 0 <= j < |s| :: s[j] <= -1.0) ==> b == 0)
  {
    ScanSpec(Scores(page, centroids, sqrt));
  }

  /** The score list holds the cosines with the centroids, in order. */
  lemma ScoresAt(page: Map<real>, centroids: seq<Map<real>>, sqrt: real -> real, j: nat)
    requires Valid(page) && Valued(page) && Weighted(centroids) && GoodSqrt(sqrt) && j < |centroids|
    ensures Scores(page, centroids, sqrt)[j] == Cosine(page, centroids[j], sqrt)
  {
  }

  /** `assignToClusters`: every page moves to its nearest centroid; `changed` reports
      whether any assignment differs from the previous one. */
  method AssignToClusters(pages: seq<Map<real>>, centroids: seq<Map<real>>, assignments: seq<nat>, sqrt: real -> real)
    returns (next: seq<nat>, changed: bool)
    requires Weighted(pages) && Weighted(centroids) && GoodSqrt(sqrt)
    requires |assignments| == |pages|
    ensures |next| == |pages|
    ensures forall i | 0 <= i < |pages| :: next[i] == Nearest(pages[i], centroids, sqrt)
    ensures changed <==> exists i | 0 <= i < |pages| :: next[i] != assignments[i]
  {
    next := assignments;
    changed := false;
    var i := 0;
    while i < |pages|
      invariant 0 <= i <= |pages| && |next| == |pages|
      invariant forall j | 0 <= j < i :: next[j] == Nearest(pages[j], centroids, sqrt)
      invariant forall j | i <= j < |pages| :: next[j] == assignments[j]
      invariant changed <==> exists j | 0 <= j < i :: next[j] != assignments[j]
    {
      var best := Nearest(pages[i], centroids, sqrt);
      if next[i] != best {
        next := next[i := best];
        changed := true;
      }
      i := i + 1;
    }
  }

  // ---------------------------------------------------------------------------
  // Copying and averaging tables

  /** The `(key, value / d)` pairs of a table's nodes in node order, a null value reading 0. */
  function NodePairs(t: Map<real>, d: real): (ops: seq<(string, real)>)
    requires d != 0.0
    ensures Written(ops) == KeysOf(Entries(t))
  {
    var ns := Entries(t);
    seq(|ns|, i requires 0 <= i < |ns| => (ns[i].key, ns[i].val.value.GetOr(0.0) / d))
  }

  /** The pairs name each key once, and the pair for a key carries its value over `d`. */
  lemma NodePairsSpec(t: Map<real>, d: real, w: string)
    requires WellFormed(t) && d != 0.0
    ensures Distinct(Written(NodePairs(t, d)))
    ensures LastValue(NodePairs(t, d), w) == if w in KeySet(t) then Some(Get(t, w).GetOr(0.0) / d) else None
  {
    var ns := Entries(t);
    var ops := NodePairs(t, d);
    UniqueKeysDistinct(ns);
    LookupSpec(t, w);
    if w in KeySet(t) {
      var i :| 0 <= i < |ns| && ns[i].key == w;
      LastValueUnique(ops, i);
    } else {
      assert forall i | 0 <= i < |ns| :: Written(ops)[i] != w;
      LastValueAbsent(ops, w);
    }
  }

  /** `initializeCentroids`' copy: `centroidCopy.add(node.key, node.value)` for every node. */
  function Copy(t: Map<real>): Map<real>
  {
    AddAll(New(), NodePairs(t, 1.0))
  }

  /** A copy of a weight table holds the same keys with the same values. */
  lemma CopySpec(t: Map<real>, w: string)
    requires Valid(t) && Valued(t)
    ensures Valid(Copy(t))
    ensures Get(Copy(t), w) == Get(t, w)
    ensures w in KeySet(Copy(t)) <==> w in KeySet(t)
  {
    var ops := NodePairs(t, 1.0);
    NodePairsSpec(t, 1.0, w);
    AddDistinctSpec(ops, w);
    KeysOfKeySet(t, w);
    LookupSpec(t, w);
    if w in KeySet(t) {
      var e := Lookup(t, w).value;
      assert e in Entries(t);
      var v := Get(t, w).GetOr(0.0);
      assert Get(t, w) == Some(v);
      assert v / 1.0 == v;
    }
  }

  lemma CopyValued(t: Map<real>)
    requires Valid(t) && Valued(t)
    ensures Valid(Copy(t)) && Valued(Copy(t))
  {
    CopySpec(t, "");
    forall e | e in Entries(Copy(t)) ensures e.val.value.Some? {
      CopySpec(t, e.key);
      LookupSpec(Copy(t), e.key);
      LookupSpec(t, e.key);
    }
  }

  /** The outcome of `Collections.shuffle` on the page indices: every index below n, each
      at most once, n of them. */
  ghost predicate IsShuffle(perm: seq<nat>, n: nat)
  {
    && |perm| == n
    && (forall i | 0 <= i < |perm| :: perm[i] < n)
    && (forall i, j | 0 <= i < j < |perm| :: perm[i] != perm[j])
  }

  /** `initializeCentroids`: the first seven indices of the shuffled index list pick the
      pages whose vectors are copied. With fewer than seven pages `indices.get(i)` fails,
      which is `None` here. */
  function InitializeCentroids(pages: seq<Map<real>>, perm: seq<nat>): (r: Option<seq<Map<real>>>)
    requires IsShuffle(perm, |pages|)
    ensures r.Some? ==> |r.value| == NumClusters
  {
    if |pages| < NumClusters then None
    else Some(seq(NumClusters, i requires 0 <= i < NumClusters => Copy(pages[perm[i]])))
  }

  /** There are centroids exactly when there are at least seven pages, and centroid i holds
      the words and weights of the page the shuffle put at position i; the seven centroids
      copy seven different pages. */
  lemma InitializeCentroidsSpec(pages: seq<Map<real>>, perm: seq<nat>, i: nat, w: string)
    requires Weighted(pages)
    requires IsShuffle(perm, |pages|)
    ensures InitializeCentroids(pages, perm).Some? <==> |pages| >= NumClusters
    ensures InitializeCentroids(pages, perm).Some? ==> Weighted(InitializeCentroids(pages, perm).value)
    ensures InitializeCentroids(pages, perm).Some? && i < NumClusters ==>
              && Get(InitializeCentroids(pages, perm).value[i], w) == Get(pages[perm[i]], w)
              && (w in KeySet(InitializeCentroids(pages, perm).value[i]) <==> w in KeySet(pages[perm[i]]))
              && (forall j | 0 <= j < NumClusters && j != i :: perm[j] != perm[i])
  {
    if |pages| >= NumClusters {
      var cs := InitializeCentroids(pages, perm).value;
      forall j | 0 <= j < |cs| ensures Valid(cs[j]) && Valued(cs[j]) {
        CopyValued(pages[perm[j]]);
      }
      if i < NumClusters {
        CopySpec(pages[perm[i]], w);
      }
    }
  }

  /** `current = get(word) or 0; add(word, current + score)`. */
  function AddScore(acc: Map<real>, k: string, score: real): (r: Map<real>)
    requires |acc.buckets| > 0
    ensures |r.buckets| > 0
  {
    Add(acc, k, Get(acc, k).GetOr(0.0) + score)
  }

  /** The inner loop of `updateCentroids` for one page: `AddScore` for each `(word, score)`. */
  function AccPairs(acc: Map<real>, ops: seq<(string, real)>): (r: Map<real>)
    requires |acc.buckets| > 0
    ensures |r.buckets| > 0
    decreases |ops|
  {
    if ops == [] then acc
    else AddScore(AccPairs(acc, ops[..|ops| - 1]), ops[|ops| - 1].0, ops[|ops| - 1].1)
  }

  /** Dropping the last element keeps a sequence free of repetitions, and that element
      does not occur in the rest. */
  lemma DistinctInit<T>(s: seq<T>)
    requires Distinct(s) && s != []
    ensures Distinct(s[..|s| - 1])
    ensures s[|s| - 1] !in s[..|s| - 1]
  {
  }

  /** One `AddScore` step, seen from one key: the sum for `k` grows by the score, a missing
      sum counting 0, and nothing else changes. */
  lemma AddScoreGet(prev: Map<real>, k: string, score: real, w: string)
    requires Valid(prev)
    ensures Get(AddScore(prev, k, score), w) == if k == w then Some(Get(prev, w).GetOr(0.0) + score) else Get(prev, w)
  {
    AddGet(prev, k, Get(prev, k).GetOr(0.0) + score, w);
  }

  lemma AddScoreKeys(prev: Map<real>, k: string, score: real, w: string)
    requires Valid(prev)
    ensures Valid(AddScore(prev, k, score))
    ensures w in KeySet(AddScore(prev, k, score)) <==> w in KeySet(prev) || w == k
  {
    AddKeys(prev, k, Get(prev, k).GetOr(0.0) + score, w);
  }

  /** Adding pairs keeps the table valid and adds their keys to the key set. */
  lemma {:induction false} AccPairsKeys(acc: Map<real>, ops: seq<(string, real)>, w: string)
    requires Valid(acc)
    ensures Valid(AccPairs(acc, ops))
    ensures w in KeySet(AccPairs(acc, ops)) <==> w in KeySet(acc) || w in Written(ops)
    decreases |ops|
  {
    if ops != [] {
      var n := |ops| - 1;
      var init := ops[..n];
      var prev := AccPairs(acc, init);
      AccPairsKeys(acc, init, w);
      AccPairsUnfold(acc, ops, prev);
      AddScoreKeys(prev, ops[n].0, ops[n].1, w);
      WrittenLast(ops);
    }
  }

  lemma AccPairsUnfold(acc: Map<real>, ops: seq<(string, real)>, prev: Map<real>)
    requires |acc.buckets| > 0 && ops != []
    requires prev == AccPairs(acc, ops[..|ops| - 1])
    ensures AccPairs(acc, ops) == AddScore(prev, ops[|ops| - 1].0, ops[|ops| - 1].1)
  {
  }

  /** The sum of the scores paired with `w`. */
  function PairSum(ops: seq<(string, real)>, w: string): real
    decreases |ops|
  {
    if ops == [] then 0.0
    else PairSum(ops[..|ops| - 1], w) + (if ops[|ops| - 1].0 == w then ops[|ops| - 1].1 else 0.0)
  }

  lemma {:induction false} PairSumAbsent(ops: seq<(string, real)>, w: string)
    requires w !in Written(ops)
    ensures PairSum(ops, w) == 0.0
    decreases |ops|
  {
    if ops != [] {
      var n := |ops| - 1;
      WrittenLast(ops);
      PairSumAbsent(ops[..n], w);
    }
  }

  lemma {:induction false} PairSumAppend(a: seq<(string, real)>, b: seq<(string, real)>, w: string)
    ensures PairSum(a + b, w) == PairSum(a, w) + PairSum(b, w)
    decreases |b|
  {
    if b == [] {
      assert a + b == a;
    } else {
      var n := |b| - 1;
      assert (a + b)[..|a + b| - 1] == a + b[..n];
      PairSumAppend(a, b[..n], w);
    }
  }

  /** With every key listed once, a key's sum is its one score. */
  lemma {:induction false} PairSumDistinct(ops: seq<(string, real)>, w: string)
    requires Distinct(Written(ops))
    ensures PairSum(ops, w) == LastValue(ops, w).GetOr(0.0)
    decreases |ops|
  {
    if ops != [] {
      var n := |ops| - 1;
      assert Written(ops[..n]) == Written(ops)[..n];
      DistinctInit(Written(ops));
      PairSumDistinct(ops[..n], w);
      if ops[n].0 == w {
        PairSumAbsent(ops[..n], w);
      }
    }
  }

  /** Adding pairs leaves a key no pair names alone. */
  lemma {:induction false} AccPairsOther(acc: Map<real>, ops: seq<(string, real)>, w: string)
    requires Valid(acc)
    ensures w !in Written(ops) ==> Get(AccPairs(acc, ops), w) == Get(acc, w)
    decreases |ops|
  {
    if ops != [] {
      var n := |ops| - 1;
      var init := ops[..n];
      WrittenLast(ops);
      AccPairsOther(acc, init, w);
      AccPairsKeys(acc, init, w);
      AccPairsUnfold(acc, ops, AccPairs(acc, init));
      AddScoreGet(AccPairs(acc, init), ops[n].0, ops[n].1, w);
    }
  }

  /** A key some pair names ends up with a value. */
  lemma {:induction false} AccPairsPresent(acc: Map<real>, ops: seq<(string, real)>, w: string)
    requires Valid(acc)
    ensures w in Written(ops) ==> Get(AccPairs(acc, ops), w).Some?
    decreases |ops|
  {
    if ops != [] {
      var n := |ops| - 1;
      var init := ops[..n];
      WrittenLast(ops);
      AccPairsPresent(acc, init, w);
      AccPairsOther(acc, init, w);
      AccPairsKeys(acc, init, w);
      AccPairsUnfold(acc, ops, AccPairs(acc, init));
      AddScoreGet(AccPairs(acc, init), ops[n].0, ops[n].1, w);
    }
  }

  /** A key's value, 0 when missing, grows by the scores paired with it. */
  lemma {:induction false} AccPairsTotal(acc: Map<real>, ops: seq<(string, real)>, w: string)
    requires Valid(acc)
    ensures Get(AccPairs(acc, ops), w).GetOr(0.0) == Get(acc, w).GetOr(0.0) + PairSum(ops, w)
    decreases |ops|
  {
    if ops != [] {
      var n := |ops| - 1;
      var init := ops[..n];
      AccPairsTotal(acc, init, w);
      AccPairsKeys(acc, init, w);
      AccPairsUnfold(acc, ops, AccPairs(acc, init));
      AddScoreGet(AccPairs(acc, init), ops[n].0, ops[n].1, w);
    }
  }

  /** Adding pairs raises each listed key's sum by the scores paired with it (a missing sum
      starting at 0) and leaves every other key alone. */
  lemma AccPairsSpec(acc: Map<real>, ops: seq<(string, real)>, w: string)
    requires Valid(acc)
    ensures Get(AccPairs(acc, ops), w)
         == if w in Written(ops) then Some(Get(acc, w).GetOr(0.0) + PairSum(ops, w)) else Get(acc, w)
  {
    AccPairsOther(acc, ops, w);
    AccPairsPresent(acc, ops, w);
    AccPairsTotal(acc, ops, w);
  }

  /** The members of a cluster: the indices assigned to it, in increasing order. */
  function Members(assignments: seq<nat>, c: nat): (ms: seq<nat>)
    ensures forall j | 0 <= j < |ms| :: ms[j] < |assignments|
    decreases |assignments|
  {
    if assignments == [] then []
    else
      var n := |assignments| - 1;
      Members(assignments[..n], c) + (if assignments[n] == c then [n] else [])
  }

  /** An index is a member exactly when it is assigned to the cluster. */
  lemma {:induction false} MembersSpec(assignments: seq<nat>, c: nat, i: nat)
    ensures i in Members(assignments, c) <==> i < |assignments| && assignments[i] == c
    decreases |assignments|
  {
    if assignments != [] {
      var n := |assignments| - 1;
      MembersSpec(assignments[..n], c, i);
    }
  }

  /** Whether some listed page holds the word. */
  ghost predicate InAny(pages: seq<Map<real>>, ms: seq<nat>, w: string)
    requires forall j | 0 <= j < |ms| :: ms[j] < |pages|
  {
    exists j | 0 <= j < |ms| :: w in KeySet(pages[ms[j]])
  }

  /** The word's weights summed over the listed pages, a page without it counting 0. */
  function MemberSum(pages: seq<Map<real>>, ms: seq<nat>, w: string): real
    requires Tables(pages) && forall j | 0 <= j < |ms| :: ms[j] < |pages|
    decreases |ms|
  {
    if ms == [] then 0.0
    else MemberSum(pages, ms[..|ms| - 1], w) + Get(pages[ms[|ms| - 1]], w).GetOr(0.0)
  }

  lemma InAnyLast(pages: seq<Map<real>>, ms: seq<nat>, w: string)
    requires forall j | 0 <= j < |ms| :: ms[j] < |pages|
    requires ms != []
    ensures InAny(pages, ms, w) <==> InAny(pages, ms[..|ms| - 1], w) || w in KeySet(pages[ms[|ms| - 1]])
  {
    var init := ms[..|ms| - 1];
    assert forall j | 0 <= j < |init| :: init[j] == ms[j];
  }

  /** The `(word, value)` pairs of the listed pages, page after page and each page in node
      order: what the two inner loops of `updateCentroids` add for one cluster. */
  function MemberPairs(pages: seq<Map<real>>, ms: seq<nat>): seq<(string, real)>
    requires forall j | 0 <= j < |ms| :: ms[j] < |pages|
    decreases |ms|
  {
    if ms == [] then []
    else MemberPairs(pages, ms[..|ms| - 1]) + NodePairs(pages[ms[|ms| - 1]], 1.0)
  }

  /** The accumulation over a cluster's members: a fresh table, every pair added in turn. */
  function AccMembers(pages: seq<Map<real>>, ms: seq<nat>): (r: Map<real>)
    requires forall j | 0 <= j < |ms| :: ms[j] < |pages|
    ensures |r.buckets| > 0
  {
    AccPairs(New(), MemberPairs(pages, ms))
  }

  /** A word is paired in the members' pairs exactly when some member holds it. */
  lemma {:induction false} MemberPairsKeys(pages: seq<Map<real>>, ms: seq<nat>, w: string)
    requires forall j | 0 <= j < |ms| :: ms[j] < |pages|
    ensures w in Written(MemberPairs(pages, ms)) <==> InAny(pages, ms, w)
    decreases |ms|
  {
    if ms != [] {
      var init := ms[..|ms| - 1];
      var page := pages[ms[|ms| - 1]];
      MemberPairsKeys(pages, init, w);
      assert Written(MemberPairs(pages, ms)) == Written(MemberPairs(pages, init)) + Written(NodePairs(page, 1.0));
      KeysOfKeySet(page, w);
      InAnyLast(pages, ms, w);
    }
  }

  /** The scores paired with a word add up to its weights summed over the members. */
  lemma {:induction false} MemberPairsSum(pages: seq<Map<real>>, ms: seq<nat>, w: string)
    requires Tables(pages) && forall j | 0 <= j < |ms| :: ms[j] < |pages|
    ensures PairSum(MemberPairs(pages, ms), w) == MemberSum(pages, ms, w)
    decreases |ms|
  {
    if ms != [] {
      var init := ms[..|ms| - 1];
      var page := pages[ms[|ms| - 1]];
      var ops := NodePairs(page, 1.0);
      MemberPairsSum(pages, init, w);
      PairSumAppend(MemberPairs(pages, init), ops, w);
      assert PairSum(ops, w) == Get(page, w).GetOr(0.0) by {
        NodePairsSpec(page, 1.0, w);
        PairSumDistinct(ops, w);
        LookupSpec(page, w);
        var x := Get(page, w).GetOr(0.0);
        assert x / 1.0 == x;
      }
    }
  }

  /** The accumulation is a valid table holding the words found in some member page. */
  lemma AccMembersKeys(pages: seq<Map<real>>, ms: seq<nat>, w: string)
    requires Tables(pages) && forall j | 0 <= j < |ms| :: ms[j] < |pages|
    ensures Valid(AccMembers(pages, ms))
    ensures w in KeySet(AccMembers(pages, ms)) <==> InAny(pages, ms, w)
  {
    LookupSpec(New<real>(), w);
    AccPairsKeys(New(), MemberPairs(pages, ms), w);
    MemberPairsKeys(pages, ms, w);
  }

  /** After the members' pages are added up, a word present in some member holds the sum of
      its weights over the members, and every other word is absent. */
  lemma AccMembersSpec(pages: seq<Map<real>>, ms: seq<nat>, w: string)
    requires Tables(pages) && forall j | 0 <= j < |ms| :: ms[j] < |pages|
    ensures Get(AccMembers(pages, ms), w) == if InAny(pages, ms, w) then Some(MemberSum(pages, ms, w)) else None
  {
    LookupSpec(New<real>(), w);
    AccPairsSpec(New(), MemberPairs(pages, ms), w);
    MemberPairsKeys(pages, ms, w);
    MemberPairsSum(pages, ms, w);
  }

  /** The new centroid of a cluster: a fresh table, the members' weights summed into it,
      then every node's sum replaced by `sum / members.size()` (no node to divide when the
      cluster is empty). */
  function Centroid(pages: seq<Map<real>>, ms: seq<nat>): Map<real>
    requires Weighted(pages) && forall j | 0 <= j < |ms| :: ms[j] < |pages|
  {
    if ms == [] then New()
    else
      var acc := AccMembers(pages, ms);
      AddAll(acc, NodePairs(acc, |ms| as real))
  }

  /** A centroid holds the words found in some member page, each with its mean weight over
      the members (a member lacking the word counting 0), and no other word. */
  lemma CentroidSpec(pages: seq<Map<real>>, ms: seq<nat>, w: string)
    requires Weighted(pages) && forall j | 0 <= j < |ms| :: ms[j] < |pages|
    ensures Valid(Centroid(pages, ms))
    ensures w in KeySet(Centroid(pages, ms)) <==> InAny(pages, ms, w)
    ensures Get(Centroid(pages, ms), w)
         == if InAny(pages, ms, w) then Some(MemberSum(pages, ms, w) / |ms| as real) else None
  {
    if ms == [] {
      LookupSpec(New<real>(), w);
    } else {
      var acc := AccMembers(pages, ms);
      AccMembersSpec(pages, ms, w);
      AccMembersKeys(pages, ms, w);
      NodePairsSpec(acc, |ms| as real, w);
      AddAllSpec(acc, NodePairs(acc, |ms| as real), w);
      assert Written(NodePairs(acc, |ms| as real)) == KeysOf(Entries(acc));
      if w in Written(NodePairs(acc, |ms| as real)) {
        var i :| 0 <= i < |Entries(acc)| && KeysOf(Entries(acc))[i] == w;
        assert Entries(acc)[i].key == w;
      }
    }
  }

  lemma CentroidValued(pages: seq<Map<real>>, ms: seq<nat>)
    requires Weighted(pages) && forall j | 0 <= j < |ms| :: ms[j] < |pages|
    ensures Valid(Centroid(pages, ms)) && Valued(Centroid(pages, ms))
  {
    var r := Centroid(pages, ms);
    CentroidSpec(pages, ms, "");
    forall e | e in Entries(r) ensures e.val.value.Some? {
      CentroidSpec(pages, ms, e.key);
      LookupSpec(r, e.key);
    }
  }

  /** `updateCentroids`: every cluster's centroid recomputed from its members. */
  function UpdateCentroids(pages: seq<Map<real>>, assignments: seq<nat>): (cs: seq<Map<real>>)
    requires Weighted(pages) && |assignments| == |pages|
    ensures |cs| == NumClusters
  {
    seq(NumClusters, c requires 0 <= c < NumClusters => Centroid(pages, Members(assignments, c)))
  }

  /** Each new centroid is the mean of the pages assigned to its cluster: a word present in
      one of them holds the sum of its weights over the cluster's pages divided by their
      number, and other words are absent. */
  lemma UpdateCentroidsSpec(pages: seq<Map<real>>, assignments: seq<nat>, c: nat, w: string)
    requires Weighted(pages) && |assignments| == |pages| && c < NumClusters
    ensures Weighted(UpdateCentroids(pages, assignments))
    ensures w in KeySet(UpdateCentroids(pages, assignments)[c])
        <==> exists i | 0 <= i < |pages| :: assignments[i] == c && w in KeySet(pages[i])
    ensures Get(UpdateCentroids(pages, assignments)[c], w)
         == if w in KeySet(UpdateCentroids(pages, assignments)[c])
            then Some(MemberSum(pages, Members(assignments, c), w) / |Members(assignments, c)| as real)
            else None
  {
    var cs := UpdateCentroids(pages, assignments);
    var ms := Members(assignments, c);
    UpdateCentroidsWeighted(pages, assignments);
    assert cs[c] == Centroid(pages, ms);
    CentroidSpec(pages, ms, w);
    MembersInAny(pages, assignments, c, w);
  }

  /** Every recomputed centroid is a valid table of weights. */
  lemma UpdateCentroidsWeighted(pages: seq<Map<real>>, assignments: seq<nat>)
    requires Weighted(pages) && |assignments| == |pages|
    ensures Weighted(UpdateCentroids(pages, assignments))
  {
    var cs := UpdateCentroids(pages, assignments);
    forall d | 0 <= d < |cs| ensures Valid(cs[d]) && Valued(cs[d]) {
      CentroidValued(pages, Members(assignments, d));
    }
  }

  /** Some member of a cluster holds the word exactly when some page assigned to it does. */
  lemma MembersInAny(pages: seq<Map<real>>, assignments: seq<nat>, c: nat, w: string)
    requires |assignments| == |pages|
    ensures InAny(pages, Members(assignments, c), w)
        <==> exists i | 0 <= i < |pages| :: assignments[i] == c && w in KeySet(pages[i])
  {
    var ms := Members(assignments, c);
    if exists i | 0 <= i < |pages| :: assignments[i] == c && w in KeySet(pages[i]) {
      var i :| 0 <= i < |pages| && assignments[i] == c && w in KeySet(pages[i]);
      MembersSpec(assignments, c, i);
      var j :| 0 <= j < |ms| && ms[j] == i;
    }
    if InAny(pages, ms, w) {
      var j :| 0 <= j < |ms| && w in KeySet(pages[ms[j]]);
      MembersSpec(assignments, c, ms[j]);
    }
  }

  // ---------------------------------------------------------------------------
  // The k-means loop

  /** `ClusteringResult`: each page's cluster and the seven centroids. */
  datatype ClusteringResult = ClusteringResult(assignments: seq<nat>, centroids: seq<Map<real>>)

  /** Every page's nearest centroid, in page order. */
  function NearestAll(pages: seq<Map<real>>, centroids: seq<Map<real>>, sqrt: real -> real): (r: seq<nat>)
    requires Weighted(pages) && Weighted(centroids) && GoodSqrt(sqrt)
    ensures |r| == |pages|
  {
    seq(|pages|, i requires 0 <= i < |pages| => Nearest(pages[i], centroids, sqrt))
  }

  /** With at least one centroid, every page goes to one of them. */
  lemma NearestAllBound(pages: seq<Map<real>>, centroids: seq<Map<real>>, sqrt: real -> real)
    requires Weighted(pages) && Weighted(centroids) && GoodSqrt(sqrt) && centroids != []
    ensures forall i | 0 <= i < |pages| :: NearestAll(pages, centroids, sqrt)[i] < |centroids|
  {
    forall i | 0 <= i < |pages| ensures NearestAll(pages, centroids, sqrt)[i] < |centroids| {
      NearestSpec(pages[i], centroids, sqrt);
    }
  }

  /** The passes of `clusterPages` as a recursion on the passes left: reassign every page;
      stop when nothing moved, otherwise recompute the centroids and go on. */
  function Iterate(pages: seq<Map<real>>, r: ClusteringResult, sqrt: real -> real, budget: nat): ClusteringResult
    requires Weighted(pages) && Weighted(r.centroids) && GoodSqrt(sqrt) && |r.assignments| == |pages|
    decreases budget
  {
    if budget == 0 then r
    else
      var next := NearestAll(pages, r.centroids, sqrt);
      if next == r.assignments then r
      else
        UpdateCentroidsSpec(pages, next, 0, "");
        Iterate(pages, ClusteringResult(next, UpdateCentroids(pages, next)), sqrt, budget - 1)
  }

  /** The state before the first pass: every page in cluster 0 and the initial centroids. */
  function Start(pages: seq<Map<real>>, perm: seq<nat>): (r: Option<ClusteringResult>)
    requires Weighted(pages)
    requires IsShuffle(perm, |pages|)
    ensures r.Some? <==> |pages| >= NumClusters
    ensures r.Some? ==> (&& |r.value.assignments| == |pages| && |r.value.centroids| == NumClusters
                         && Weighted(r.value.centroids)
                         && forall i | 0 <= i < |pages| :: r.value.assignments[i] == 0)
  {
    InitializeCentroidsSpec(pages, perm, 0, "");
    match InitializeCentroids(pages, perm)
    case None => None
    case Some(cs) => Some(ClusteringResult(seq(|pages|, _ => 0), cs))
  }

  /** A clustering state of the loop: one cluster below seven per page and seven weight
      vectors as centroids. */
  ghost predicate Sound(pages: seq<Map<real>>, r: ClusteringResult)
  {
    && |r.assignments| == |pages| && |r.centroids| == NumClusters && Weighted(r.centroids)
    && forall i | 0 <= i < |pages| :: r.assignments[i] < NumClusters
  }

  /** One pass of the loop is one step of `Iterate`: a pass that moves nothing leaves the
      state as the result, otherwise the recomputed state is sound and carries on. */
  lemma PassSpec(pages: seq<Map<real>>, r: ClusteringResult, sqrt: real -> real, budget: nat,
                 next: seq<nat>, changed: bool)
    requires Weighted(pages) && GoodSqrt(sqrt) && Sound(pages, r) && budget > 0
    requires |next| == |pages| && forall i | 0 <= i < |pages| :: next[i] == Nearest(pages[i], r.centroids, sqrt)
    requires changed <==> exists i | 0 <= i < |pages| :: next[i] != r.assignments[i]
    ensures next == NearestAll(pages, r.centroids, sqrt)
    ensures !changed ==> next == r.assignments && Iterate(pages, r, sqrt, budget) == r
    ensures changed ==>
              && Sound(pages, ClusteringResult(next, UpdateCentroids(pages, next)))
              && Iterate(pages, r, sqrt, budget)
                 == Iterate(pages, ClusteringResult(next, UpdateCentroids(pages, next)), sqrt, budget - 1)
  {
    var all := NearestAll(pages, r.centroids, sqrt);
    assert next == all;
    if !changed {
      assert next == r.assignments;
      PassStill(pages, r, sqrt, budget);
    } else {
      PassMoved(pages, r, sqrt, budget, next);
    }
  }

  lemma PassStill(pages: seq<Map<real>>, r: ClusteringResult, sqrt: real -> real, budget: nat)
    requires Weighted(pages) && GoodSqrt(sqrt) && Sound(pages, r) && budget > 0
    requires NearestAll(pages, r.centroids, sqrt) == r.assignments
    ensures Iterate(pages, r, sqrt, budget) == r
  {
  }

  lemma PassMoved(pages: seq<Map<real>>, r: ClusteringResult, sqrt: real -> real, budget: nat, next: seq<nat>)
    requires Weighted(pages) && GoodSqrt(sqrt) && Sound(pages, r) && budget > 0
    requires next == NearestAll(pages, r.centroids, sqrt) && next != r.assignments
    ensures Sound(pages, ClusteringResult(next, UpdateCentroids(pages, next)))
    ensures Iterate(pages, r, sqrt, budget)
         == Iterate(pages, ClusteringResult(next, UpdateCentroids(pages, next)), sqrt, budget - 1)
  {
    NearestAllBound(pages, r.centroids, sqrt);
    UpdateCentroidsSpec(pages, next, 0, "");
  }

  /** `clusterPages`: every page starts in cluster 0 and the centroids are copies of seven
      shuffled pages (`None` with fewer than seven pages, where `initializeCentroids` fails).
      Each pass reassigns the pages; a pass that moves nothing ends the loop with the
      centroids as they are, otherwise the centroids are recomputed, for at most one hundred
      passes. The result is the recursion `Iterate`; when the loop converged every page sits
      at its nearest centroid, and when it did not, all one hundred passes ran and the
      centroids are the means of the final clusters. */
  method ClusterPages(pages: seq<Map<real>>, perm: seq<nat>, sqrt: real -> real)
    returns (result: Option<ClusteringResult>, passes: nat, converged: bool)
    requires Weighted(pages) && GoodSqrt(sqrt)
    requires IsShuffle(perm, |pages|)
    ensures result.None? <==> |pages| < NumClusters
    ensures result.Some? ==>
              var r := result.value;
              && |r.assignments| == |pages| && |r.centroids| == NumClusters && Weighted(r.centroids)
              && (forall i | 0 <= i < |pages| :: r.assignments[i] < NumClusters)
              && 1 <= passes <= MaxIterations
              && (converged ==> r.assignments == NearestAll(pages, r.centroids, sqrt))
              && (!converged ==> passes == MaxIterations && r.centroids == UpdateCentroids(pages, r.assignments))
    ensures result.Some? ==> Start(pages, perm).Some?
                             && result.value == Iterate(pages, Start(pages, perm).value, sqrt, MaxIterations)
  {
    var init := Start(pages, perm);
    if init.None? {
      return None, 0, false;
    }
    var start := init.value;
    var target := Iterate(pages, start, sqrt, MaxIterations);
    var r := start;
    passes, converged := 0, false;
    while passes < MaxIterations && !converged
      invariant passes <= MaxIterations && (passes == 0 ==> !converged)
      invariant Sound(pages, r)
      invariant converged ==> r.assignments == NearestAll(pages, r.centroids, sqrt) && r == target
      invariant !converged ==> Iterate(pages, r, sqrt, MaxIterations - passes) == target
      invariant !converged && passes > 0 ==> r.centroids == UpdateCentroids(pages, r.assignments)
    {
      var next, changed := AssignToClusters(pages, r.centroids, r.assignments, sqrt);
      PassSpec(pages, r, sqrt, MaxIterations - passes, next, changed);
      passes := passes + 1;
      if !changed {
        converged := true;
      } else {
        r := ClusteringResult(next, UpdateCentroids(pages, next));
      }
    }
    result := Some(r);
  }
}
