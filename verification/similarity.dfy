/** a2/Similarity.java: the word counter and the cosine similarity of two weight tables.
    Weights are `real`; `Math.sqrt` is the parameter `sqrt`. */
module Similarity {
  import opened Wrappers
  import opened Seqs
  import opened ChainedTable
  import opened CountMap
  import opened Vectors
  import opened Text

  /** `countWords(text)`: `add(word)` for every non-empty token, so every node has a count
      and a null value. */
  function CountWords(text: string): (m: Map<real>)
    ensures Valid(m)
  {
    TouchAllSpec(New<real>(), Tokens(text), "");
    TouchAll(New(), Tokens(text))
  }

  /** Each word's count is its number of occurrences among the tokens, the values stay
      null, the keys are exactly the tokens (non-empty words over `a`-`z`), and the counts
      add up to the number of tokens. */
  lemma CountWordsSpec(text: string, w: string)
    ensures Valid(CountWords(text))
    ensures GetCount(CountWords(text), w) == multiset(Tokens(text))[w]
    ensures Get(CountWords(text), w) == None
    ensures w in KeySet(CountWords(text)) <==> w in Tokens(text)
    ensures w in KeySet(CountWords(text)) ==> w != [] && forall j | 0 <= j < |w| :: IsLetter(w[j])
    ensures TotalCount(Entries(CountWords(text))) == |Tokens(text)|
  {
    var m := New<real>();
    TouchAllSpec(m, Tokens(text), w);
    LookupSpec(m, w);
    TokensSpec(text);
  }

  /** Case is folded and punctuation dropped before counting: "Hi! hi," counts hi twice. */
  lemma CountWordsExample()
    ensures GetCount(CountWords("Hi! hi,"), "hi") == 2
    ensures GetCount(CountWords("Hi! hi,"), "Hi") == 0
  {
    HelloExample();
    CountWordsSpec("Hi! hi,", "hi");
    CountWordsSpec("Hi! hi,", "Hi");
  }

  // ---------------------------------------------------------------------------
  // Cosine similarity

  /** Every node carries a value, as the casts `(Double) node.value` demand. */
  ghost predicate Valued(t: Map<real>)
  {
    forall e | e in Entries(t) :: e.val.value.Some?
  }

  /** A listing of nodes read as a vector, a null value reading 0. */
  function Weights(ns: seq<Entry<Slot<real>>>): (v: Vec)
    ensures |v| == |ns| && forall i | 0 <= i < |ns| :: v[i] == (ns[i].key, ns[i].val.value.GetOr(0.0))
  {
    seq(|ns|, i requires 0 <= i < |ns| => (ns[i].key, ns[i].val.value.GetOr(0.0)))
  }

  function AsVec(t: Map<real>): Vec
  {
    Weights(Entries(t))
  }

  /** The first loop's `dotProduct`: `valA * valB` over A's nodes, where `valB` is B's value
      for the word or 0 when B has none. */
  function DotOver(ns: seq<Entry<Slot<real>>>, b: Map<real>): real
    requires |b.buckets| > 0
  {
    if ns == [] then 0.0
    else ns[0].val.value.GetOr(0.0) * Get(b, ns[0].key).GetOr(0.0) + DotOver(ns[1..], b)
  }

  /** `magA` or `magB`: the squared values summed over a listing of nodes. */
  function SquaresOver(ns: seq<Entry<Slot<real>>>): (r: real)
    ensures r >= 0.0
  {
    if ns == [] then 0.0
    else
      var x := ns[0].val.value.GetOr(0.0);
      SqNonNegative(x);
      Sq(x) + SquaresOver(ns[1..])
  }

  /** `cosineSimilarity(vectorA, vectorB)`: 0 when either magnitude is 0, otherwise the dot
      product over the product of the square roots of the magnitudes. */
  function Cosine(a: Map<real>, b: Map<real>, sqrt: real -> real): (r: real)
    requires Valid(a) && Valid(b) && Valued(a) && Valued(b)
    requires forall x: real :: x > 0.0 ==> sqrt(x) > 0.0
    ensures Entries(a) == [] || Entries(b) == [] ==> r == 0.0
  {
    CosineOf(DotOver(Entries(a), b), SquaresOver(Entries(a)), SquaresOver(Entries(b)), sqrt)
  }

  /** The dot product over the product of the square roots of the two magnitudes, or 0 when
      either magnitude is 0. */
  function CosineOf(dot: real, magA: real, magB: real, sqrt: real -> real): real
    requires magA >= 0.0 && magB >= 0.0
    requires forall x: real :: x > 0.0 ==> sqrt(x) > 0.0
  {
    if magA == 0.0 || magB == 0.0 then 0.0
    else
      ProductPositive(sqrt(magA), sqrt(magB));
      dot / (sqrt(magA) * sqrt(magB))
  }

  lemma ProductPositive(x: real, y: real)
    requires x > 0.0 && y > 0.0
    ensures x * y > 0.0
  {
  }

  /** The cosine of two weight vectors given as (term, weight) listings. */
  function VecCosine(u: Vec, v: Vec, sqrt: real -> real): real
    requires forall x: real :: x > 0.0 ==> sqrt(x) > 0.0
  {
    CosineOf(Dot(u, v), SumSq(u), SumSq(v), sqrt)
  }

  // ---------------------------------------------------------------------------
  // Lemmas

  lemma AsVecKeys(t: Map<real>)
    requires WellFormed(t)
    ensures DistinctKeys(AsVec(t))
    ensures Keys(AsVec(t)) == KeySet(t)
  {
  }

  /** Reading a term's weight off the listing gives what `get` returns, 0 standing for null. */
  lemma AtIsGet(t: Map<real>, w: string)
    requires WellFormed(t)
    ensures At(AsVec(t), w) == Get(t, w).GetOr(0.0)
  {
    var v := AsVec(t);
    var es := Entries(t);
    AsVecKeys(t);
    LookupSpec(t, w);
    match Lookup(t, w)
    case Some(e) =>
      var i :| 0 <= i < |es| && es[i] == e;
      AtListed(v, i);
    case None =>
      AtAbsent(v, w);
  }

  lemma {:induction false} DotOverIsDot(ns: seq<Entry<Slot<real>>>, b: Map<real>)
    requires WellFormed(b)
    ensures DotOver(ns, b) == Dot(Weights(ns), AsVec(b))
    decreases |ns|
  {
    if ns != [] {
      assert Weights(ns)[1..] == Weights(ns[1..]);
      AtIsGet(b, ns[0].key);
      DotOverIsDot(ns[1..], b);
    }
  }

  lemma {:induction false} SquaresOverIsSumSq(ns: seq<Entry<Slot<real>>>)
    ensures SquaresOver(ns) == SumSq(Weights(ns))
    decreases |ns|
  {
    if ns != [] {
      assert Weights(ns)[1..] == Weights(ns[1..]);
      SquaresOverIsSumSq(ns[1..]);
    }
  }

  /** The hash-table walk computes the cosine of the two weight listings: the dot product
      ranges over A's terms only (a term missing from B contributing 0), `magA` sums the
      squares of all of A and `magB` those of all of B. */
  lemma CosineIsVecCosine(a: Map<real>, b: Map<real>, sqrt: real -> real)
    requires Valid(a) && Valid(b) && Valued(a) && Valued(b)
    requires forall x: real :: x > 0.0 ==> sqrt(x) > 0.0
    ensures Cosine(a, b, sqrt) == VecCosine(AsVec(a), AsVec(b), sqrt)
  {
    DotOverIsDot(Entries(a), b);
    SquaresOverIsSumSq(Entries(a));
    SquaresOverIsSumSq(Entries(b));
  }

  /** Swapping the two magnitudes does not change the score. */
  lemma CosineOfSymmetric(dot: real, magA: real, magB: real, sqrt: real -> real)
    requires magA >= 0.0 && magB >= 0.0
    requires forall x: real :: x > 0.0 ==> sqrt(x) > 0.0
    ensures CosineOf(dot, magA, magB, sqrt) == CosineOf(dot, magB, magA, sqrt)
  {
    if magA != 0.0 && magB != 0.0 {
      assert sqrt(magA) * sqrt(magB) == sqrt(magB) * sqrt(magA);
    }
  }

  /** A dot product equal to both magnitudes scores 1, given a square root that squares back. */
  lemma CosineOfSelf(m: real, sqrt: real -> real)
    requires m >= 0.0
    requires forall x: real :: x > 0.0 ==> sqrt(x) > 0.0 && sqrt(x) * sqrt(x) == x
    ensures CosineOf(m, m, m, sqrt) == if m == 0.0 then 0.0 else 1.0
  {
    if m != 0.0 {
      var d := sqrt(m) * sqrt(m);
      assert d == m;
      assert m / d == 1.0;
    }
  }

  /** Cosine similarity does not depend on the order of its arguments. */
  lemma CosineSymmetric(a: Map<real>, b: Map<real>, sqrt: real -> real)
    requires Valid(a) && Valid(b) && Valued(a) && Valued(b)
    requires forall x: real :: x > 0.0 ==> sqrt(x) > 0.0
    ensures Cosine(a, b, sqrt) == Cosine(b, a, sqrt)
  {
    CosineIsVecCosine(a, b, sqrt);
    CosineIsVecCosine(b, a, sqrt);
    var u, v := AsVec(a), AsVec(b);
    AsVecKeys(a);
    AsVecKeys(b);
    DotSymmetric(u, v);
    CosineOfSymmetric(Dot(u, v), SumSq(u), SumSq(v), sqrt);
  }

  /** A table is similar to itself with score 1 unless all its weights are 0, given a square
      root that squares back. */
  lemma CosineSelf(a: Map<real>, sqrt: real -> real)
    requires Valid(a) && Valued(a)
    requires forall x: real :: x > 0.0 ==> sqrt(x) > 0.0 && sqrt(x) * sqrt(x) == x
    ensures Cosine(a, a, sqrt) == if SumSq(AsVec(a)) == 0.0 then 0.0 else 1.0
  {
    CosineIsVecCosine(a, a, sqrt);
    AsVecKeys(a);
    DotSelf(AsVec(a));
    CosineOfSelf(SumSq(AsVec(a)), sqrt);
  }
}
