/** Sparse vectors as listings of (term, weight) pairs, the form in which both similarity
    functions walk a table's nodes. */
module Vectors {

  type Vec = seq<(string, real)>

  ghost predicate DistinctKeys(v: Vec)
  {
    forall p, q | 0 <= p < q < |v| :: v[p].0 != v[q].0
  }

  function Keys(v: Vec): set<string>
  {
    set i | 0 <= i < |v| :: v[i].0
  }

  /** The weight listed for `k`, or 0 when `k` is not listed. */
  function At(v: Vec, k: string): real
  {
    if v == [] then 0.0 else if v[0].0 == k then v[0].1 else At(v[1..], k)
  }

  /** `sum of u[k] * v[k]` over the entries of `u`, a missing `v[k]` counting 0. */
  function Dot(u: Vec, v: Vec): real
  {
    if u == [] then 0.0 else u[0].1 * At(v, u[0].0) + Dot(u[1..], v)
  }

  /** Sum of the squared weights. */
  function SumSq(v: Vec): (r: real)
    ensures r >= 0.0
  {
    if v == [] then 0.0
    else
      SqNonNegative(v[0].1);
      Sq(v[0].1) + SumSq(v[1..])
  }

  /** Every weight replaced by 1: the indicator of the key set. */
  function Ones(v: Vec): (r: Vec)
    ensures |r| == |v| && forall i | 0 <= i < |v| :: r[i] == (v[i].0, 1.0)
  {
    seq(|v|, i requires 0 <= i < |v| => (v[i].0, 1.0))
  }

  function Sq(x: real): real
  {
    x * x
  }

  lemma SqNonNegative(x: real)
    ensures Sq(x) >= 0.0
  {
    if x < 0.0 {
      assert Sq(x) == (-x) * (-x);
    }
  }

  /** Every weight squared. */
  function Squares(v: Vec): (r: Vec)
    ensures |r| == |v| && forall i | 0 <= i < |v| :: r[i] == (v[i].0, Sq(v[i].1))
  {
    seq(|v|, i requires 0 <= i < |v| => (v[i].0, Sq(v[i].1)))
  }

  /** `sum of w[k]^2` over the entries of `w` whose key is not in `ks`. */
  function SumSqOutside(w: Vec, ks: set<string>): real
  {
    if w == [] then 0.0
    else (if w[0].0 in ks then 0.0 else Sq(w[0].1)) + SumSqOutside(w[1..], ks)
  }

  // ---------------------------------------------------------------------------
  // Lemmas

  lemma {:induction false} AtAbsent(v: Vec, k: string)
    requires k !in Keys(v)
    ensures At(v, k) == 0.0
    decreases |v|
  {
    if v != [] {
      assert v[0].0 in Keys(v);
      assert Keys(v[1..]) <= Keys(v) by {
        forall i | 0 <= i < |v[1..]| ensures v[1..][i].0 in Keys(v) {
          assert v[1..][i] == v[i + 1];
        }
      }
      AtAbsent(v[1..], k);
    }
  }

  lemma {:induction false} AtListed(v: Vec, i: nat)
    requires DistinctKeys(v) && i < |v|
    ensures At(v, v[i].0) == v[i].1
    decreases |v|
  {
    if i > 0 {
      assert v[0].0 != v[i].0;
      assert v[1..][i - 1] == v[i];
      AtListed(v[1..], i - 1);
    }
  }

  /** With distinct keys, `At` splits into the head's share and the tail's share. */
  lemma AtSplit(v: Vec, k: string)
    requires DistinctKeys(v) && v != []
    ensures At(v, k) == (if v[0].0 == k then v[0].1 else 0.0) + At(v[1..], k)
  {
    if v[0].0 == k {
      forall i | 0 <= i < |v[1..]| ensures v[1..][i].0 != k {
        assert v[1..][i] == v[i + 1];
      }
      AtAbsent(v[1..], k);
    }
  }

  /** `sum of w[k] * (c if k == key else 0)` over the entries of `w`. */
  function Picked(w: Vec, key: string, c: real): real
  {
    if w == [] then 0.0 else w[0].1 * (if w[0].0 == key then c else 0.0) + Picked(w[1..], key, c)
  }

  lemma {:induction false} PickedIsAt(w: Vec, key: string, c: real)
    requires DistinctKeys(w)
    ensures Picked(w, key, c) == c * At(w, key)
    decreases |w|
  {
    if w != [] {
      AtSplit(w, key);
      PickedIsAt(w[1..], key, c);
    }
  }

  /** Taking the first entry off `u` takes its share out of every `At(u, _)`. */
  lemma {:induction false} DotPeel(w: Vec, u: Vec)
    requires DistinctKeys(u) && u != []
    ensures Dot(w, u) == Picked(w, u[0].0, u[0].1) + Dot(w, u[1..])
    decreases |w|
  {
    if w != [] {
      AtSplit(u, w[0].0);
      DotPeel(w[1..], u);
    }
  }

  lemma {:induction false} DotEmpty(w: Vec)
    ensures Dot(w, []) == 0.0
    decreases |w|
  {
    if w != [] {
      DotEmpty(w[1..]);
    }
  }

  /** The dot product over `u`'s entries equals the one over `v`'s entries. */
  lemma {:induction false} DotSymmetric(u: Vec, v: Vec)
    requires DistinctKeys(u) && DistinctKeys(v)
    ensures Dot(u, v) == Dot(v, u)
    decreases |u|
  {
    if u == [] {
      DotEmpty(v);
    } else {
      assert DistinctKeys(u[1..]) by {
        forall p, q | 0 <= p < q < |u[1..]| ensures u[1..][p].0 != u[1..][q].0 {
          assert u[1..][p] == u[p + 1] && u[1..][q] == u[q + 1];
        }
      }
      var c, k := u[0].1, u[0].0;
      DotSymmetric(u[1..], v);
      DotPeel(v, u);
      PickedIsAt(v, k, c);
      assert Dot(u, v) == c * At(v, k) + Dot(u[1..], v);
      assert Dot(v, u) == c * At(v, k) + Dot(v, u[1..]);
    }
  }

  /** A vector's dot product with itself is its sum of squares. */
  lemma DotSelf(v: Vec)
    requires DistinctKeys(v)
    ensures Dot(v, v) == SumSq(v)
  {
    DotPrefix(v, v, |v|);
    assert v[|v|..] == [];
  }

  lemma {:induction false} DotPrefix(v: Vec, w: Vec, n: nat)
    requires DistinctKeys(v) && n <= |v| && w == v[|v| - n..]
    ensures Dot(w, v) == SumSq(w)
    decreases n
  {
    if n > 0 {
      AtListed(v, |v| - n);
      assert w[1..] == v[|v| - (n - 1)..];
      DotPrefix(v, w[1..], n - 1);
    }
  }

  lemma {:induction false} AtOnes(v: Vec, k: string)
    ensures At(Ones(v), k) == if k in Keys(v) then 1.0 else 0.0
    decreases |v|
  {
    if v != [] {
      assert Ones(v)[1..] == Ones(v[1..]);
      AtOnes(v[1..], k);
      assert Keys(v) == {v[0].0} + Keys(v[1..]) by {
        forall x | x in Keys(v) ensures x in {v[0].0} + Keys(v[1..]) {
          var i :| 0 <= i < |v| && v[i].0 == x;
          if i > 0 { assert v[1..][i - 1] == v[i]; }
        }
        forall x | x in Keys(v[1..]) ensures x in Keys(v) {
          var i :| 0 <= i < |v[1..]| && v[1..][i].0 == x;
          assert v[i + 1].0 == x;
        }
      }
    }
  }

  lemma {:induction false} AtSquares(v: Vec, k: string)
    ensures At(Squares(v), k) == Sq(At(v, k))
    decreases |v|
  {
    if v != [] {
      assert Squares(v)[1..] == Squares(v[1..]);
      AtSquares(v[1..], k);
    }
  }

  lemma DistinctKeysMapped(v: Vec, w: Vec)
    requires DistinctKeys(v) && |w| == |v| && forall i | 0 <= i < |v| :: w[i].0 == v[i].0
    ensures DistinctKeys(w)
  {
  }

  /** `sum of w[k]^2 * [k in ks]` plus `sum of w[k]^2 * [k not in ks]` is the full sum of squares. */
  lemma {:induction false} SplitSquares(w: Vec, u: Vec)
    ensures Dot(Squares(w), Ones(u)) + SumSqOutside(w, Keys(u)) == SumSq(w)
    decreases |w|
  {
    if w != [] {
      assert Squares(w)[1..] == Squares(w[1..]);
      AtOnes(u, w[0].0);
      SplitSquares(w[1..], u);
    }
  }

  /** Squaring the weights of `w` looked up for `u`'s keys, then adding the squares of the
      entries of `w` whose key `u` lacks, gives the full sum of squares of `w`. */
  lemma TwoPassMagnitude(u: Vec, w: Vec)
    requires DistinctKeys(u) && DistinctKeys(w)
    ensures Dot(Ones(u), Squares(w)) + SumSqOutside(w, Keys(u)) == SumSq(w)
  {
    DistinctKeysMapped(u, Ones(u));
    DistinctKeysMapped(w, Squares(w));
    DotSymmetric(Ones(u), Squares(w));
    SplitSquares(w, u);
  }
}
