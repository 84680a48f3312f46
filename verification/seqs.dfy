/** Sequence helpers shared by the hash tables and the vector code. */
module Seqs {

  /** Concatenation of a sequence of sequences, in order. */
  function Flatten<T>(bs: seq<seq<T>>): seq<T>
  {
    if bs == [] then [] else bs[0] + Flatten(bs[1..])
  }

  lemma {:induction false} FlattenAppend<T>(a: seq<seq<T>>, b: seq<seq<T>>)
    ensures Flatten(a + b) == Flatten(a) + Flatten(b)
    decreases |a|
  {
    if a == [] {
      assert a + b == b;
    } else {
      assert (a + b)[1..] == a[1..] + b;
      FlattenAppend(a[1..], b);
    }
  }

  /** The j-th inner sequence sits between the flattenings of the sequences before and after it. */
  lemma {:induction false} FlattenSplit<T>(bs: seq<seq<T>>, j: nat)
    requires j < |bs|
    ensures Flatten(bs) == Flatten(bs[..j]) + bs[j] + Flatten(bs[j + 1..])
  {
    var before, rest := bs[..j], bs[j..];
    assert bs == before + rest;
    FlattenAppend(before, rest);
    assert rest[1..] == bs[j + 1..];
    assert Flatten(rest) == bs[j] + Flatten(bs[j + 1..]);
  }

  lemma {:induction false} FlattenMember<T>(bs: seq<seq<T>>, x: T)
    ensures x in Flatten(bs) <==> exists i :: 0 <= i < |bs| && x in bs[i]
    decreases |bs|
  {
    if bs != [] {
      FlattenMember(bs[1..], x);
      if x in Flatten(bs[1..]) {
        var i :| 0 <= i < |bs[1..]| && x in bs[1..][i];
        assert x in bs[i + 1];
      }
      if exists i :: 0 <= i < |bs| && x in bs[i] {
        var i :| 0 <= i < |bs| && x in bs[i];
        if i > 0 {
          assert x in bs[1..][i - 1];
        }
      }
    }
  }

  lemma {:induction false} FlattenLength<T>(bs: seq<seq<T>>)
    requires forall i :: 0 <= i < |bs| ==> bs[i] == []
    ensures Flatten(bs) == []
    decreases |bs|
  {
    if bs != [] {
      FlattenLength(bs[1..]);
    }
  }

  lemma MultisetUpdate<T>(s: seq<T>, i: nat, x: T)
    requires i < |s|
    ensures multiset(s[i := x]) == multiset(s) - multiset{s[i]} + multiset{x}
  {
    assert s == s[..i] + [s[i]] + s[i + 1..];
    assert s[i := x] == s[..i] + [x] + s[i + 1..];
  }

  /** No element occurs twice. */
  ghost predicate Distinct<T>(s: seq<T>)
  {
    forall p, q | 0 <= p < q < |s| :: s[p] != s[q]
  }

  /** Sum of an integer measure over a sequence, left to right. */
  function Sum<T>(s: seq<T>, f: T -> int): int
  {
    if s == [] then 0 else f(s[0]) + Sum(s[1..], f)
  }

  lemma {:induction false} SumAppend<T>(a: seq<T>, b: seq<T>, f: T -> int)
    ensures Sum(a + b, f) == Sum(a, f) + Sum(b, f)
    decreases |a|
  {
    if a == [] {
      assert a + b == b;
    } else {
      assert (a + b)[1..] == a[1..] + b;
      SumAppend(a[1..], b, f);
    }
  }

  /** Removing the element at position i takes it out of the multiset and its measure out of the sum. */
  lemma RemoveAt<T>(b: seq<T>, i: nat, f: T -> int)
    requires i < |b|
    ensures multiset(b[..i] + b[i + 1..]) == multiset(b) - multiset{b[i]}
    ensures Sum(b, f) == Sum(b[..i] + b[i + 1..], f) + f(b[i])
  {
    RemoveAtMultiset(b, i);
    RemoveAtSum(b, i, f);
  }

  lemma RemoveAtMultiset<T>(b: seq<T>, i: nat)
    requires i < |b|
    ensures multiset(b[..i] + b[i + 1..]) == multiset(b) - multiset{b[i]}
  {
    var left := b[..i];
    var right := b[i + 1..];
    assert b == left + [b[i]] + right;
  }

  lemma RemoveAtSum<T>(b: seq<T>, i: nat, f: T -> int)
    requires i < |b|
    ensures Sum(b, f) == Sum(b[..i] + b[i + 1..], f) + f(b[i])
  {
    var left := b[..i];
    var right := b[i + 1..];
    var x := b[i];
    assert b == (left + [x]) + right;
    SumAppend(left + [x], right, f);
    SumAppend(left, [x], f);
    SumAppend(left, right, f);
    SumSingle(x, f);
  }

  lemma SumSingle<T>(x: T, f: T -> int)
    ensures Sum([x], f) == f(x)
  {
    assert [x][1..] == [];
  }

  /** The sum does not depend on the order of the elements. */
  lemma {:induction false} SumPermutation<T>(a: seq<T>, b: seq<T>, f: T -> int)
    requires multiset(a) == multiset(b)
    ensures Sum(a, f) == Sum(b, f)
    decreases |a|
  {
    if a == [] {
      assert |multiset(b)| == 0;
    } else {
      var x := a[0];
      assert x in multiset(b);
      var i :| 0 <= i < |b| && b[i] == x;
      var rest := b[..i] + b[i + 1..];
      RemoveAt(b, i, f);
      assert a == [x] + a[1..];
      assert multiset(a[1..]) == multiset(rest);
      SumPermutation(a[1..], rest, f);
    }
  }

  /** Adding one element to the multiset adds its measure to the sum. */
  lemma SumAddOne<T>(a: seq<T>, b: seq<T>, x: T, f: T -> int)
    requires multiset(a) == multiset(b) + multiset{x}
    ensures Sum(a, f) == Sum(b, f) + f(x)
  {
    assert multiset(b + [x]) == multiset(a);
    SumPermutation(a, b + [x], f);
    SumAppend(b, [x], f);
    SumSingle(x, f);
  }

  /** Replacing one element changes the sum by the difference of the measures. */
  lemma SumReplaceOne<T>(a: seq<T>, b: seq<T>, x: T, y: T, f: T -> int)
    requires x in multiset(b)
    requires multiset(a) == multiset(b) - multiset{x} + multiset{y}
    ensures Sum(a, f) == Sum(b, f) - f(x) + f(y)
  {
    var i :| 0 <= i < |b| && b[i] == x;
    var rest := b[..i] + b[i + 1..];
    RemoveAt(b, i, f);
    SumAddOne(a, rest, y, f);
  }

  /** In a sequence without repetitions, each element occurs once. */
  lemma {:induction false} DistinctOnce<T>(s: seq<T>, x: T)
    requires Distinct(s)
    ensures multiset(s)[x] == if x in s then 1 else 0
    decreases |s|
  {
    if s != [] {
      assert s == [s[0]] + s[1..];
      DistinctOnce(s[1..], x);
      if s[0] == x {
        forall i | 0 <= i < |s[1..]| ensures s[1..][i] != x {
          assert s[1..][i] == s[i + 1];
        }
      }
    }
  }

  /** The multiset of a non-empty sequence: that of all but the last element, plus the last. */
  lemma MultisetLast<T>(s: seq<T>)
    requires s != []
    ensures multiset(s) == multiset(s[..|s| - 1]) + multiset{s[|s| - 1]}
  {
    assert s == s[..|s| - 1] + [s[|s| - 1]];
  }
}
