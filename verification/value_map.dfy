/** The hash table of src/HT.java: each node holds a key and a value only. */
module ValueMap {
  import opened Wrappers
  import opened Seqs
  import opened Hashing
  import opened ChainedTable

  type Map<V> = Table<V>

  /** Power-of-two capacity of at least 8 and `size <= 0.75 * capacity`. */
  ghost predicate Valid<V>(t: Map<V>)
  {
    && WellFormed(t)
    && IsPow2(|t.buckets|) && |t.buckets| >= InitialCapacity
    && 4 * t.size <= 3 * |t.buckets|
  }

  function New<V>(): (t: Map<V>)
    ensures Valid(t) && Entries(t) == [] && |t.buckets| == InitialCapacity
  {
    assert IsPow2(InitialCapacity) by {
      assert IsPow2(4) && IsPow2(2) && IsPow2(1);
    }
    Empty(InitialCapacity)
  }

  /** `get(key)`: the stored value, or `None` (null) for an absent key. */
  function Get<V>(t: Map<V>, k: string): Option<V>
    requires |t.buckets| > 0
  {
    match Lookup(t, k)
    case Some(e) => Some(e.val)
    case None => None
  }

  /** The part of `add` before its growth test: overwrite in place, or prepend a new node
      and count it. */
  function Put<V>(t: Map<V>, k: string, v: V): (r: Map<V>)
    requires |t.buckets| > 0
    ensures |r.buckets| == |t.buckets|
  {
    var j := Bucket(k, |t.buckets|);
    var c := t.buckets[j];
    var p := FindIn(c, k);
    if p < |c| then Replace(t, j, p, Entry(k, v)) else Prepend(t, Entry(k, v))
  }

  /** The re-add loop of `resize`: every listed node, in order, added to the new table. */
  function Reinsert<V>(ns: seq<Entry<V>>, t: Map<V>): (r: Map<V>)
    requires |t.buckets| > 0
    ensures |r.buckets| == |t.buckets|
    decreases |ns|
  {
    if ns == [] then t else Reinsert(ns[1..], Put(t, ns[0].key, ns[0].val))
  }

  /** `resize()`: a table of twice the capacity with `size` reset to 0, then every old node
      re-added, old buckets in order and each chain from its head. */
  function Resize<V>(t: Map<V>): Map<V>
    requires |t.buckets| > 0
  {
    Reinsert(Entries(t), Empty(2 * |t.buckets|))
  }

  /** The growth test after a new node: `++size > table.length * 0.75`. */
  function Grow<V>(t: Map<V>): Map<V>
    requires |t.buckets| > 0
  {
    if 4 * t.size > 3 * |t.buckets| then Resize(t) else t
  }

  /** `add(key, value)`: overwrite an existing key's value and return, or prepend a new
      node, count it and grow if needed. */
  function Add<V>(t: Map<V>, k: string, v: V): (r: Map<V>)
    requires |t.buckets| > 0
    ensures |r.buckets| >= |t.buckets|
  {
    var j := Bucket(k, |t.buckets|);
    var c := t.buckets[j];
    var p := FindIn(c, k);
    if p < |c| then Replace(t, j, p, Entry(k, v)) else Grow(Prepend(t, Entry(k, v)))
  }

  // ---------------------------------------------------------------------------
  // Lemmas

  /** Adding a key the table does not hold prepends its node. */
  lemma PutNew<V>(t: Map<V>, e: Entry<V>)
    requires WellFormed(t) && e.key !in KeySet(t)
    ensures Put(t, e.key, e.val) == Prepend(t, e)
  {
    LookupSpec(t, e.key);
  }

  /** Re-adding distinct keys that are all new is the same as relinking the nodes. */
  lemma {:induction false} ReinsertIsRehash<V>(ns: seq<Entry<V>>, t: Map<V>)
    requires WellFormed(t) && UniqueKeys(ns)
    requires forall x, y | x in ns && y in Entries(t) :: x.key != y.key
    ensures Reinsert(ns, t) == Rehash(ns, t)
    decreases |ns|
  {
    if ns != [] {
      var e := ns[0];
      assert e in ns;
      KeyNotListed(t, e);
      PutNew(t, e);
      PrependSpec(t, e);
      RehashRest(ns, t);
      ReinsertIsRehash(ns[1..], Prepend(t, e));
    }
  }

  /** An entry whose key clashes with no listed entry has a key outside the key set. */
  lemma KeyNotListed<V>(t: Map<V>, e: Entry<V>)
    requires forall y | y in Entries(t) :: y.key != e.key
    ensures e.key !in KeySet(t)
  {
    forall i | 0 <= i < |Entries(t)|
      ensures Entries(t)[i].key != e.key
    {
      assert Entries(t)[i] in Entries(t);
    }
  }

  /** `resize()` re-adds nodes with distinct keys to an empty table, so it relinks them. */
  lemma ResizeIsRehash<V>(t: Map<V>)
    requires WellFormed(t)
    ensures Resize(t) == Rehash(Entries(t), Empty(2 * |t.buckets|))
  {
    ReinsertIsRehash(Entries(t), Empty<V>(2 * |t.buckets|));
  }

  /** Resizing doubles the capacity and keeps the nodes, `size` and every lookup. */
  lemma ResizeSpec<V>(t: Map<V>)
    requires WellFormed(t) && IsPow2(|t.buckets|)
    ensures WellFormed(Resize(t))
    ensures |Resize(t).buckets| == 2 * |t.buckets| && IsPow2(|Resize(t).buckets|)
    ensures Resize(t).size == t.size
    ensures multiset(Entries(Resize(t))) == multiset(Entries(t))
    ensures forall k :: Lookup(Resize(t), k) == Lookup(t, k)
  {
    var e0: Map<V> := Empty(2 * |t.buckets|);
    var r := Resize(t);
    ResizeIsRehash(t);
    assert r == Rehash(Entries(t), e0);
    RehashSpec(Entries(t), e0);
    assert IsPow2(|r.buckets|) by {
      assert |r.buckets| / 2 == |t.buckets|;
    }
    forall k
      ensures Lookup(r, k) == Lookup(t, k)
    {
      SameEntriesSameLookup(r, t, k);
    }
  }

  /** The re-add loop of `resize` as written: every listed node goes through the full
      `add`, growth test included, against the new table. */
  function ReinsertAdding<V>(ns: seq<Entry<V>>, t: Map<V>): Map<V>
    requires |t.buckets| > 0
    decreases |ns|
  {
    if ns == [] then t else ReinsertAdding(ns[1..], Add(t, ns[0].key, ns[0].val))
  }

  /** Below the growth threshold even after one more node, `add` does not grow: it is the
      part before its growth test, which adds at most one node. */
  lemma AddBelowThreshold<V>(t: Map<V>, k: string, v: V)
    requires |t.buckets| > 0 && 4 * (t.size + 1) <= 3 * |t.buckets|
    ensures Add(t, k, v) == Put(t, k, v)
    ensures Put(t, k, v).size <= t.size + 1
  {
  }

  /** While every node still to come fits under the threshold, the growth test in the loop
      never fires, and the loop is `Reinsert`. */
  lemma {:induction false} ReinsertAddingIsReinsert<V>(ns: seq<Entry<V>>, t: Map<V>)
    requires |t.buckets| > 0 && 4 * (t.size + |ns|) <= 3 * |t.buckets|
    ensures ReinsertAdding(ns, t) == Reinsert(ns, t)
    decreases |ns|
  {
    if ns != [] {
      AddBelowThreshold(t, ns[0].key, ns[0].val);
      ReinsertAddingIsReinsert(ns[1..], Put(t, ns[0].key, ns[0].val));
    }
  }

  /** The growth test inside the re-add loop never fires: `resize` is reached with at most
      one node over 3/4 of the capacity, so the doubled table stays within 3/4 at every step
      of the loop, and re-adding with the full `add` is the same as `Reinsert`. */
  lemma ResizeNeverNests<V>(t: Map<V>)
    requires WellFormed(t) && |t.buckets| >= 2
    requires 4 * (t.size - 1) <= 3 * |t.buckets|
    ensures Resize(t) == ReinsertAdding(Entries(t), Empty(2 * |t.buckets|))
  {
    ReinsertAddingIsReinsert(Entries(t), Empty<V>(2 * |t.buckets|));
  }

  /** A new node keeps the table Valid, growing it if needed, and adds exactly that node. */
  lemma InsertNewSpec<V>(t: Map<V>, e: Entry<V>)
    requires Valid(t) && e.key !in KeySet(t)
    ensures Valid(Grow(Prepend(t, e)))
    ensures Grow(Prepend(t, e)).size == t.size + 1
    ensures multiset(Entries(Grow(Prepend(t, e)))) == multiset(Entries(t)) + multiset{e}
  {
    var u := Prepend(t, e);
    PrependSpec(t, e);
    if 4 * u.size > 3 * |u.buckets| {
      ResizeSpec(u);
    }
  }

  /** The lookup-level effect of `add(key, value)`: Valid is kept, `k` finds the new node,
      every other key is untouched. */
  lemma AddLookup<V>(t: Map<V>, k: string, v: V)
    requires Valid(t)
    ensures Valid(Add(t, k, v))
    ensures Lookup(Add(t, k, v), k) == Some(Entry(k, v))
    ensures forall k' | k' != k :: Lookup(Add(t, k, v), k') == Lookup(t, k')
    ensures Add(t, k, v).size == if k in KeySet(t) then t.size else t.size + 1
  {
    var j := Bucket(k, |t.buckets|);
    var c := t.buckets[j];
    var p := FindIn(c, k);
    var e := Entry(k, v);
    var r := Add(t, k, v);
    LookupSpec(t, k);
    if p < |c| {
      ReplaceSpec(t, j, p, e);
      forall k' ensures Lookup(r, k') == if k' == k then Some(e) else Lookup(t, k') {
        LookupAfterReplace(t, r, c[p], e, k');
      }
    } else {
      AbsentFromChain(t, k);
      InsertNewSpec(t, e);
      forall k' ensures Lookup(r, k') == if k' == k then Some(e) else Lookup(t, k') {
        LookupAfterInsert(t, r, e, k');
      }
    }
  }

  /** `add(key, value)`: afterwards `get(key)` gives `v`; other keys keep their values;
      `size` grows by one exactly for a new key; Valid is kept. */
  lemma AddSpec<V>(t: Map<V>, k: string, v: V)
    requires Valid(t)
    ensures Valid(Add(t, k, v))
    ensures Get(Add(t, k, v), k) == Some(v)
    ensures forall k' | k' != k :: Get(Add(t, k, v), k') == Get(t, k')
    ensures KeySet(Add(t, k, v)) == KeySet(t) + {k}
    ensures Add(t, k, v).size == if k in KeySet(t) then t.size else t.size + 1
  {
    AddLookup(t, k, v);
    KeySetAfter(t, Add(t, k, v), k);
  }

  /** `get(w)` after `add(k, v)`: `v` for `k`, the old value for any other word. */
  lemma AddGet<V>(t: Map<V>, k: string, v: V, w: string)
    requires Valid(t)
    ensures Valid(Add(t, k, v))
    ensures Get(Add(t, k, v), w) == if w == k then Some(v) else Get(t, w)
  {
    AddLookup(t, k, v);
  }

  /** A sequence of `add` calls, in order. */
  function AddAll<V>(t: Map<V>, ops: seq<(string, V)>): (r: Map<V>)
    requires |t.buckets| > 0
    ensures |r.buckets| >= |t.buckets|
    decreases |ops|
  {
    if ops == [] then t
    else Add(AddAll(t, ops[..|ops| - 1]), ops[|ops| - 1].0, ops[|ops| - 1].1)
  }

  lemma {:induction false} AddAllSpec<V>(t: Map<V>, ops: seq<(string, V)>, k: string)
    requires Valid(t)
    ensures Valid(AddAll(t, ops))
    ensures Get(AddAll(t, ops), k) == if LastValue(ops, k).Some? then LastValue(ops, k) else Get(t, k)
    decreases |ops|
  {
    if ops != [] {
      var init := ops[..|ops| - 1];
      AddAllSpec(t, init, k);
      AddSpec(AddAll(t, init), ops[|ops| - 1].0, ops[|ops| - 1].1);
    }
  }

  /** `get` returns the value of the most recent `add` of the key, or null if it was never added. */
  lemma GetReturnsLastAdded<V>(ops: seq<(string, V)>, k: string)
    ensures Valid(AddAll(New(), ops))
    ensures Get(AddAll(New(), ops), k) == LastValue(ops, k)
  {
    AddAllSpec(New(), ops, k);
    LookupSpec(New<V>(), k);
  }
}
