/** The hash table of a2/HT.java: each node holds a key, an optional value (Java `null`
    when the key was only counted) and an occurrence count. */
module CountMap {
  import opened Wrappers
  import opened Seqs
  import opened Hashing
  import opened ChainedTable

  /** A node's payload. */
  datatype Slot<X> = Slot(value: Option<X>, count: nat)

  type Map<X> = Table<Slot<X>>

  /** Power-of-two capacity of at least 8, load below 3/4, and every count at least 1. */
  ghost predicate Valid<X>(t: Map<X>)
  {
    && WellFormed(t)
    && IsPow2(|t.buckets|) && |t.buckets| >= InitialCapacity
    && 4 * t.size < 3 * |t.buckets|
    && forall e | e in Entries(t) :: e.val.count >= 1
  }

  function CountOf<X>(e: Entry<Slot<X>>): int
  {
    e.val.count
  }

  /** The sum of the `count` fields over a listing of nodes. */
  function TotalCount<X>(s: seq<Entry<Slot<X>>>): int
  {
    Sum(s, CountOf)
  }

  /** `new HT()`: eight empty buckets. */
  function New<X>(): (t: Map<X>)
    ensures Valid(t) && Entries(t) == [] && |t.buckets| == InitialCapacity
  {
    assert IsPow2(InitialCapacity) by {
      assert IsPow2(4) && IsPow2(2) && IsPow2(1);
    }
    Empty(InitialCapacity)
  }

  /** `get(key)`: the node's value, or `None` (null) when the key is absent or was only counted. */
  function Get<X>(t: Map<X>, k: string): Option<X>
    requires |t.buckets| > 0
  {
    match Lookup(t, k)
    case Some(e) => e.val.value
    case None => None
  }

  /** `getCount(key)`: the node's count, or 0 when the key is absent. */
  function GetCount<X>(t: Map<X>, k: string): nat
    requires |t.buckets| > 0
  {
    match Lookup(t, k)
    case Some(e) => e.val.count
    case None => 0
  }

  /** `resize()`: doubles the bucket array and relinks every node at the head of its new
      chain, visiting old buckets in order and each chain from its head; `size` is kept. */
  function Resize<X>(t: Map<X>): Map<X>
    requires |t.buckets| > 0
  {
    var moved := Rehash(Entries(t), Empty(2 * |t.buckets|));
    Table(moved.buckets, t.size)
  }

  /** The growth test after a new node: `(float) size / table.length >= 0.75f`. */
  function Grow<X>(t: Map<X>): Map<X>
    requires |t.buckets| > 0
  {
    if 4 * t.size >= 3 * |t.buckets| then Resize(t) else t
  }

  /** `add(key, value)`: overwrite the value and increment the count of an existing node,
      or prepend a node with count 1 and grow if needed. */
  function Add<X>(t: Map<X>, k: string, v: X): Map<X>
    requires |t.buckets| > 0
  {
    var j := Bucket(k, |t.buckets|);
    var c := t.buckets[j];
    var p := FindIn(c, k);
    if p < |c| then Replace(t, j, p, Entry(k, Slot(Some(v), c[p].val.count + 1)))
    else Grow(Prepend(t, Entry(k, Slot(Some(v), 1))))
  }

  /** `add(key)`: increment the count of an existing node leaving its value alone,
      or prepend a node with count 1 and a null value and grow if needed. */
  function Touch<X>(t: Map<X>, k: string): Map<X>
    requires |t.buckets| > 0
  {
    var j := Bucket(k, |t.buckets|);
    var c := t.buckets[j];
    var p := FindIn(c, k);
    if p < |c| then Replace(t, j, p, Entry(k, Slot(c[p].val.value, c[p].val.count + 1)))
    else Grow(Prepend(t, Entry(k, Slot(None, 1))))
  }

  // ---------------------------------------------------------------------------
  // Lemmas

  /** Resizing keeps exactly the same nodes (as a multiset of key, value and count) and
      `size`, doubles the capacity, and so answers every lookup as before. */
  lemma ResizeSpec<X>(t: Map<X>)
    requires WellFormed(t) && IsPow2(|t.buckets|)
    ensures WellFormed(Resize(t))
    ensures |Resize(t).buckets| == 2 * |t.buckets| && IsPow2(|Resize(t).buckets|)
    ensures Resize(t).size == t.size
    ensures multiset(Entries(Resize(t))) == multiset(Entries(t))
    ensures forall k :: Lookup(Resize(t), k) == Lookup(t, k)
  {
    var e0: Map<X> := Empty(2 * |t.buckets|);
    RehashSpec(Entries(t), e0);
    var r := Resize(t);
    assert r == Rehash(Entries(t), e0);
    forall k
      ensures Lookup(r, k) == Lookup(t, k)
    {
      SameEntriesSameLookup(r, t, k);
    }
  }

  /** Prepending a nu node and applying the growth test keeps the table valid and
      adds exactly that node. */
  lemma InsertNewSpec<X>(t: Map<X>, e: Entry<Slot<X>>)
    requires Valid(t) && e.key !in KeySet(t) && e.val.count == 1
    ensures Valid(Grow(Prepend(t, e)))
    ensures Grow(Prepend(t, e)).size == t.size + 1
    ensures multiset(Entries(Grow(Prepend(t, e)))) == multiset(Entries(t)) + multiset{e}
  {
    var u := Prepend(t, e);
    PrependSpec(t, e);
    var r := Grow(u);
    if 4 * u.size >= 3 * |u.buckets| {
      ResizeSpec(u);
      assert 4 * r.size < 3 * |r.buckets|;
    }
    assert multiset(Entries(r)) == multiset(Entries(t)) + multiset{e};
    forall x | x in Entries(r)
      ensures x.val.count >= 1
    {
      assert x in multiset(Entries(r));
      if x != e {
        assert x in multiset(Entries(t));
      }
    }
  }

  /** The map-level effect of overwriting or prepending the node for `k`: Valid is kept,
      `k` now finds the new node, every other key is untouched, and the total of the
      counts rises by exactly one. */
  lemma {:induction false} UpdateSpec<X>(t: Map<X>, k: string, r: Map<X>, nu: Entry<Slot<X>>)
    requires Valid(t) && nu.key == k
    requires FindIn(t.buckets[Bucket(k, |t.buckets|)], k) < |t.buckets[Bucket(k, |t.buckets|)]|
          ==> (var j := Bucket(k, |t.buckets|);
               var p := FindIn(t.buckets[j], k);
               nu.val.count == t.buckets[j][p].val.count + 1 && r == Replace(t, j, p, nu))
    requires FindIn(t.buckets[Bucket(k, |t.buckets|)], k) == |t.buckets[Bucket(k, |t.buckets|)]|
          ==> nu.val.count == 1 && r == Grow(Prepend(t, nu))
    ensures Valid(r)
    ensures Lookup(r, k) == Some(nu)
    ensures forall k' | k' != k :: Lookup(r, k') == Lookup(t, k')
    ensures KeySet(r) == KeySet(t) + {k}
    ensures r.size == if k in KeySet(t) then t.size else t.size + 1
    ensures TotalCount(Entries(r)) == TotalCount(Entries(t)) + 1
  {
    var j := Bucket(k, |t.buckets|);
    var c := t.buckets[j];
    var p := FindIn(c, k);
    LookupSpec(t, k);
    if p < |c| {
      var prev := c[p];
      ReplaceSpec(t, j, p, nu);
      forall k' ensures Lookup(r, k') == if k' == k then Some(nu) else Lookup(t, k') {
        LookupAfterReplace(t, r, prev, nu, k');
      }
      SumReplaceOne(Entries(r), Entries(t), prev, nu, CountOf);
      assert forall x | x in Entries(r) :: x.val.count >= 1 by {
        forall x | x in Entries(r) ensures x.val.count >= 1 {
          assert x in multiset(Entries(r));
          if x != nu {
            assert multiset(Entries(t))[x] > 0;
          }
        }
      }
      KeySetAfter(t, r, k);
    } else {
      AbsentFromChain(t, k);
      InsertNewSpec(t, nu);
      forall k' ensures Lookup(r, k') == if k' == k then Some(nu) else Lookup(t, k') {
        LookupAfterInsert(t, r, nu, k');
      }
      SumAddOne(Entries(r), Entries(t), nu, CountOf);
      KeySetAfter(t, r, k);
    }
  }

  /** `add(key, value)`: the key's value becomes `v` and its count rises by one whether or
      not it was present; other keys are untouched; `size` grows only for a new key. */
  lemma AddSpec<X>(t: Map<X>, k: string, v: X)
    requires Valid(t)
    ensures Valid(Add(t, k, v))
    ensures Get(Add(t, k, v), k) == Some(v)
    ensures GetCount(Add(t, k, v), k) == GetCount(t, k) + 1
    ensures forall k' | k' != k :: Get(Add(t, k, v), k') == Get(t, k')
    ensures forall k' | k' != k :: GetCount(Add(t, k, v), k') == GetCount(t, k')
    ensures KeySet(Add(t, k, v)) == KeySet(t) + {k}
    ensures Add(t, k, v).size == if k in KeySet(t) then t.size else t.size + 1
    ensures TotalCount(Entries(Add(t, k, v))) == TotalCount(Entries(t)) + 1
  {
    var c := t.buckets[Bucket(k, |t.buckets|)];
    var p := FindIn(c, k);
    var nu := Entry(k, Slot(Some(v), if p < |c| then c[p].val.count + 1 else 1));
    LookupSpec(t, k);
    UpdateSpec(t, k, Add(t, k, v), nu);
    UpdateGet(t, k, Add(t, k, v), nu);
  }

  /** What `get` and `getCount` see after the node for `k` became `nu`. */
  lemma UpdateGet<X>(t: Map<X>, k: string, r: Map<X>, nu: Entry<Slot<X>>)
    requires |t.buckets| > 0 && |r.buckets| > 0
    requires Lookup(r, k) == Some(nu)
    requires forall k' | k' != k :: Lookup(r, k') == Lookup(t, k')
    ensures Get(r, k) == nu.val.value && GetCount(r, k) == nu.val.count
    ensures forall k' | k' != k :: Get(r, k') == Get(t, k') && GetCount(r, k') == GetCount(t, k')
  {
  }

  /** `AddSpec` narrowed to one key's value, for proofs that need nothing else. */
  lemma AddGet<X>(t: Map<X>, k: string, v: X, w: string)
    requires Valid(t)
    ensures Get(Add(t, k, v), w) == if k == w then Some(v) else Get(t, w)
  {
    AddSpec(t, k, v);
  }

  /** `AddSpec` narrowed to validity and one key's membership. */
  lemma AddKeys<X>(t: Map<X>, k: string, v: X, w: string)
    requires Valid(t)
    ensures Valid(Add(t, k, v))
    ensures w in KeySet(Add(t, k, v)) <==> w in KeySet(t) || w == k
  {
    AddSpec(t, k, v);
  }

  /** `add(key)`: the key's count rises by one and its value is left as it was (null for a
      new key); other keys are untouched; `size` grows only for a new key. */
  lemma TouchSpec<X>(t: Map<X>, k: string)
    requires Valid(t)
    ensures Valid(Touch(t, k))
    ensures Get(Touch(t, k), k) == Get(t, k)
    ensures GetCount(Touch(t, k), k) == GetCount(t, k) + 1
    ensures forall k' | k' != k :: Get(Touch(t, k), k') == Get(t, k')
    ensures forall k' | k' != k :: GetCount(Touch(t, k), k') == GetCount(t, k')
    ensures KeySet(Touch(t, k)) == KeySet(t) + {k}
    ensures Touch(t, k).size == if k in KeySet(t) then t.size else t.size + 1
    ensures TotalCount(Entries(Touch(t, k))) == TotalCount(Entries(t)) + 1
  {
    var c := t.buckets[Bucket(k, |t.buckets|)];
    var p := FindIn(c, k);
    var nu := Entry(k, if p < |c| then Slot(c[p].val.value, c[p].val.count + 1) else Slot(None, 1));
    LookupSpec(t, k);
    UpdateSpec(t, k, Touch(t, k), nu);
    UpdateGet(t, k, Touch(t, k), nu);
  }

  /** `nodes()` lists each stored key once, and a listed node is what a lookup of its key finds. */
  lemma NodesSpec<X>(t: Map<X>)
    requires Valid(t)
    ensures |Entries(t)| == t.size
    ensures forall p, q | 0 <= p < q < |Entries(t)| :: Entries(t)[p].key != Entries(t)[q].key
    ensures forall e | e in Entries(t) :: Lookup(t, e.key) == Some(e) && GetCount(t, e.key) == e.val.count
    ensures forall k :: k in KeySet(t) <==> GetCount(t, k) >= 1
  {
    forall e | e in Entries(t) ensures Lookup(t, e.key) == Some(e) {
      LookupSpec(t, e.key);
    }
    forall k ensures k in KeySet(t) <==> GetCount(t, k) >= 1 {
      LookupSpec(t, k);
    }
  }

  /** A key the table lacks that is then entered only by `add(key)` calls is stored exactly
      when it was called, with a null value and a count equal to its number of calls. */
  lemma {:induction false} KeyOnlyNodeHasNoValue<X>(t: Map<X>, ks: seq<string>, k: string)
    requires Valid(t) && k !in KeySet(t)
    ensures k in KeySet(TouchAll(t, ks)) <==> k in ks
    ensures Get(TouchAll(t, ks), k) == None
    ensures GetCount(TouchAll(t, ks), k) == multiset(ks)[k]
  {
    TouchAllSpec(t, ks, k);
    LookupSpec(t, k);
  }

  /** `add(key)` for each key in turn. */
  function TouchAll<X>(t: Map<X>, ks: seq<string>): (r: Map<X>)
    requires |t.buckets| > 0
    ensures |r.buckets| >= |t.buckets|
    decreases |ks|
  {
    if ks == [] then t
    else
      var init := TouchAll(t, ks[..|ks| - 1]);
      assert |init.buckets| > 0;
      Touch(init, ks[|ks| - 1])
  }

  /** Counting a sequence of keys raises each key's count by its number of occurrences,
      leaves every value alone, adds the keys to the key set and the total count rises by
      the length of the sequence. */
  lemma {:induction false} TouchAllSpec<X>(t: Map<X>, ks: seq<string>, k: string)
    requires Valid(t)
    ensures Valid(TouchAll(t, ks))
    ensures GetCount(TouchAll(t, ks), k) == GetCount(t, k) + multiset(ks)[k]
    ensures Get(TouchAll(t, ks), k) == Get(t, k)
    ensures k in KeySet(TouchAll(t, ks)) <==> k in KeySet(t) || k in ks
    ensures TotalCount(Entries(TouchAll(t, ks))) == TotalCount(Entries(t)) + |ks|
    decreases |ks|
  {
    if ks != [] {
      var init := ks[..|ks| - 1];
      var last := ks[|ks| - 1];
      assert ks == init + [last];
      TouchAllSpec(t, init, k);
      TouchSpec(TouchAll(t, init), last);
    }
  }

  /** `readObject`: the default deserialization restores the table as written, nodes, values
      and counts included; then `add(key)` runs once for each of the `size` keys that
      `writeObject` appended in `nodes()` order. */
  function ReadObject<X>(t: Map<X>): (r: Map<X>)
    requires |t.buckets| > 0
    ensures |r.buckets| >= |t.buckets|
  {
    TouchAll(t, KeysOf(Entries(t)))
  }

  /** A table read back holds the same keys with the same values, but every stored key's
      count is one more than the count written. */
  lemma {:induction false} ReadObjectSpec<X>(t: Map<X>, k: string)
    requires Valid(t)
    ensures Valid(ReadObject(t))
    ensures k in KeySet(ReadObject(t)) <==> k in KeySet(t)
    ensures Get(ReadObject(t), k) == Get(t, k)
    ensures GetCount(ReadObject(t), k) == if k in KeySet(t) then GetCount(t, k) + 1 else 0
  {
    var ks := KeysOf(Entries(t));
    TouchAllSpec(t, ks, k);
    KeysOfNodes(t, k);
    LookupSpec(t, k);
    assert k in ks <==> multiset(ks)[k] > 0;
  }

  /** `add(key, value)` for each pair in turn. */
  function AddAll<X>(t: Map<X>, ops: seq<(string, X)>): (r: Map<X>)
    requires |t.buckets| > 0
    ensures |r.buckets| >= |t.buckets|
    decreases |ops|
  {
    if ops == [] then t
    else
      var init := AddAll(t, ops[..|ops| - 1]);
      assert |init.buckets| > 0;
      Add(init, ops[|ops| - 1].0, ops[|ops| - 1].1)
  }

  /** A sequence of `add(key, value)` calls leaves each key with the value of its last call
      and a count raised by its number of calls. */
  lemma {:induction false} AddAllSpec<X>(t: Map<X>, ops: seq<(string, X)>, k: string)
    requires Valid(t)
    ensures Valid(AddAll(t, ops))
    ensures Get(AddAll(t, ops), k) == if LastValue(ops, k).Some? then LastValue(ops, k) else Get(t, k)
    ensures GetCount(AddAll(t, ops), k) == GetCount(t, k) + multiset(Written(ops))[k]
    ensures k in KeySet(AddAll(t, ops)) <==> k in KeySet(t) || k in Written(ops)
    decreases |ops|
  {
    if ops != [] {
      var init := ops[..|ops| - 1];
      var last := ops[|ops| - 1];
      WrittenLast(ops);
      AddAllSpec(t, init, k);
      AddSpec(AddAll(t, init), last.0, last.1);
    }
  }

  /** Adding pairs with pairwise distinct keys to a new table stores each pair once, with
      count 1, and nothing else. */
  lemma AddDistinctSpec<X>(ops: seq<(string, X)>, w: string)
    requires Distinct(Written(ops))
    ensures Valid(AddAll(New(), ops))
    ensures w in KeySet(AddAll(New(), ops)) <==> w in Written(ops)
    ensures GetCount(AddAll(New(), ops), w) == if w in Written(ops) then 1 else 0
    ensures Get(AddAll(New(), ops), w) == LastValue(ops, w)
  {
    var m := New<X>();
    AddAllSpec(m, ops, w);
    LookupSpec(m, w);
    DistinctOnce(Written(ops), w);
    if w !in Written(ops) {
      LastValueAbsent(ops, w);
    }
  }
}
