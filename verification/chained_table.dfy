/** The bucket-array machinery common to both hash tables: an array of chains, each chain
    a sequence of entries listed from its head, the entry for a key kept in the chain its
    hash selects, and `size` counting the entries. */
module ChainedTable {
  import opened Wrappers
  import opened Seqs
  import opened Hashing

  datatype Entry<V> = Entry(key: string, val: V)

  datatype Table<V> = Table(buckets: seq<seq<Entry<V>>>, size: nat)

  /** Every entry, bucket by bucket and each chain from its head: the order of `nodes()`. */
  function Entries<V>(t: Table<V>): seq<Entry<V>>
  {
    Flatten(t.buckets)
  }

  function KeySet<V>(t: Table<V>): set<string>
  {
    var es := Entries(t);
    set i | 0 <= i < |es| :: es[i].key
  }

  function Empty<V>(cap: nat): (t: Table<V>)
    requires cap > 0
    ensures |t.buckets| == cap && t.size == 0
    ensures Entries(t) == []
  {
    var bs: seq<seq<Entry<V>>> := seq(cap, _ => []);
    FlattenLength(bs);
    Table(bs, 0)
  }

  /** The keys of a listing of entries, in order. */
  function KeysOf<V>(s: seq<Entry<V>>): (ks: seq<string>)
    ensures |ks| == |s| && forall i | 0 <= i < |s| :: ks[i] == s[i].key
  {
    seq(|s|, i requires 0 <= i < |s| => s[i].key)
  }

  /** The value given to `k` by the last of a sequence of (key, value) writes, if any. */
  function LastValue<V>(ops: seq<(string, V)>, k: string): Option<V>
    decreases |ops|
  {
    if ops == [] then None
    else if ops[|ops| - 1].0 == k then Some(ops[|ops| - 1].1)
    else LastValue(ops[..|ops| - 1], k)
  }

  /** The keys written by a sequence of (key, value) writes, in order. */
  function Written<V>(ops: seq<(string, V)>): (ks: seq<string>)
    ensures |ks| == |ops| && forall i | 0 <= i < |ops| :: ks[i] == ops[i].0
  {
    seq(|ops|, i requires 0 <= i < |ops| => ops[i].0)
  }

  lemma WrittenLast<V>(ops: seq<(string, V)>)
    requires ops != []
    ensures Written(ops) == Written(ops[..|ops| - 1]) + [ops[|ops| - 1].0]
  {
  }

  /** Each entry sits in the bucket its key hashes to. */
  ghost predicate Placed<V>(bs: seq<seq<Entry<V>>>)
  {
    forall i, e | 0 <= i < |bs| && e in bs[i] :: Bucket(e.key, |bs|) == i
  }

  ghost predicate UniqueKeys<V>(s: seq<Entry<V>>)
  {
    forall p, q | 0 <= p < q < |s| :: s[p].key != s[q].key
  }

  /** The invariant both tables keep: entries placed by hash, no key twice, `size` exact. */
  ghost predicate WellFormed<V>(t: Table<V>)
  {
    && |t.buckets| > 0
    && Placed(t.buckets)
    && UniqueKeys(Entries(t))
    && t.size == |Entries(t)|
  }

  /** The walk `for (e = table[i]; e != null; e = e.next) if (key.equals(e.key)) ...`:
      the position of the first entry with key `k`, or `|c|` when there is none. */
  function FindIn<V>(c: seq<Entry<V>>, k: string): (p: nat)
    ensures p <= |c|
    ensures p < |c| ==> c[p].key == k
    ensures forall q | 0 <= q < p :: c[q].key != k
  {
    if c == [] then 0
    else if c[0].key == k then 0
    else 1 + FindIn(c[1..], k)
  }

  /** The entry `get` and `getCount` find for `k`: searched in the chain of `k`'s bucket only. */
  function Lookup<V>(t: Table<V>, k: string): Option<Entry<V>>
    requires |t.buckets| > 0
  {
    var c := t.buckets[Bucket(k, |t.buckets|)];
    var p := FindIn(c, k);
    if p < |c| then Some(c[p]) else None
  }

  /** New entry at the head of its bucket's chain: `table[i] = new Node(key, ..., table[i]); size++`. */
  function Prepend<V>(t: Table<V>, e: Entry<V>): (r: Table<V>)
    requires |t.buckets| > 0
    ensures |r.buckets| == |t.buckets| && r.size == t.size + 1
  {
    var j := Bucket(e.key, |t.buckets|);
    Table(t.buckets[j := [e] + t.buckets[j]], t.size + 1)
  }

  /** In-place update of the entry at position `p` of chain `j`. */
  function Replace<V>(t: Table<V>, j: nat, p: nat, e: Entry<V>): (r: Table<V>)
    requires j < |t.buckets| && p < |t.buckets[j]|
    ensures |r.buckets| == |t.buckets| && r.size == t.size
  {
    Table(t.buckets[j := t.buckets[j][p := e]], t.size)
  }

  /** Moves each listed entry, in order, to the head of its chain: the node relinking
      loop of a resize. */
  function Rehash<V>(ns: seq<Entry<V>>, t: Table<V>): (r: Table<V>)
    requires |t.buckets| > 0
    ensures |r.buckets| == |t.buckets| && r.size == t.size + |ns|
    decreases |ns|
  {
    if ns == [] then t else Rehash(ns[1..], Prepend(t, ns[0]))
  }

  // ---------------------------------------------------------------------------
  // Lemmas

  lemma UniqueInsert<V>(a: seq<Entry<V>>, e: Entry<V>, b: seq<Entry<V>>)
    requires UniqueKeys(a + b)
    requires forall x | x in a + b :: x.key != e.key
    ensures UniqueKeys(a + [e] + b)
  {
    var s := a + [e] + b;
    var s0 := a + b;
    forall p, q | 0 <= p < q < |s|
      ensures s[p].key != s[q].key
    {
      var p0 := if p < |a| then p else p - 1;
      var q0 := if q < |a| then q else q - 1;
      if p == |a| {
        assert s[q] == s0[q0];
        assert s0[q0] in s0;
      } else if q == |a| {
        assert s[p] == s0[p0];
        assert s0[p0] in s0;
      } else {
        assert s[p] == s0[p0] && s[q] == s0[q0];
      }
    }
  }

  lemma UniqueSameKeys<V>(s: seq<Entry<V>>, s': seq<Entry<V>>)
    requires UniqueKeys(s)
    requires |s| == |s'| && forall i | 0 <= i < |s| :: s[i].key == s'[i].key
    ensures UniqueKeys(s')
  {
  }

  lemma UniqueSlice<V>(a: seq<Entry<V>>, c: seq<Entry<V>>, b: seq<Entry<V>>)
    requires UniqueKeys(a + c + b)
    ensures UniqueKeys(c)
  {
    var s := a + c + b;
    forall p, q | 0 <= p < q < |c|
      ensures c[p].key != c[q].key
    {
      assert s[|a| + p] == c[p] && s[|a| + q] == c[q];
    }
  }

  /** In a chain without repeated keys the walk stops at the one entry with the key. */
  lemma {:induction false} FindInUnique<V>(c: seq<Entry<V>>, k: string, q: nat)
    requires UniqueKeys(c) && q < |c| && c[q].key == k
    ensures FindIn(c, k) == q
    decreases |c|
  {
    if c[0].key != k {
      assert UniqueKeys(c[1..]);
      FindInUnique(c[1..], k, q - 1);
    }
  }

  /** Lookup in a well-formed table finds exactly the entry listed for the key. */
  lemma LookupSpec<V>(t: Table<V>, k: string)
    requires WellFormed(t)
    ensures Lookup(t, k).Some? ==> Lookup(t, k).value in Entries(t) && Lookup(t, k).value.key == k
    ensures forall e | e in Entries(t) && e.key == k :: Lookup(t, k) == Some(e)
    ensures Lookup(t, k).Some? <==> k in KeySet(t)
  {
    var bs := t.buckets;
    var j := Bucket(k, |bs|);
    var c := bs[j];
    var p := FindIn(c, k);
    FlattenSplit(bs, j);
    var a := Flatten(bs[..j]);
    var b := Flatten(bs[j + 1..]);
    assert Entries(t) == a + c + b;
    forall e | e in Entries(t) && e.key == k
      ensures Lookup(t, k) == Some(e)
    {
      FlattenMember(bs, e);
      var i :| 0 <= i < |bs| && e in bs[i];
      assert i == j;
      var q :| 0 <= q < |c| && c[q] == e;
      UniqueSlice(a, c, b);
      FindInUnique(c, k, q);
    }
    if k in KeySet(t) {
      var e :| e in Entries(t) && e.key == k;
      assert Lookup(t, k) == Some(e);
    }
  }

  /** A key absent from the table is absent from the chain of its bucket. */
  lemma AbsentFromChain<V>(t: Table<V>, k: string)
    requires WellFormed(t)
    requires FindIn(t.buckets[Bucket(k, |t.buckets|)], k) == |t.buckets[Bucket(k, |t.buckets|)]|
    ensures k !in KeySet(t)
  {
    LookupSpec(t, k);
  }

  /** Flattening after one chain is replaced. */
  lemma FlattenUpdate<V>(bs: seq<seq<Entry<V>>>, j: nat, c: seq<Entry<V>>)
    requires j < |bs|
    ensures Flatten(bs) == Flatten(bs[..j]) + bs[j] + Flatten(bs[j + 1..])
    ensures Flatten(bs[j := c]) == Flatten(bs[..j]) + c + Flatten(bs[j + 1..])
  {
    FlattenSplit(bs, j);
    FlattenSplit(bs[j := c], j);
    assert bs[j := c][..j] == bs[..j] && bs[j := c][j + 1..] == bs[j + 1..];
  }

  lemma PlacedUpdate<V>(bs: seq<seq<Entry<V>>>, j: nat, c: seq<Entry<V>>)
    requires Placed(bs) && j < |bs|
    requires forall x | x in c :: Bucket(x.key, |bs|) == j
    ensures Placed(bs[j := c])
  {
  }

  lemma PrependSpec<V>(t: Table<V>, e: Entry<V>)
    requires WellFormed(t) && e.key !in KeySet(t)
    ensures WellFormed(Prepend(t, e))
    ensures multiset(Entries(Prepend(t, e))) == multiset(Entries(t)) + multiset{e}
  {
    var a, b := PrependEntries(t, e);
    forall x: Entry<V> | x in a + b
      ensures x.key != e.key
    {
      KeyListed(Entries(t), x);
    }
    UniqueInsert(a, e, b);
    var j := Bucket(e.key, |t.buckets|);
    PlacedUpdate(t.buckets, j, [e] + t.buckets[j]);
  }

  /** Prepending puts the entry somewhere inside the listing. */
  lemma PrependEntries<V>(t: Table<V>, e: Entry<V>) returns (a: seq<Entry<V>>, b: seq<Entry<V>>)
    requires |t.buckets| > 0
    ensures Entries(t) == a + b
    ensures Entries(Prepend(t, e)) == a + [e] + b
  {
    var bs := t.buckets;
    var j := Bucket(e.key, |bs|);
    FlattenUpdate(bs, j, [e] + bs[j]);
    a := Flatten(bs[..j]);
    b := bs[j] + Flatten(bs[j + 1..]);
  }

  lemma KeyListed<V>(es: seq<Entry<V>>, x: Entry<V>)
    requires x in es
    ensures x.key in (set i | 0 <= i < |es| :: es[i].key)
  {
    var i :| 0 <= i < |es| && es[i] == x;
  }

  /** Overwriting position `p` of chain `j` overwrites one position of the listing. */
  lemma ReplaceEntries<V>(t: Table<V>, j: nat, p: nat, e: Entry<V>) returns (off: nat)
    requires j < |t.buckets| && p < |t.buckets[j]|
    ensures off < |Entries(t)| && Entries(t)[off] == t.buckets[j][p]
    ensures Entries(Replace(t, j, p, e)) == Entries(t)[off := e]
  {
    var bs := t.buckets;
    var c := bs[j];
    FlattenUpdate(bs, j, c[p := e]);
    off := |Flatten(bs[..j])| + p;
  }

  lemma ReplaceSpec<V>(t: Table<V>, j: nat, p: nat, e: Entry<V>)
    requires WellFormed(t)
    requires j < |t.buckets| && p < |t.buckets[j]| && e.key == t.buckets[j][p].key
    ensures WellFormed(Replace(t, j, p, e))
    ensures multiset(Entries(Replace(t, j, p, e)))
         == multiset(Entries(t)) - multiset{t.buckets[j][p]} + multiset{e}
    ensures t.buckets[j][p] in Entries(t)
  {
    var off := ReplaceEntries(t, j, p, e);
    var es := Entries(t);
    UniqueSameKeys(es, es[off := e]);
    MultisetUpdate(es, off, e);
    PlacedUpdate(t.buckets, j, t.buckets[j][p := e]);
  }

  lemma {:induction false} RehashSpec<V>(ns: seq<Entry<V>>, t: Table<V>)
    requires WellFormed(t) && UniqueKeys(ns)
    requires forall x, y | x in ns && y in Entries(t) :: x.key != y.key
    ensures WellFormed(Rehash(ns, t))
    ensures multiset(Entries(Rehash(ns, t))) == multiset(Entries(t)) + multiset(ns)
    decreases |ns|
  {
    if ns != [] {
      var e := ns[0];
      var u := Prepend(t, e);
      assert e in ns;
      PrependSpec(t, e);
      RehashRest(ns, t);
      RehashSpec(ns[1..], u);
      assert ns == [e] + ns[1..];
    }
  }

  /** After the first entry moves, the others still clash with nothing in the table. */
  lemma RehashRest<V>(ns: seq<Entry<V>>, t: Table<V>)
    requires WellFormed(t) && UniqueKeys(ns) && ns != []
    requires forall x, y | x in ns && y in Entries(t) :: x.key != y.key
    requires multiset(Entries(Prepend(t, ns[0]))) == multiset(Entries(t)) + multiset{ns[0]}
    ensures UniqueKeys(ns[1..])
    ensures forall x, y | x in ns[1..] && y in Entries(Prepend(t, ns[0])) :: x.key != y.key
  {
    var e := ns[0];
    var u := Prepend(t, e);
    forall x, y | x in ns[1..] && y in Entries(u)
      ensures x.key != y.key
    {
      assert y in multiset(Entries(u));
      if y == e {
        var q :| 0 <= q < |ns[1..]| && ns[1..][q] == x;
        assert ns[0] == e && ns[q + 1] == x;
      } else {
        assert y in multiset(Entries(t));
        assert x in ns;
      }
    }
  }

  /** Tables listing the same entries answer every lookup alike, whatever their capacities. */
  lemma SameEntriesSameLookup<V>(t: Table<V>, u: Table<V>, k: string)
    requires WellFormed(t) && WellFormed(u)
    requires multiset(Entries(t)) == multiset(Entries(u))
    ensures Lookup(t, k) == Lookup(u, k)
  {
    LookupSpec(t, k);
    LookupSpec(u, k);
    match Lookup(t, k)
    case Some(e) =>
      assert e in multiset(Entries(u));
    case None =>
      if Lookup(u, k).Some? {
        assert Lookup(u, k).value in multiset(Entries(t));
      }
  }

  /** Two well-formed tables that list the same entries for key `k` agree on `k`. */
  lemma SameKeyEntries<V>(t: Table<V>, u: Table<V>, k: string)
    requires WellFormed(t) && WellFormed(u)
    requires forall y | y in Entries(u) && y.key == k :: y in Entries(t)
    requires forall x | x in Entries(t) && x.key == k :: x in Entries(u)
    ensures Lookup(u, k) == Lookup(t, k)
  {
    LookupSpec(t, k);
    LookupSpec(u, k);
  }

  /** After a new entry is added (wherever the table put it), the new key finds it and
      every other key finds what it found before. */
  lemma LookupAfterInsert<V>(t: Table<V>, u: Table<V>, e: Entry<V>, k: string)
    requires WellFormed(t) && WellFormed(u) && e.key !in KeySet(t)
    requires multiset(Entries(u)) == multiset(Entries(t)) + multiset{e}
    ensures Lookup(u, k) == if k == e.key then Some(e) else Lookup(t, k)
  {
    LookupSpec(u, k);
    assert e in multiset(Entries(u));
    if k != e.key {
      forall y | y in Entries(u) && y.key == k
        ensures y in Entries(t)
      {
        assert multiset(Entries(t))[y] == multiset(Entries(u))[y] > 0;
      }
      forall x | x in Entries(t) && x.key == k
        ensures x in Entries(u)
      {
        assert multiset(Entries(u))[x] >= multiset(Entries(t))[x] > 0;
      }
      SameKeyEntries(t, u, k);
    }
  }

  /** When only `k` changed and it is now present, the key set gained `k`. */
  lemma KeySetAfter<V>(t: Table<V>, r: Table<V>, k: string)
    requires WellFormed(t) && WellFormed(r)
    requires Lookup(r, k).Some?
    requires forall k' | k' != k :: Lookup(r, k') == Lookup(t, k')
    ensures KeySet(r) == KeySet(t) + {k}
  {
    forall k' ensures k' in KeySet(r) <==> k' in KeySet(t) + {k} {
      LookupSpec(t, k');
      LookupSpec(r, k');
    }
  }

  /** After the entry `prev` is overwritten in place by `e` with the same key, that key finds `e`
      and every other key finds what it found before. */
  lemma LookupAfterReplace<V>(t: Table<V>, u: Table<V>, prev: Entry<V>, e: Entry<V>, k: string)
    requires WellFormed(t) && WellFormed(u) && prev in Entries(t) && prev.key == e.key
    requires multiset(Entries(u)) == multiset(Entries(t)) - multiset{prev} + multiset{e}
    ensures Lookup(u, k) == if k == e.key then Some(e) else Lookup(t, k)
  {
    LookupSpec(u, k);
    assert e in multiset(Entries(u));
    if k != e.key {
      forall y | y in Entries(u) && y.key == k
        ensures y in Entries(t)
      {
        assert multiset(Entries(t))[y] == multiset(Entries(u))[y] > 0;
      }
      forall x | x in Entries(t) && x.key == k
        ensures x in Entries(u)
      {
        assert multiset(Entries(u))[x] == multiset(Entries(t))[x] > 0;
      }
      SameKeyEntries(t, u, k);
    }
  }

  /** With pairwise distinct keys, the last write of a listed key is its only write. */
  lemma {:induction false} LastValueUnique<V>(ops: seq<(string, V)>, i: nat)
    requires i < |ops| && Distinct(Written(ops))
    ensures LastValue(ops, ops[i].0) == Some(ops[i].1)
    decreases |ops|
  {
    var n := |ops| - 1;
    if i < n {
      assert Written(ops)[i] != Written(ops)[n];
      var init := ops[..n];
      assert Distinct(Written(init)) by {
        forall p, q | 0 <= p < q < |init| ensures Written(init)[p] != Written(init)[q] {
          assert Written(ops)[p] != Written(ops)[q];
        }
      }
      LastValueUnique(init, i);
    }
  }

  lemma {:induction false} LastValueAbsent<V>(ops: seq<(string, V)>, k: string)
    requires k !in Written(ops)
    ensures LastValue(ops, k) == None
    decreases |ops|
  {
    if ops != [] {
      var init := ops[..|ops| - 1];
      assert Written(ops)[|ops| - 1] == ops[|ops| - 1].0;
      forall i | 0 <= i < |init| ensures Written(init)[i] != k {
        assert Written(ops)[i] == init[i].0;
      }
      LastValueAbsent(init, k);
    }
  }

  /** The keys listed by the nodes are the table's key set. */
  lemma KeysOfKeySet<V>(t: Table<V>, w: string)
    ensures w in KeysOf(Entries(t)) <==> w in KeySet(t)
  {
    var es := Entries(t);
    if w in KeySet(t) {
      var i :| 0 <= i < |es| && es[i].key == w;
      assert KeysOf(es)[i] == w;
    }
  }

  lemma UniqueKeysDistinct<V>(s: seq<Entry<V>>)
    requires UniqueKeys(s)
    ensures Distinct(KeysOf(s))
  {
  }

  /** A node's key is listed once among the keys of a well-formed table's nodes. */
  lemma KeysOfNodes<V>(t: Table<V>, w: string)
    requires WellFormed(t)
    ensures multiset(KeysOf(Entries(t)))[w] == if w in KeySet(t) then 1 else 0
  {
    var ks := KeysOf(Entries(t));
    UniqueKeysDistinct(Entries(t));
    DistinctOnce(ks, w);
    if w in KeySet(t) {
      var i :| 0 <= i < |Entries(t)| && Entries(t)[i].key == w;
      assert ks[i] == w;
    }
  }

  // ---------------------------------------------------------------------------
  // Document counts

  /** The number of tables, one per document, that hold `w`. */
  ghost function DocsContaining<V>(docs: seq<Table<V>>, w: string): nat
    decreases |docs|
  {
    if docs == [] then 0
    else DocsContaining(docs[..|docs| - 1], w) + (if w in KeySet(docs[|docs| - 1]) then 1 else 0)
  }

  /** A document counts among those holding each of its words, so its words' document
      frequencies lie between 1 and the number of documents. */
  lemma {:induction false} DocsContainingBounds<V>(docs: seq<Table<V>>, i: nat, w: string)
    requires i < |docs| && w in KeySet(docs[i])
    ensures 1 <= DocsContaining(docs, w) <= |docs|
    decreases |docs|
  {
    var init := docs[..|docs| - 1];
    if i < |docs| - 1 {
      assert init[i] == docs[i];
      DocsContainingBounds(init, i, w);
    } else {
      DocsContainingAtMost(init, w);
    }
  }

  lemma {:induction false} DocsContainingAtMost<V>(docs: seq<Table<V>>, w: string)
    ensures DocsContaining(docs, w) <= |docs|
    decreases |docs|
  {
    if docs != [] {
      DocsContainingAtMost(docs[..|docs| - 1], w);
    }
  }
}
