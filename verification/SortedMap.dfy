/** The functional face of the B+ tree that the store is written against: with and without are taken to make new trees
    and never to change old ones. As values the trees are sorted sequences of pairs. */
module SortedMap {
  import opened Options
  import opened SortedPairs
  import opened Keys
  import TreeDelete
  import TreeIteration

  /** A tree of the store: key/value pairs in the order of keys. */
  type Map<V> = s: seq<Pair<Key, V>> | Sorted(Compare, s) witness []

  function Get<V>(m: Map<V>, k: Key): Option<V> {
    Lookup(Compare, m, k)
  }

  function With<V>(m: Map<V>, k: Key, v: V): Map<V> {
    CompareIsTotalOrder();
    PutSorted(Compare, m, k, v);
    Put(Compare, m, k, v)
  }

  function Without<V>(m: Map<V>, k: Key): Map<V> {
    Splice(m, Place(Compare, m, k), PlaceAfter(Compare, m, k), [])
  }

  function MinKey<V>(m: Map<V>): Option<Key> {
    if |m| == 0 then None else Some(m[0].key)
  }

  function NextHigherPair<V>(m: Map<V>, k: Key): Option<Pair<Key, V>> {
    var n := PlaceAfter(Compare, m, k);
    if n < |m| then Some(m[n]) else None
  }

  function NextHigherKey<V>(m: Map<V>, k: Key): Option<Key> {
    var p := NextHigherPair(m, k);
    if p.None? then None else Some(p.value.key)
  }

  lemma GetMeansMember<V>(m: Map<V>, k: Key, v: V)
    ensures Get(m, k) == Some(v) <==> Pair(k, v) in m
  {
    CompareIsTotalOrder();
    LookupMeansMember(Compare, m, k, v);
  }

  lemma GetFromEmpty<V>(k: Key)
    ensures Get<V>([], k) == None
  {
  }

  lemma GetWith<V>(m: Map<V>, k: Key, v: V, x: Key)
    ensures Get(With(m, k, v), x) == if x == k then Some(v) else Get(m, x)
  {
    CompareIsTotalOrder();
    PutLookup(Compare, m, k, v, x);
  }

  /** without is what deleting the key from the tree leaves. */
  lemma WithoutIsDelete<V>(m: Map<V>, k: Key)
    ensures Without(m, k) == TreeDelete.Outside(Compare, m, k, k, true)
  {
    CompareIsTotalOrder();
    TreeDelete.EditLeafContents(Compare, m, k, k, true);
  }

  lemma GetWithout<V>(m: Map<V>, k: Key, x: Key)
    ensures Get(Without(m, k), x) == if x == k then None else Get(m, x)
  {
    forall v ensures Get(Without(m, k), x) == Some(v) <==> x != k && Get(m, x) == Some(v) {
      WithoutMembers(m, k, Pair(x, v));
      GetMeansMember(m, x, v);
      GetMeansMember(Without(m, k), x, v);
    }
  }

  lemma WithoutMembers<V>(m: Map<V>, k: Key, p: Pair<Key, V>)
    ensures p in Without(m, k) <==> p in m && p.key != k
  {
    CompareOpposite(p.key, k);
    WithoutIsDelete(m, k);
    TreeDelete.OutsideMembers(Compare, m, k, k, true, p);
  }

  /** What nextHigherPair is proved to find in the tree is what NextHigherPair says. */
  lemma NextHigherIsLeastAbove<V>(m: Map<V>, k: Key, r: Option<Pair<Key, V>>)
    ensures TreeIteration.IsNextHigher(Compare, m, k, r) <==> r == NextHigherPair(m, k)
  {
    CompareIsTotalOrder();
    TreeIteration.FirstAbove(Compare, m, k);
    var q := NextHigherPair(m, k);
    if TreeIteration.IsNextHigher(Compare, m, k, r) && r != q {
      if q.Some? && r.Some? {
        CompareOpposite(q.value.key, r.value.key);
      }
      assert false;
    }
  }
}
