/** Sorted sequences of key/value pairs under an abstract comparator.
    They are the meaning of a B+ tree: what a tree holds, in ascending key order. */
module SortedPairs {

  import opened Options

  datatype Pair<+K, +V> = Pair(key: K, val: V)

  /** The laws of a comparator, at three keys. */
  ghost predicate Lawful<K>(cmp: (K, K) -> int, a: K, b: K, c: K) {
    && (cmp(a, b) < 0 <==> cmp(b, a) > 0)
    && (cmp(a, b) == 0 <==> a == b)
    && (cmp(a, b) < 0 && cmp(b, c) < 0 ==> cmp(a, c) < 0)
  }

  /** What a tree asks of the comparator it is constructed with. */
  ghost predicate TotalOrder<K(!new)>(cmp: (K, K) -> int) {
    forall a, b, c :: Lawful(cmp, a, b, c)
  }

  /** The keys ascend strictly. */
  ghost predicate Sorted<K(!new), V>(cmp: (K, K) -> int, s: seq<Pair<K, V>>) {
    forall i, j :: 0 <= i < j < |s| ==> cmp(s[i].key, s[j].key) < 0
  }

  ghost predicate Ascending<K(!new)>(cmp: (K, K) -> int, ks: seq<K>) {
    forall i, j :: 0 <= i < j < |ks| ==> cmp(ks[i], ks[j]) < 0
  }

  ghost predicate AllBelow<K(!new), V>(cmp: (K, K) -> int, s: seq<Pair<K, V>>, k: K) {
    forall i :: 0 <= i < |s| ==> cmp(s[i].key, k) < 0
  }

  ghost predicate AllAbove<K(!new), V>(cmp: (K, K) -> int, s: seq<Pair<K, V>>, k: K) {
    forall i :: 0 <= i < |s| ==> cmp(s[i].key, k) > 0
  }

  function KeysOf<K, V>(s: seq<Pair<K, V>>): (ks: seq<K>)
    ensures |ks| == |s| && forall i :: 0 <= i < |s| ==> ks[i] == s[i].key
  {
    seq(|s|, i requires 0 <= i < |s| => s[i].key)
  }

  /** The index of the first key that is not below k. */
  function Rank<K(!new)>(cmp: (K, K) -> int, ks: seq<K>, k: K): (r: nat)
    ensures r <= |ks|
    ensures forall i :: 0 <= i < r ==> cmp(ks[i], k) < 0
    ensures r < |ks| ==> cmp(ks[r], k) >= 0
  {
    if |ks| == 0 || cmp(ks[0], k) >= 0 then 0 else 1 + Rank(cmp, ks[1..], k)
  }

  lemma RankUnique<K(!new)>(cmp: (K, K) -> int, ks: seq<K>, k: K, r: nat)
    requires r <= |ks|
    requires forall i :: 0 <= i < r ==> cmp(ks[i], k) < 0
    requires r < |ks| ==> cmp(ks[r], k) >= 0
    ensures Rank(cmp, ks, k) == r
  {
    if Rank(cmp, ks, k) < r {
      assert false;
    }
  }

  /** Where k is, or would be inserted. */
  function Place<K(!new), V>(cmp: (K, K) -> int, s: seq<Pair<K, V>>, k: K): (r: nat)
    ensures r <= |s|
    ensures forall i :: 0 <= i < r ==> cmp(s[i].key, k) < 0
    ensures r < |s| ==> cmp(s[r].key, k) >= 0
  {
    Rank(cmp, KeysOf(s), k)
  }

  predicate Found<K(!new), V>(cmp: (K, K) -> int, s: seq<Pair<K, V>>, k: K) {
    var r := Place(cmp, s, k);
    r < |s| && cmp(s[r].key, k) == 0
  }

  /** The value at k. */
  function Lookup<K(!new), V>(cmp: (K, K) -> int, s: seq<Pair<K, V>>, k: K): Option<V> {
    if Found(cmp, s, k) then Some(s[Place(cmp, s, k)].val) else None
  }

  /** Where what follows k begins. */
  function PlaceAfter<K(!new), V>(cmp: (K, K) -> int, s: seq<Pair<K, V>>, k: K): (r: nat)
    ensures Place(cmp, s, k) <= r <= |s|
  {
    if Found(cmp, s, k) then Place(cmp, s, k) + 1 else Place(cmp, s, k)
  }

  /** The elements of s from one index up to another make room for those of m. */
  function Splice<T>(s: seq<T>, from: nat, to: nat, m: seq<T>): (r: seq<T>)
    requires from <= to <= |s|
    ensures |r| == |s| - (to - from) + |m|
  {
    s[..from] + m + s[to..]
  }

  /** The pairs after k has been given the value v. */
  function Put<K(!new), V>(cmp: (K, K) -> int, s: seq<Pair<K, V>>, k: K, v: V): seq<Pair<K, V>> {
    Splice(s, Place(cmp, s, k), PlaceAfter(cmp, s, k), [Pair(k, v)])
  }

  lemma PlaceUnique<K(!new), V>(cmp: (K, K) -> int, s: seq<Pair<K, V>>, k: K, r: nat)
    requires r <= |s|
    requires forall i :: 0 <= i < r ==> cmp(s[i].key, k) < 0
    requires r < |s| ==> cmp(s[r].key, k) >= 0
    ensures Place(cmp, s, k) == r
  {
    RankUnique(cmp, KeysOf(s), k, r);
  }

  /** Everything after the place of k is above k. */
  lemma AboveAfterPlace<K(!new), V>(cmp: (K, K) -> int, s: seq<Pair<K, V>>, k: K)
    requires TotalOrder(cmp) && Sorted(cmp, s)
    ensures AllAbove(cmp, s[PlaceAfter(cmp, s, k)..], k)
  {
    forall i | PlaceAfter(cmp, s, k) <= i < |s| ensures cmp(s[i].key, k) > 0 {
      if i != Place(cmp, s, k) {
        Beyond(cmp, s[Place(cmp, s, k)].key, s[i].key, k);
      }
    }
  }

  lemma Beyond<K(!new)>(cmp: (K, K) -> int, a: K, b: K, k: K)
    requires TotalOrder(cmp) && cmp(a, k) >= 0 && cmp(a, b) < 0
    ensures cmp(b, k) > 0
  {
    assert Lawful(cmp, k, a, b) && Lawful(cmp, a, k, b) && Lawful(cmp, k, b, a);
  }

  lemma Before<K(!new)>(cmp: (K, K) -> int, a: K, b: K, k: K)
    requires TotalOrder(cmp) && cmp(a, b) < 0 && cmp(k, b) >= 0
    ensures cmp(a, k) < 0
  {
    assert Lawful(cmp, a, b, k) && Lawful(cmp, b, k, a) && Lawful(cmp, k, b, a);
  }

  lemma Differ<K(!new)>(cmp: (K, K) -> int, a: K, b: K)
    requires TotalOrder(cmp)
    ensures cmp(a, b) == 0 <==> a == b
  {
    assert Lawful(cmp, a, b, b);
  }

  /** In a sorted sequence, looking up a key finds exactly the pair stored under it. */
  lemma LookupMeansMember<K(!new), V>(cmp: (K, K) -> int, s: seq<Pair<K, V>>, k: K, v: V)
    requires TotalOrder(cmp) && Sorted(cmp, s)
    ensures Lookup(cmp, s, k) == Some(v) <==> Pair(k, v) in s
  {
    if Pair(k, v) in s {
      var i :| 0 <= i < |s| && s[i] == Pair(k, v);
      Differ(cmp, k, k);
      PlaceUnique(cmp, s, k, i);
    }
    if Found(cmp, s, k) {
      Differ(cmp, s[Place(cmp, s, k)].key, k);
    }
  }

  lemma PutSorted<K(!new), V>(cmp: (K, K) -> int, s: seq<Pair<K, V>>, k: K, v: V)
    requires TotalOrder(cmp) && Sorted(cmp, s)
    ensures Sorted(cmp, Put(cmp, s, k, v))
  {
    AboveAfterPlace(cmp, s, k);
    var r := Place(cmp, s, k);
    SortedJoin(cmp, s[..r], s[PlaceAfter(cmp, s, k)..], k, v);
  }

  lemma SortedJoin<K(!new), V>(cmp: (K, K) -> int, a: seq<Pair<K, V>>, b: seq<Pair<K, V>>, k: K, v: V)
    requires TotalOrder(cmp) && Sorted(cmp, a) && Sorted(cmp, b)
    requires AllBelow(cmp, a, k) && AllAbove(cmp, b, k)
    ensures Sorted(cmp, a + [Pair(k, v)] + b)
  {
    var s := a + [Pair(k, v)] + b;
    forall i, j | 0 <= i < j < |s| ensures cmp(s[i].key, s[j].key) < 0 {
      if i < |a| && j > |a| {
        var x, y := a[i].key, b[j - |a| - 1].key;
        assert Lawful(cmp, x, k, y) && Lawful(cmp, k, y, x);
      } else if i == |a| {
        assert Lawful(cmp, b[j - |a| - 1].key, k, k) && Lawful(cmp, k, b[j - |a| - 1].key, k);
      }
    }
  }

  /** Put changes the binding of k and of nothing else. */
  lemma PutMembers<K(!new), V>(cmp: (K, K) -> int, s: seq<Pair<K, V>>, k: K, v: V, p: Pair<K, V>)
    requires TotalOrder(cmp) && Sorted(cmp, s)
    ensures p in Put(cmp, s, k, v) <==> p == Pair(k, v) || (p in s && p.key != k)
  {
    AboveAfterPlace(cmp, s, k);
    var r := Place(cmp, s, k);
    var f := PlaceAfter(cmp, s, k);
    if r < |s| {
      Differ(cmp, s[r].key, k);
    }
    SplitMembers(cmp, s, k, r, f, p);
    assert p in Put(cmp, s, k, v) <==> p in s[..r] || p == Pair(k, v) || p in s[f..];
  }

  lemma SplitMembers<K(!new), V>(cmp: (K, K) -> int, s: seq<Pair<K, V>>, k: K, r: nat, f: nat, p: Pair<K, V>)
    requires TotalOrder(cmp) && r <= f <= |s|
    requires AllBelow(cmp, s[..r], k) && AllAbove(cmp, s[f..], k)
    requires forall i :: r <= i < f ==> s[i].key == k
    ensures p in s[..r] || p in s[f..] <==> p in s && p.key != k
  {
    Differ(cmp, p.key, k);
    if p in s && p.key != k {
      var i :| 0 <= i < |s| && s[i] == p;
      assert if i < r then s[..r][i] == p else s[f..][i - f] == p;
    }
  }

  /** Put means map update: k now maps to v, every other key to what it did. */
  lemma PutLookup<K(!new), V>(cmp: (K, K) -> int, s: seq<Pair<K, V>>, k: K, v: V, x: K)
    requires TotalOrder(cmp) && Sorted(cmp, s)
    ensures Lookup(cmp, Put(cmp, s, k, v), x) == if x == k then Some(v) else Lookup(cmp, s, x)
  {
    PutSorted(cmp, s, k, v);
    var p := Put(cmp, s, k, v);
    forall w ensures Pair(x, w) in p <==> Pair(x, w) == Pair(k, v) || (Pair(x, w) in s && x != k) {
      PutMembers(cmp, s, k, v, Pair(x, w));
    }
    forall w ensures Lookup(cmp, p, x) == Some(w) <==> Pair(x, w) in p {
      LookupMeansMember(cmp, p, x, w);
    }
    forall w ensures Lookup(cmp, s, x) == Some(w) <==> Pair(x, w) in s {
      LookupMeansMember(cmp, s, x, w);
    }
  }

  lemma HeadIsLeast<K(!new), V>(cmp: (K, K) -> int, s: seq<Pair<K, V>>, p: Pair<K, V>)
    requires Sorted(cmp, s) && p in s
    ensures p == s[0] || cmp(s[0].key, p.key) < 0
  {
    var i :| 0 <= i < |s| && s[i] == p;
  }

  lemma Antisymmetric<K(!new)>(cmp: (K, K) -> int, a: K, b: K)
    requires TotalOrder(cmp) && cmp(a, b) < 0
    ensures cmp(b, a) > 0 && a != b
  {
    assert Lawful(cmp, a, b, b);
  }

  lemma TailMembers<K(!new), V>(cmp: (K, K) -> int, s: seq<Pair<K, V>>, p: Pair<K, V>)
    requires TotalOrder(cmp) && Sorted(cmp, s) && |s| > 0
    ensures p in s[1..] <==> p in s && p != s[0]
  {
    if p in s[1..] {
      var i :| 0 <= i < |s| - 1 && s[1..][i] == p;
      Antisymmetric(cmp, s[0].key, s[i + 1].key);
    }
    if p in s && p != s[0] {
      var i :| 0 <= i < |s| && s[i] == p;
      assert s[1..][i - 1] == p;
    }
  }

  /** A sorted sequence is determined by the pairs in it. */
  lemma {:induction false} SortedUnique<K(!new), V>(cmp: (K, K) -> int, s: seq<Pair<K, V>>, t: seq<Pair<K, V>>)
    requires TotalOrder(cmp) && Sorted(cmp, s) && Sorted(cmp, t)
    requires forall p :: p in s <==> p in t
    ensures s == t
  {
    assert |s| > 0 ==> s[0] in t;
    assert |t| > 0 ==> t[0] in s;
    if |s| > 0 && |t| > 0 {
      HeadIsLeast(cmp, s, t[0]);
      HeadIsLeast(cmp, t, s[0]);
      if s[0] != t[0] {
        Antisymmetric(cmp, s[0].key, t[0].key);
      }
      forall p ensures p in s[1..] <==> p in t[1..] {
        TailMembers(cmp, s, p);
        TailMembers(cmp, t, p);
      }
      SortedUnique(cmp, s[1..], t[1..]);
    }
  }

  /** Only the stretch of a sequence around the key takes part in Put. */
  lemma PutInMiddle<K(!new), V>(
      cmp: (K, K) -> int, a: seq<Pair<K, V>>, b: seq<Pair<K, V>>, c: seq<Pair<K, V>>, k: K, v: V)
    requires AllBelow(cmp, a, k) && AllAbove(cmp, c, k)
    ensures Put(cmp, a + b + c, k, v) == a + Put(cmp, b, k, v) + c
    ensures Found(cmp, a + b + c, k) == Found(cmp, b, k)
  {
    PlaceInMiddle(cmp, a, b, c, k);
    SpliceInMiddle(a, b, c, Place(cmp, b, k), PlaceAfter(cmp, b, k), [Pair(k, v)]);
  }

  lemma SpliceInMiddle<T>(a: seq<T>, b: seq<T>, c: seq<T>, from: nat, to: nat, m: seq<T>)
    requires from <= to <= |b|
    ensures Splice(a + b + c, |a| + from, |a| + to, m) == a + Splice(b, from, to, m) + c
  {
    assert (a + b + c)[..|a| + from] == a + b[..from];
    assert (a + b + c)[|a| + to..] == b[to..] + c;
  }

  lemma PlaceInMiddle<K(!new), V>(cmp: (K, K) -> int, a: seq<Pair<K, V>>, b: seq<Pair<K, V>>, c: seq<Pair<K, V>>, k: K)
    requires AllBelow(cmp, a, k) && AllAbove(cmp, c, k)
    ensures Place(cmp, a + b + c, k) == |a| + Place(cmp, b, k)
    ensures Found(cmp, a + b + c, k) == Found(cmp, b, k)
  {
    PlaceUnique(cmp, a + b + c, k, |a| + Place(cmp, b, k));
  }

  lemma LookupInMiddle<K(!new), V>(cmp: (K, K) -> int, a: seq<Pair<K, V>>, b: seq<Pair<K, V>>, c: seq<Pair<K, V>>, k: K)
    requires AllBelow(cmp, a, k) && AllAbove(cmp, c, k)
    ensures Lookup(cmp, a + b + c, k) == Lookup(cmp, b, k)
  {
    PlaceInMiddle(cmp, a, b, c, k);
  }
}
