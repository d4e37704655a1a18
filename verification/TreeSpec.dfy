/** What a B+ tree is as a value, and what inserting into it does to that value.
    The separators that the source caches in each internal node are derived here
    (MaxKey of the child); TreeNodes proves that the cache is always right. */
module TreeSpec {
  import opened Options
  import opened SortedPairs

  datatype Tree<K, V> =
    | Leaf(entries: seq<Pair<K, V>>)
    | Inner(children: seq<Tree<K, V>>)
  {
    /** keys.length of the source's node. */
    ghost function Size(): nat {
      if Leaf? then |entries| else |children|
    }
  }

  ghost function Contents<K, V>(t: Tree<K, V>): seq<Pair<K, V>>
    decreases t, 0
  {
    match t
    case Leaf(es) => es
    case Inner(cs) => Flat(cs)
  }

  ghost function Flat<K, V>(ts: seq<Tree<K, V>>): seq<Pair<K, V>>
    decreases ts, 1
  {
    if |ts| == 0 then [] else Contents(ts[0]) + Flat(ts[1..])
  }

  lemma {:induction false} FlatConcat<K, V>(a: seq<Tree<K, V>>, b: seq<Tree<K, V>>)
    ensures Flat(a + b) == Flat(a) + Flat(b)
  {
    if |a| == 0 {
      assert a + b == b;
    } else {
      assert (a + b)[1..] == a[1..] + b;
      FlatConcat(a[1..], b);
    }
  }

  lemma FlatSingle<K, V>(t: Tree<K, V>)
    ensures Flat([t]) == Contents(t)
  {
  }

  lemma FlatAround<K, V>(ts: seq<Tree<K, V>>, i: nat)
    requires i < |ts|
    ensures Flat(ts) == Flat(ts[..i]) + Contents(ts[i]) + Flat(ts[i + 1..])
  {
    FlatConcat(ts[..i], ts[i..]);
    assert ts == ts[..i] + ts[i..];
    assert ts[i..][1..] == ts[i + 1..];
  }

  /** Replacing the children from i up to j by others. */
  lemma FlatSplice<K, V>(ts: seq<Tree<K, V>>, i: nat, j: nat, m: seq<Tree<K, V>>)
    requires i <= j <= |ts|
    ensures Flat(Splice(ts, i, j, m)) == Flat(ts[..i]) + Flat(m) + Flat(ts[j..])
  {
    FlatConcat(ts[..i] + m, ts[j..]);
    FlatConcat(ts[..i], m);
  }

  lemma FlatCut<K, V>(ts: seq<Tree<K, V>>, n: nat)
    requires n <= |ts|
    ensures Flat(ts[..n]) + Flat(ts[n..]) == Flat(ts)
  {
    FlatConcat(ts[..n], ts[n..]);
    assert ts[..n] + ts[n..] == ts;
  }

  lemma FlatSpliceSame<K, V>(ts: seq<Tree<K, V>>, i: nat, j: nat, m: seq<Tree<K, V>>)
    requires i <= j <= |ts| && Flat(m) == Flat(ts[i..j])
    ensures Flat(Splice(ts, i, j, m)) == Flat(ts)
  {
    FlatSplice(ts, i, j, m);
    FlatSplice(ts, i, j, ts[i..j]);
    assert Splice(ts, i, j, ts[i..j]) == ts;
  }

  // ------------------------------------------------------------------ shape

  /** All leaves at depth h, no node empty and none over full. */
  ghost predicate Shape<K, V>(t: Tree<K, V>, max: nat, h: nat)
  {
    1 <= t.Size() <= max &&
    match t
    case Leaf(_) => h == 0
    case Inner(cs) => h > 0 && forall i :: 0 <= i < |cs| ==> Shape(cs[i], max, h - 1)
  }

  /** Every node below the root holds at least half of what fits. */
  ghost predicate HalfFull<K, V>(t: Tree<K, V>, max: nat)
  {
    t.Inner? ==> forall i :: 0 <= i < |t.children| ==> t.children[i].Size() >= max / 2 && HalfFull(t.children[i], max)
  }

  /** The tree's root may be the empty leaf. */
  ghost predicate RootShape<K, V>(t: Tree<K, V>, max: nat, h: nat)
  {
    Shape(t, max, h) || (h == 0 && t == Leaf([]))
  }

  ghost function MaxKey<K, V>(t: Tree<K, V>, max: nat, h: nat): K
    requires Shape(t, max, h)
  {
    match t
    case Leaf(es) => es[|es| - 1].key
    case Inner(cs) => MaxKey(cs[|cs| - 1], max, h - 1)
  }

  ghost predicate Shapes<K, V>(ts: seq<Tree<K, V>>, max: nat, h: nat) {
    forall i :: 0 <= i < |ts| ==> Shape(ts[i], max, h)
  }

  /** The separators of an internal node: the greatest key under each child. */
  ghost function MaxKeys<K, V>(ts: seq<Tree<K, V>>, max: nat, h: nat): (ks: seq<K>)
    requires Shapes(ts, max, h)
    ensures |ks| == |ts|
    ensures forall i :: 0 <= i < |ts| ==> ks[i] == MaxKey(ts[i], max, h)
  {
    seq(|ts|, i requires 0 <= i < |ts| => MaxKey(ts[i], max, h))
  }

  lemma {:induction false} MaxKeyIsLast<K, V>(t: Tree<K, V>, max: nat, h: nat)
    requires Shape(t, max, h)
    ensures |Contents(t)| > 0 && MaxKey(t, max, h) == Contents(t)[|Contents(t)| - 1].key
  {
    match t
    case Leaf(_) =>
    case Inner(cs) =>
      FlatAround(cs, |cs| - 1);
      MaxKeyIsLast(cs[|cs| - 1], max, h - 1);
  }

  lemma MaxKeyOfPrefix<K, V>(cs: seq<Tree<K, V>>, n: nat, max: nat, h: nat)
    requires 0 < n <= |cs| <= max && h > 0 && Shapes(cs, max, h - 1)
    ensures Shape(Inner(cs[..n]), max, h) && MaxKey(Inner(cs[..n]), max, h) == MaxKey(cs[n - 1], max, h - 1)
  {
  }

  // ----------------------------------------------------------------- insert

  datatype SetResult<K, V> =
    | Done(tree: Tree<K, V>, added: bool)
    | Split(left: Tree<K, V>, right: Tree<K, V>)

  /** The child a key belongs under. */
  ghost function ChildIndex<K(!new), V>(cmp: (K, K) -> int, cs: seq<Tree<K, V>>, k: K, max: nat, h: nat): (i: nat)
    requires |cs| > 0 && Shapes(cs, max, h)
    ensures i < |cs|
  {
    var r := Rank(cmp, MaxKeys(cs, max, h), k);
    if r < |cs| then r else |cs| - 1
  }

  /** keys[0] of a node: its first entry's key, or its first separator. */
  ghost function FirstKey<K, V>(t: Tree<K, V>, max: nat, h: nat): K
    requires Shape(t, max, h)
  {
    match t
    case Leaf(es) => es[0].key
    case Inner(cs) => MaxKey(cs[0], max, h - 1)
  }

  /** takeFromRight: the first entry or child of r moves to the end of l. */
  ghost function Shifted<K, V>(l: Tree<K, V>, r: Tree<K, V>): (lr: (Tree<K, V>, Tree<K, V>))
    requires l.Leaf? == r.Leaf? && r.Size() > 0
  {
    match l
    case Leaf(es) => (Leaf(es + [r.entries[0]]), Leaf(r.entries[1..]))
    case Inner(cs) => (Inner(cs + [r.children[0]]), Inner(r.children[1..]))
  }

  /** Whether a full child lends its first item to its left neighbour. */
  ghost predicate ShiftsLeft<K(!new), V>(cmp: (K, K) -> int, cs: seq<Tree<K, V>>, i: nat, k: K, max: nat, h: nat)
    requires i < |cs| && Shapes(cs, max, h)
  {
    cs[i].Size() >= max && i > 0 && cs[i - 1].Size() < max && cmp(FirstKey(cs[i], max, h), k) < 0
  }

  ghost function ShiftLeft<K, V>(cs: seq<Tree<K, V>>, i: nat, max: nat, h: nat): (r: seq<Tree<K, V>>)
    requires 0 < i < |cs| && Shapes(cs, max, h)
    ensures |r| == |cs|
  {
    var (l, m) := Shifted(cs[i - 1], cs[i]);
    Splice(cs, i - 1, i + 1, [l, m])
  }

  ghost function SetLeaf<K(!new), V>(
      cmp: (K, K) -> int, es: seq<Pair<K, V>>, k: K, v: V, overwrite: bool, max: nat): SetResult<K, V> {
    var i := Place(cmp, es, k);
    if Found(cmp, es, k) then
      Done(Leaf(if overwrite then es[i := Pair(k, v)] else es), false)
    else
      var whole := Splice(es, i, i, [Pair(k, v)]);
      if |es| < max then Done(Leaf(whole), true)
      else
        var cut := if i > |es| / 2 then |es| / 2 else |es| / 2 + 1;
        Split(Leaf(whole[..cut]), Leaf(whole[cut..]))
  }

  /** An internal node whose child i has become l and r. When it is full it splits in two,
      and r goes to the half that its greatest key falls in. */
  ghost function SplitChild<K(!new), V>(
      cs: seq<Tree<K, V>>, i: nat, l: Tree<K, V>, r: Tree<K, V>, max: nat): SetResult<K, V>
    requires i < |cs|
  {
    var whole := Splice(cs, i, i + 1, [l, r]);
    if |cs| < max then Done(Inner(whole), true)
    else
      var cut := if i + 1 < |cs| / 2 then |cs| / 2 + 1 else |cs| / 2;
      Split(Inner(whole[..cut]), Inner(whole[cut..]))
  }

  /** BNode.set and BNodeInternal.set. */
  ghost function SetNode<K(!new), V>(
      cmp: (K, K) -> int, t: Tree<K, V>, k: K, v: V, overwrite: bool, max: nat, h: nat): SetResult<K, V>
    requires 4 <= max && RootShape(t, max, h)
    decreases h, 1
  {
    match t
    case Leaf(es) => SetLeaf(cmp, es, k, v, overwrite, max)
    case Inner(cs) => SetInner(cmp, cs, k, v, overwrite, max, h)
  }

  ghost function SetInner<K(!new), V>(
      cmp: (K, K) -> int, cs: seq<Tree<K, V>>, k: K, v: V, overwrite: bool, max: nat, h: nat): SetResult<K, V>
    requires 4 <= max && h > 0 && |cs| > 0 && Shapes(cs, max, h - 1)
    decreases h, 0
  {
    var i := ChildIndex(cmp, cs, k, max, h - 1);
    var cs' := MakeRoom(cmp, cs, i, k, max, h - 1);
    WithChild(cs', i, SetNode(cmp, cs'[i], k, v, overwrite, max, h - 1), max)
  }

  /** The children once a full child has lent its first item to the left, if it may. */
  ghost function MakeRoom<K(!new), V>(
      cmp: (K, K) -> int, cs: seq<Tree<K, V>>, i: nat, k: K, max: nat, h: nat): (r: seq<Tree<K, V>>)
    requires 4 <= max && i < |cs| && Shapes(cs, max, h)
    ensures |r| == |cs| && Shapes(r, max, h)
  {
    if ShiftsLeft(cmp, cs, i, k, max, h) then ShiftLeft(cs, i, max, h) else cs
  }

  /** An internal node once set has been done on its child i. */
  ghost function WithChild<K(!new), V>(cs: seq<Tree<K, V>>, i: nat, r: SetResult<K, V>, max: nat): SetResult<K, V>
    requires i < |cs|
  {
    match r
    case Done(t, added) => Done(Inner(cs[i := t]), added)
    case Split(l, r) => SplitChild(cs, i, l, r, max)
  }

  ghost function Parts<K, V>(r: SetResult<K, V>): seq<Tree<K, V>> {
    match r
    case Done(t, _) => [t]
    case Split(l, r) => [l, r]
  }

  /** BTree.set: a root that splits becomes the left child of a new root. */
  ghost function RootOf<K, V>(r: SetResult<K, V>): Tree<K, V> {
    match r
    case Done(u, _) => u
    case Split(l, r) => Inner([l, r])
  }

  ghost function Added<K, V>(r: SetResult<K, V>): bool {
    r.Split? || r.added
  }

  lemma ShiftLeftShape<K, V>(cs: seq<Tree<K, V>>, i: nat, max: nat, h: nat)
    requires 0 < i < |cs| && Shapes(cs, max, h) && cs[i - 1].Size() < max && cs[i].Size() > 1
    ensures Shapes(ShiftLeft(cs, i, max, h), max, h)
  {
  }

  /** What set means: a put, unless the key is there and may not be overwritten. */
  ghost function Updated<K(!new), V>(
      cmp: (K, K) -> int, s: seq<Pair<K, V>>, k: K, v: V, overwrite: bool): seq<Pair<K, V>> {
    if Found(cmp, s, k) && !overwrite then s else Put(cmp, s, k, v)
  }

  /** Putting l in place first and then adding r after it comes to the same. */
  lemma SplitChildInSteps<K(!new), V>(cs: seq<Tree<K, V>>, i: nat, l: Tree<K, V>, r: Tree<K, V>, max: nat)
    requires i < |cs|
    ensures SplitChild(cs[i := l], i, l, r, max) == SplitChild(cs, i, l, r, max)
    ensures Splice(cs[i := l], i + 1, i + 1, [r]) == Splice(cs, i, i + 1, [l, r])
  {
    assert Splice(cs[i := l], i, i + 1, [l, r]) == Splice(cs, i, i + 1, [l, r]);
  }

  // -------------------------------------------------- insert: shape is kept

  ghost predicate ResultShape<K, V>(r: SetResult<K, V>, max: nat, h: nat, least: nat) {
    match r
    case Done(t, _) => Shape(t, max, h) && t.Size() >= least
    case Split(l, r) => Shape(l, max, h) && Shape(r, max, h) && l.Size() >= max / 2 && r.Size() >= max / 2
  }

  lemma SetLeafShape<K(!new), V>(cmp: (K, K) -> int, es: seq<Pair<K, V>>, k: K, v: V, overwrite: bool, max: nat)
    requires 4 <= max && |es| <= max
    ensures ResultShape(SetLeaf(cmp, es, k, v, overwrite, max), max, 0, |es|)
  {
  }

  lemma SplitChildShape<K(!new), V>(cs: seq<Tree<K, V>>, i: nat, l: Tree<K, V>, r: Tree<K, V>, max: nat, h: nat)
    requires 4 <= max && i < |cs| <= max && h > 0
    requires Shapes(cs, max, h - 1) && Shape(l, max, h - 1) && Shape(r, max, h - 1)
    ensures ResultShape(SplitChild(cs, i, l, r, max), max, h, |cs|)
  {
    assert Shapes(Splice(cs, i, i + 1, [l, r]), max, h - 1);
  }

  /** Set keeps every leaf at one depth and every node between one and max; what splits is half full. */
  lemma {:induction false} SetNodeShape<K(!new), V>(
      cmp: (K, K) -> int, t: Tree<K, V>, k: K, v: V, overwrite: bool, max: nat, h: nat)
    requires 4 <= max && RootShape(t, max, h)
    ensures ResultShape(SetNode(cmp, t, k, v, overwrite, max, h), max, h, t.Size())
    decreases h
  {
    match t
    case Leaf(es) =>
      SetLeafShape(cmp, es, k, v, overwrite, max);
    case Inner(cs) =>
      var i := ChildIndex(cmp, cs, k, max, h - 1);
      var cs' := MakeRoom(cmp, cs, i, k, max, h - 1);
      SetNodeShape(cmp, cs'[i], k, v, overwrite, max, h - 1);
      var r := SetNode(cmp, cs'[i], k, v, overwrite, max, h - 1);
      if r.Split? {
        SplitChildShape(cs', i, r.left, r.right, max, h);
      }
  }

  ghost predicate ResultHalfFull<K, V>(r: SetResult<K, V>, max: nat) {
    match r
    case Done(t, _) => HalfFull(t, max)
    case Split(l, r) => HalfFull(l, max) && HalfFull(r, max)
  }

  /** Half full below the root stays half full below the root. */
  lemma {:induction false} SetNodeHalfFull<K(!new), V>(
      cmp: (K, K) -> int, t: Tree<K, V>, k: K, v: V, overwrite: bool, max: nat, h: nat)
    requires 4 <= max && RootShape(t, max, h) && HalfFull(t, max)
    ensures ResultHalfFull(SetNode(cmp, t, k, v, overwrite, max, h), max)
    decreases h
  {
    if t.Inner? {
      var i := ChildIndex(cmp, t.children, k, max, h - 1);
      var cs := MakeRoom(cmp, t.children, i, k, max, h - 1);
      MakeRoomHalfFull(cmp, t.children, i, k, max, h - 1);
      SetNodeShape(cmp, cs[i], k, v, overwrite, max, h - 1);
      SetNodeHalfFull(cmp, cs[i], k, v, overwrite, max, h - 1);
      WithChildHalfFull(cs, i, SetNode(cmp, cs[i], k, v, overwrite, max, h - 1), max, h - 1);
    }
  }

  lemma WithChildHalfFull<K(!new), V>(cs: seq<Tree<K, V>>, i: nat, r: SetResult<K, V>, max: nat, h: nat)
    requires i < |cs| && HalfFull(Inner(cs), max)
    requires ResultHalfFull(r, max) && ResultShape(r, max, h, max / 2)
    ensures ResultHalfFull(WithChild(cs, i, r, max), max)
  {
    if r.Split? {
      assert [r.left, r.right][0] == r.left && [r.left, r.right][1] == r.right;
      SplitChildHalfFull(cs, i, r.left, r.right, max);
    }
  }

  lemma MakeRoomHalfFull<K(!new), V>(cmp: (K, K) -> int, cs: seq<Tree<K, V>>, i: nat, k: K, max: nat, h: nat)
    requires 4 <= max && i < |cs| && Shapes(cs, max, h) && HalfFull(Inner(cs), max)
    ensures HalfFull(Inner(MakeRoom(cmp, cs, i, k, max, h)), max)
  {
  }

  lemma SplitChildHalfFull<K(!new), V>(cs: seq<Tree<K, V>>, i: nat, l: Tree<K, V>, r: Tree<K, V>, max: nat)
    requires i < |cs| && HalfFull(Inner(cs), max) && HalfFull(Inner([l, r]), max)
    ensures ResultHalfFull(SplitChild(cs, i, l, r, max), max)
  {
    assert [l, r][0] == l && [l, r][1] == r;
    assert HalfFull(Inner(Splice(cs, i, i + 1, [l, r])), max);
  }

  // ------------------------------------------- insert: contents are updated

  lemma ShiftLeftFlat<K, V>(cs: seq<Tree<K, V>>, i: nat, max: nat, h: nat)
    requires 0 < i < |cs| && Shapes(cs, max, h)
    ensures Flat(ShiftLeft(cs, i, max, h)) == Flat(cs)
  {
    var (l, m) := Shifted(cs[i - 1], cs[i]);
    assert Flat([l, m]) == Flat(cs[i - 1..i + 1]) by {
      TakeFromRightFlat(cs[i - 1], cs[i]);
      assert cs[i - 1..i + 1] == [cs[i - 1], cs[i]];
    }
    FlatSpliceSame(cs, i - 1, i + 1, [l, m]);
  }

  lemma TakeFromRightFlat<K, V>(l: Tree<K, V>, r: Tree<K, V>)
    requires l.Leaf? == r.Leaf? && r.Size() > 0
    ensures var (l', r') := Shifted(l, r); Flat([l', r']) == Flat([l, r])
  {
    var (l', r') := Shifted(l, r);
    FlatPair(l, r);
    FlatPair(l', r');
    if l.Leaf? {
      assert r.entries == [r.entries[0]] + r.entries[1..];
    } else {
      FlatConcat(l.children, [r.children[0]]);
      FlatConcat([r.children[0]], r.children[1..]);
      assert r.children == [r.children[0]] + r.children[1..];
    }
  }

  lemma FlatPair<K, V>(l: Tree<K, V>, r: Tree<K, V>)
    ensures Flat([l, r]) == Contents(l) + Contents(r)
  {
    assert [l, r][1..] == [r];
    FlatSingle(r);
  }

  lemma LastBelow<K(!new), V>(cmp: (K, K) -> int, s: seq<Pair<K, V>>, n: nat, k: K)
    requires TotalOrder(cmp) && Sorted(cmp, s) && 0 < n <= |s| && cmp(s[n - 1].key, k) < 0
    ensures AllBelow(cmp, s[..n], k)
  {
    forall i | 0 <= i < n - 1 ensures cmp(s[i].key, k) < 0 {
      assert Lawful(cmp, s[i].key, s[n - 1].key, k);
    }
  }

  lemma LastNotBelow<K(!new), V>(cmp: (K, K) -> int, s: seq<Pair<K, V>>, n: nat, k: K)
    requires TotalOrder(cmp) && Sorted(cmp, s) && 0 < n <= |s| && cmp(s[n - 1].key, k) >= 0
    ensures AllAbove(cmp, s[n..], k)
  {
    forall i | n <= i < |s| ensures cmp(s[i].key, k) > 0 {
      assert cmp(s[n - 1].key, s[i].key) < 0;
      Beyond(cmp, s[n - 1].key, s[i].key, k);
    }
  }

  /** The pairs up to child i end with its separator. */
  lemma UpToChild<K, V>(cs: seq<Tree<K, V>>, i: nat, max: nat, h: nat)
    requires i < |cs| && Shapes(cs, max, h)
    ensures var n := |Flat(cs[..i + 1])|;
      && 0 < n <= |Flat(cs)| && Flat(cs)[n - 1].key == MaxKey(cs[i], max, h)
      && Flat(cs)[..n] == Flat(cs[..i + 1]) && Flat(cs)[n..] == Flat(cs[i + 1..])
  {
    FlatConcat(cs[..i + 1], cs[i + 1..]);
    assert cs == cs[..i + 1] + cs[i + 1..];
    FlatAround(cs[..i + 1], i);
    MaxKeyIsLast(cs[i], max, h);
  }

  /** A key's child is the only one that can hold it. */
  lemma ChildIndexSeparates<K(!new), V>(cmp: (K, K) -> int, cs: seq<Tree<K, V>>, k: K, max: nat, h: nat)
    requires TotalOrder(cmp) && |cs| > 0 && Shapes(cs, max, h) && Sorted(cmp, Flat(cs))
    ensures AllBelow(cmp, Flat(cs[..ChildIndex(cmp, cs, k, max, h)]), k)
    ensures AllAbove(cmp, Flat(cs[ChildIndex(cmp, cs, k, max, h) + 1..]), k)
  {
    var i := ChildIndex(cmp, cs, k, max, h);
    if i > 0 {
      ChildrenBelow(cmp, cs, i, k, max, h);
    }
    if i + 1 < |cs| {
      ChildrenAbove(cmp, cs, i, k, max, h);
    }
  }

  lemma ChildrenBelow<K(!new), V>(cmp: (K, K) -> int, cs: seq<Tree<K, V>>, i: nat, k: K, max: nat, h: nat)
    requires TotalOrder(cmp) && 0 < i <= |cs| && Shapes(cs, max, h) && Sorted(cmp, Flat(cs))
    requires cmp(MaxKey(cs[i - 1], max, h), k) < 0
    ensures AllBelow(cmp, Flat(cs[..i]), k)
  {
    UpToChild(cs, i - 1, max, h);
    LastBelow(cmp, Flat(cs), |Flat(cs[..i])|, k);
  }

  lemma ChildrenAbove<K(!new), V>(cmp: (K, K) -> int, cs: seq<Tree<K, V>>, i: nat, k: K, max: nat, h: nat)
    requires TotalOrder(cmp) && i < |cs| && Shapes(cs, max, h) && Sorted(cmp, Flat(cs))
    requires cmp(MaxKey(cs[i], max, h), k) >= 0
    ensures AllAbove(cmp, Flat(cs[i + 1..]), k)
  {
    UpToChild(cs, i, max, h);
    LastNotBelow(cmp, Flat(cs), |Flat(cs[..i + 1])|, k);
  }

  lemma SetLeafContents<K(!new), V>(cmp: (K, K) -> int, es: seq<Pair<K, V>>, k: K, v: V, overwrite: bool, max: nat)
    ensures MeansUpdate(SetLeaf(cmp, es, k, v, overwrite, max), cmp, es, k, v, overwrite)
  {
    hide Flat, Place, Splice;
    var i := Place(cmp, es, k);
    var r := SetLeaf(cmp, es, k, v, overwrite, max);
    if Found(cmp, es, k) {
      UpdateMeansSplice(es, i, Pair(k, v));
      LeafContents(r, r.tree.entries);
    } else {
      LeafContents(r, Splice(es, i, i, [Pair(k, v)]));
    }
  }

  lemma UpdateMeansSplice<T>(s: seq<T>, i: nat, x: T)
    requires i < |s|
    ensures s[i := x] == Splice(s, i, i + 1, [x])
  {
  }

  lemma LeafContents<K, V>(r: SetResult<K, V>, whole: seq<Pair<K, V>>)
    requires r.Done? ==> r.tree == Leaf(whole)
    requires r.Split? ==> r.left.Leaf? && r.right.Leaf? && |r.left.entries| <= |whole|
    requires r.Split? ==> r.left.entries == whole[..|r.left.entries|] && r.right.entries == whole[|r.left.entries|..]
    ensures Flat(Parts(r)) == whole
  {
    match r
    case Done(t, _) =>
      FlatSingle(t);
    case Split(l, r) =>
      FlatPair(l, r);
      assert whole == l.entries + r.entries;
  }

  lemma UpdatedInMiddle<K(!new), V>(
      cmp: (K, K) -> int, a: seq<Pair<K, V>>, b: seq<Pair<K, V>>, c: seq<Pair<K, V>>, k: K, v: V, overwrite: bool)
    requires AllBelow(cmp, a, k) && AllAbove(cmp, c, k)
    ensures Updated(cmp, a + b + c, k, v, overwrite) == a + Updated(cmp, b, k, v, overwrite) + c
    ensures Found(cmp, a + b + c, k) == Found(cmp, b, k)
  {
    PutInMiddle(cmp, a, b, c, k, v);
  }

  lemma SplitChildFlat<K(!new), V>(cs: seq<Tree<K, V>>, i: nat, l: Tree<K, V>, r: Tree<K, V>, max: nat)
    requires i < |cs|
    ensures Flat(Parts(SplitChild(cs, i, l, r, max))) == Flat(cs[..i]) + Flat([l, r]) + Flat(cs[i + 1..])
  {
    var whole := Splice(cs, i, i + 1, [l, r]);
    FlatSplice(cs, i, i + 1, [l, r]);
    match SplitChild(cs, i, l, r, max)
    case Done(t, _) => FlatSingle(t);
    case Split(a, b) =>
      FlatPair(a, b);
      FlatCut(whole, |a.children|);
  }

  /** Set updates the map that the tree means, and says whether the key was new. */
  lemma {:induction false} SetNodeContents<K(!new), V>(
      cmp: (K, K) -> int, t: Tree<K, V>, k: K, v: V, overwrite: bool, max: nat, h: nat)
    requires TotalOrder(cmp) && 4 <= max && RootShape(t, max, h) && Sorted(cmp, Contents(t))
    ensures MeansUpdate(SetNode(cmp, t, k, v, overwrite, max, h), cmp, Contents(t), k, v, overwrite)
    decreases h
  {
    match t
    case Leaf(es) =>
      SetLeafContents(cmp, es, k, v, overwrite, max);
    case Inner(cs) =>
      var i := ChildIndex(cmp, cs, k, max, h - 1);
      var cs' := MakeRoom(cmp, cs, i, k, max, h - 1);
      ChildIndexSeparates(cmp, cs, k, max, h - 1);
      MakeRoomSeparates(cmp, cs, i, k, max, h - 1);
      ChildSorted(cmp, cs', i);
      SetNodeContents(cmp, cs'[i], k, v, overwrite, max, h - 1);
      WithChildMeans(cmp, cs', i, SetNode(cmp, cs'[i], k, v, overwrite, max, h - 1), k, v, overwrite, max);
  }

  lemma ShiftedMax<K, V>(l: Tree<K, V>, r: Tree<K, V>, max: nat, h: nat)
    requires Shape(l, max, h) && Shape(r, max, h) && Shape(Shifted(l, r).0, max, h) && Shape(Shifted(l, r).1, max, h)
    ensures MaxKey(Shifted(l, r).0, max, h) == FirstKey(r, max, h)
    ensures MaxKey(Shifted(l, r).1, max, h) == MaxKey(r, max, h)
  {
  }

  lemma ShiftLeftSeparates<K(!new), V>(cmp: (K, K) -> int, cs: seq<Tree<K, V>>, i: nat, k: K, max: nat, h: nat)
    requires TotalOrder(cmp) && 4 <= max && i < |cs| && Shapes(cs, max, h) && Sorted(cmp, Flat(cs))
    requires ShiftsLeft(cmp, cs, i, k, max, h)
    ensures AllBelow(cmp, Flat(ShiftLeft(cs, i, max, h)[..i]), k)
  {
    var cs' := ShiftLeft(cs, i, max, h);
    assert cs' == MakeRoom(cmp, cs, i, k, max, h);
    ShiftLeftFlat(cs, i, max, h);
    assert cs'[i - 1] == Shifted(cs[i - 1], cs[i]).0 && cs'[i] == Shifted(cs[i - 1], cs[i]).1;
    ShiftedMax(cs[i - 1], cs[i], max, h);
    ChildrenBelow(cmp, cs', i, k, max, h);
  }

  lemma MakeRoomSeparates<K(!new), V>(cmp: (K, K) -> int, cs: seq<Tree<K, V>>, i: nat, k: K, max: nat, h: nat)
    requires TotalOrder(cmp) && 4 <= max && i < |cs| && Shapes(cs, max, h) && Sorted(cmp, Flat(cs))
    requires AllBelow(cmp, Flat(cs[..i]), k)
    ensures Flat(MakeRoom(cmp, cs, i, k, max, h)) == Flat(cs)
    ensures AllBelow(cmp, Flat(MakeRoom(cmp, cs, i, k, max, h)[..i]), k)
    ensures MakeRoom(cmp, cs, i, k, max, h)[i + 1..] == cs[i + 1..]
  {
    if ShiftsLeft(cmp, cs, i, k, max, h) {
      ShiftLeftFlat(cs, i, max, h);
      ShiftLeftSeparates(cmp, cs, i, k, max, h);
    }
  }

  ghost predicate MeansUpdate<K(!new), V>(
      r: SetResult<K, V>, cmp: (K, K) -> int, s: seq<Pair<K, V>>, k: K, v: V, overwrite: bool) {
    && Flat(Parts(r)) == Updated(cmp, s, k, v, overwrite)
    && Added(r) == !Found(cmp, s, k)
  }

  lemma ChildSorted<K(!new), V>(cmp: (K, K) -> int, cs: seq<Tree<K, V>>, i: nat)
    requires i < |cs| && Sorted(cmp, Flat(cs))
    ensures Sorted(cmp, Contents(cs[i]))
  {
    FlatAround(cs, i);
    SortedMiddle(cmp, Flat(cs[..i]), Contents(cs[i]), Flat(cs[i + 1..]));
  }

  lemma WithChildMeans<K(!new), V>(
      cmp: (K, K) -> int, cs: seq<Tree<K, V>>, i: nat, r: SetResult<K, V>, k: K, v: V, overwrite: bool, max: nat)
    requires i < |cs| && MeansUpdate(r, cmp, Contents(cs[i]), k, v, overwrite)
    requires AllBelow(cmp, Flat(cs[..i]), k) && AllAbove(cmp, Flat(cs[i + 1..]), k)
    ensures MeansUpdate(WithChild(cs, i, r, max), cmp, Flat(cs), k, v, overwrite)
  {
    FlatAround(cs, i);
    WithChildFlat(cs, i, r, max);
    MeansInMiddle(r, WithChild(cs, i, r, max), cmp, Flat(cs[..i]), Contents(cs[i]), Flat(cs[i + 1..]), k, v, overwrite);
  }

  /** An update of the one stretch that can hold the key is an update of all. */
  lemma MeansInMiddle<K(!new), V>(r: SetResult<K, V>, r': SetResult<K, V>, cmp: (K, K) -> int,
      a: seq<Pair<K, V>>, b: seq<Pair<K, V>>, c: seq<Pair<K, V>>, k: K, v: V, overwrite: bool)
    requires MeansUpdate(r, cmp, b, k, v, overwrite)
    requires AllBelow(cmp, a, k) && AllAbove(cmp, c, k)
    requires Flat(Parts(r')) == a + Flat(Parts(r)) + c
    requires Added(r') == Added(r)
    ensures MeansUpdate(r', cmp, a + b + c, k, v, overwrite)
  {
    UpdatedInMiddle(cmp, a, b, c, k, v, overwrite);
  }

  lemma WithChildFlat<K(!new), V>(cs: seq<Tree<K, V>>, i: nat, r: SetResult<K, V>, max: nat)
    requires i < |cs|
    ensures Flat(Parts(WithChild(cs, i, r, max))) == Flat(cs[..i]) + Flat(Parts(r)) + Flat(cs[i + 1..])
  {
    match r
    case Done(t, _) =>
      FlatSplice(cs, i, i + 1, [t]);
      assert cs[i := t] == Splice(cs, i, i + 1, [t]);
      FlatSingle(Inner(cs[i := t]));
    case Split(l, r) =>
      SplitChildFlat(cs, i, l, r, max);
  }

  lemma SortedMiddle<K(!new), V>(cmp: (K, K) -> int, a: seq<Pair<K, V>>, b: seq<Pair<K, V>>, c: seq<Pair<K, V>>)
    requires Sorted(cmp, a + b + c)
    ensures Sorted(cmp, b)
  {
    forall i, j | 0 <= i < j < |b| ensures cmp(b[i].key, b[j].key) < 0 {
      assert (a + b + c)[|a| + i] == b[i] && (a + b + c)[|a| + j] == b[j];
    }
  }

  // ------------------------------------------------------------ separators

  /** The separators of a sorted node ascend. */
  lemma SeparatorsAscend<K(!new), V>(cmp: (K, K) -> int, cs: seq<Tree<K, V>>, max: nat, h: nat)
    requires Shapes(cs, max, h) && Sorted(cmp, Flat(cs))
    ensures Ascending(cmp, MaxKeys(cs, max, h))
  {
    forall i, j | 0 <= i < j < |cs| ensures cmp(MaxKey(cs[i], max, h), MaxKey(cs[j], max, h)) < 0 {
      SeparatorBelow(cmp, cs, i, j, max, h);
    }
  }

  lemma SeparatorBelow<K(!new), V>(cmp: (K, K) -> int, cs: seq<Tree<K, V>>, i: nat, j: nat, max: nat, h: nat)
    requires i < j < |cs| && Shapes(cs, max, h) && Sorted(cmp, Flat(cs))
    ensures cmp(MaxKey(cs[i], max, h), MaxKey(cs[j], max, h)) < 0
  {
    UpToChild(cs, i, max, h);
    UpToChild(cs, j, max, h);
    FlatLonger(cs, i + 1, j + 1, max, h);
    var s, m, n := Flat(cs), |Flat(cs[..i + 1])| - 1, |Flat(cs[..j + 1])| - 1;
    assert cmp(s[m].key, s[n].key) < 0;
  }

  lemma FlatLonger<K, V>(cs: seq<Tree<K, V>>, i: nat, j: nat, max: nat, h: nat)
    requires 0 < i < j <= |cs| && Shapes(cs, max, h)
    ensures |Flat(cs[..i])| < |Flat(cs[..j])|
  {
    FlatConcat(cs[..i], cs[i..j]);
    assert cs[..j] == cs[..i] + cs[i..j];
    FlatAround(cs[i..j], 0);
    MaxKeyIsLast(cs[i], max, h);
  }

  /** A new child at i + 1 belongs to the right half exactly when its greatest key is above the left half's. */
  lemma SplitSide<K(!new), V>(cmp: (K, K) -> int, cs: seq<Tree<K, V>>, i: nat, r: Tree<K, V>, max: nat, h: nat)
    requires TotalOrder(cmp) && i < |cs| && |cs| >= 2 && Shapes(cs, max, h) && Shape(r, max, h)
    requires Sorted(cmp, Flat(Splice(cs, i + 1, i + 1, [r])))
    ensures cmp(MaxKey(r, max, h), MaxKey(cs[|cs| / 2 - 1], max, h)) > 0 <==> i + 1 >= |cs| / 2
  {
    var whole, half := Splice(cs, i + 1, i + 1, [r]), |cs| / 2;
    SeparatorsAscend(cmp, whole, max, h);
    var ks := MaxKeys(whole, max, h);
    assert whole[i + 1] == r;
    if i + 1 >= half {
      assert whole[half - 1] == cs[half - 1];
      Antisymmetric(cmp, ks[half - 1], ks[i + 1]);
    } else {
      assert whole[half] == cs[half - 1] && cmp(ks[i + 1], ks[half]) < 0;
    }
  }

  /** Overwriting leaves the greatest key alone, so the separator above need not be written. */
  lemma SetNodeMaxKey<K(!new), V>(cmp: (K, K) -> int, t: Tree<K, V>, k: K, v: V, overwrite: bool, max: nat, h: nat)
    requires TotalOrder(cmp) && 4 <= max && Shape(t, max, h) && Sorted(cmp, Contents(t))
    requires !Added(SetNode(cmp, t, k, v, overwrite, max, h))
    ensures Shape(SetNode(cmp, t, k, v, overwrite, max, h).tree, max, h)
    ensures MaxKey(SetNode(cmp, t, k, v, overwrite, max, h).tree, max, h) == MaxKey(t, max, h)
  {
    var r := SetNode(cmp, t, k, v, overwrite, max, h);
    SetNodeShape(cmp, t, k, v, overwrite, max, h);
    SetNodeContents(cmp, t, k, v, overwrite, max, h);
    UpdateMaxKey(cmp, t, r, k, v, overwrite, max, h);
  }

  lemma UpdateMaxKey<K(!new), V>(
      cmp: (K, K) -> int, t: Tree<K, V>, r: SetResult<K, V>, k: K, v: V, overwrite: bool, max: nat, h: nat)
    requires TotalOrder(cmp) && Shape(t, max, h) && r.Done? && !r.added && Shape(r.tree, max, h)
    requires MeansUpdate(r, cmp, Contents(t), k, v, overwrite)
    ensures MaxKey(r.tree, max, h) == MaxKey(t, max, h)
  {
    FlatSingle(r.tree);
    MaxKeyIsLast(t, max, h);
    MaxKeyIsLast(r.tree, max, h);
    PutLast(cmp, Contents(t), k, v);
  }

  lemma PutLast<K(!new), V>(cmp: (K, K) -> int, s: seq<Pair<K, V>>, k: K, v: V)
    requires TotalOrder(cmp) && |s| > 0 && Found(cmp, s, k)
    ensures |Put(cmp, s, k, v)| == |s| && Put(cmp, s, k, v)[|s| - 1].key == s[|s| - 1].key
  {
    Differ(cmp, s[Place(cmp, s, k)].key, k);
  }

  /** The parts of a split child are in order among the other children. */
  lemma SplitPartsSorted<K(!new), V>(
      cmp: (K, K) -> int, s: seq<Pair<K, V>>, cs: seq<Tree<K, V>>, i: nat, l: Tree<K, V>, r: Tree<K, V>,
      k: K, v: V, overwrite: bool, max: nat)
    requires TotalOrder(cmp) && i < |cs| && Sorted(cmp, s)
    requires MeansUpdate(SplitChild(cs, i, l, r, max), cmp, s, k, v, overwrite)
    ensures Sorted(cmp, Flat(Splice(cs[i := l], i + 1, i + 1, [r])))
  {
    PutSorted(cmp, s, k, v);
    SplitChildInSteps(cs, i, l, r, max);
    SplitChildFlat(cs, i, l, r, max);
    FlatSplice(cs, i, i + 1, [l, r]);
  }

  /** What a set on child i of cs, done with result r, relies on and leads to. */
  ghost predicate Descends<K(!new), V>(
      cmp: (K, K) -> int, cs: seq<Tree<K, V>>, i: nat, r: SetResult<K, V>, max: nat, h: nat) {
    && i < |cs| && Shape(cs[i], max, h) && Sorted(cmp, Contents(cs[i]))
    && ResultShape(r, max, h, 1)
    && (!Added(r) ==> MaxKey(r.tree, max, h) == MaxKey(cs[i], max, h))
    && (r.Split? ==> Sorted(cmp, Flat(Splice(cs[i := r.left], i + 1, i + 1, [r.right]))))
  }

  lemma SetDescends<K(!new), V>(
      cmp: (K, K) -> int, cs: seq<Tree<K, V>>, i: nat, k: K, v: V, overwrite: bool, max: nat, h: nat)
    requires TotalOrder(cmp) && 4 <= max && h > 0 && 0 < |cs| <= max && Shapes(cs, max, h - 1) && Sorted(cmp, Flat(cs))
    requires i == ChildIndex(cmp, cs, k, max, h - 1)
    ensures var cs' := MakeRoom(cmp, cs, i, k, max, h - 1); var r := SetNode(cmp, cs'[i], k, v, overwrite, max, h - 1);
      && Descends(cmp, cs', i, r, max, h - 1)
      && SetNode(cmp, Inner(cs), k, v, overwrite, max, h) == WithChild(cs', i, r, max)
  {
    var cs' := MakeRoom(cmp, cs, i, k, max, h - 1);
    var r := SetNode(cmp, cs'[i], k, v, overwrite, max, h - 1);
    ChildIndexSeparates(cmp, cs, k, max, h - 1);
    MakeRoomSeparates(cmp, cs, i, k, max, h - 1);
    ChildSorted(cmp, cs', i);
    SetNodeShape(cmp, cs'[i], k, v, overwrite, max, h - 1);
    if !Added(r) {
      SetNodeMaxKey(cmp, cs'[i], k, v, overwrite, max, h - 1);
    }
    assert SetInner(cmp, cs, k, v, overwrite, max, h) == WithChild(cs', i, r, max);
    if r.Split? {
      SetNodeContents(cmp, Inner(cs), k, v, overwrite, max, h);
      SplitPartsSorted(cmp, Flat(cs), cs', i, r.left, r.right, k, v, overwrite, max);
    }
  }

  /** A key can only be found under its child. */
  lemma GoesToChild<K(!new), V>(cmp: (K, K) -> int, cs: seq<Tree<K, V>>, k: K, max: nat, h: nat)
    requires TotalOrder(cmp) && |cs| > 0 && Shapes(cs, max, h) && Sorted(cmp, Flat(cs))
    ensures var r := Rank(cmp, MaxKeys(cs, max, h), k);
      Lookup(cmp, Flat(cs), k) == if r < |cs| then Lookup(cmp, Contents(cs[r]), k) else None
  {
    var r := Rank(cmp, MaxKeys(cs, max, h), k);
    if r < |cs| {
      ChildIndexSeparates(cmp, cs, k, max, h);
      FlatAround(cs, r);
      LookupInMiddle(cmp, Flat(cs[..r]), Contents(cs[r]), Flat(cs[r + 1..]), k);
    } else {
      ChildrenBelow(cmp, cs, |cs|, k, max, h);
      assert cs[..|cs|] == cs;
    }
  }

  // ------------------------------------------------------ the tree as a map

  /** BTree.set keeps every clause of checkValid: one depth for all leaves, sizes within bounds, half full
      nodes below the root, and at least two children below an internal root. */
  lemma SetKeepsInvariant<K(!new), V>(cmp: (K, K) -> int, t: Tree<K, V>, k: K, v: V, overwrite: bool, max: nat, h: nat)
    requires 4 <= max && RootShape(t, max, h)
    ensures var r := SetNode(cmp, t, k, v, overwrite, max, h);
      && Shape(RootOf(r), max, if r.Split? then h + 1 else h)
      && (HalfFull(t, max) ==> HalfFull(RootOf(r), max))
      && (t.Size() >= 2 || r.Split? ==> RootOf(r).Size() >= 2)
  {
    var r := SetNode(cmp, t, k, v, overwrite, max, h);
    SetNodeShape(cmp, t, k, v, overwrite, max, h);
    RootOfShape(r, max, h, t.Size());
    if HalfFull(t, max) {
      SetNodeHalfFull(cmp, t, k, v, overwrite, max, h);
      RootOfHalfFull(r, max, h, t.Size());
    }
  }

  lemma RootOfShape<K, V>(r: SetResult<K, V>, max: nat, h: nat, least: nat)
    requires 4 <= max && ResultShape(r, max, h, least)
    ensures Shape(RootOf(r), max, if r.Split? then h + 1 else h)
    ensures least >= 2 || r.Split? ==> RootOf(r).Size() >= 2
  {
    if r.Split? {
      assert Shapes([r.left, r.right], max, h);
    }
  }

  lemma RootOfHalfFull<K, V>(r: SetResult<K, V>, max: nat, h: nat, least: nat)
    requires 4 <= max && ResultShape(r, max, h, least) && ResultHalfFull(r, max)
    ensures HalfFull(RootOf(r), max)
  {
  }

  /** BTree.set updates the map at the key, keeps the keys sorted, and reports whether the key was new. */
  lemma SetUpdatesMap<K(!new), V>(
      cmp: (K, K) -> int, t: Tree<K, V>, k: K, v: V, overwrite: bool, max: nat, h: nat, x: K)
    requires TotalOrder(cmp) && 4 <= max && RootShape(t, max, h) && Sorted(cmp, Contents(t))
    ensures var r := SetNode(cmp, t, k, v, overwrite, max, h); var before := Lookup(cmp, Contents(t), x);
      && Sorted(cmp, Contents(RootOf(r)))
      && Lookup(cmp, Contents(RootOf(r)), x) == (if x == k && (overwrite || before.None?) then Some(v) else before)
      && (x == k ==> Added(r) == before.None?)
      && |Contents(RootOf(r))| == |Contents(t)| + if Added(r) then 1 else 0
  {
    var r := SetNode(cmp, t, k, v, overwrite, max, h);
    SetNodeContents(cmp, t, k, v, overwrite, max, h);
    RootOfContents(r);
    PutSorted(cmp, Contents(t), k, v);
    PutLookup(cmp, Contents(t), k, v, x);
  }

  lemma RootOfContents<K, V>(r: SetResult<K, V>)
    ensures Contents(RootOf(r)) == Flat(Parts(r))
  {
    if r.Done? {
      FlatSingle(r.tree);
    }
  }

  /** The least number of pairs a tree of height h can hold below a root of that many children. */
  ghost function Power(b: nat, e: nat): nat {
    if e == 0 then 1 else b * Power(b, e - 1)
  }

  lemma {:induction false} HalfFullHolds<K, V>(t: Tree<K, V>, max: nat, h: nat)
    requires Shape(t, max, h) && HalfFull(t, max)
    ensures |Contents(t)| >= t.Size() * Power(max / 2, h)
    decreases h, 0
  {
    if t.Inner? {
      HalfFullChildrenHold(t.children, max, h - 1);
    }
  }

  lemma {:induction false} HalfFullChildrenHold<K, V>(cs: seq<Tree<K, V>>, max: nat, h: nat)
    requires Shapes(cs, max, h) && HalfFull(Inner(cs), max)
    ensures |Flat(cs)| >= |cs| * Power(max / 2, h + 1)
    decreases h, |cs| + 1
  {
    if |cs| > 0 {
      HalfFullChildrenHold(cs[1..], max, h);
      HalfFullHolds(cs[0], max, h);
      TimesMonotonic(cs[0].Size(), max / 2, Power(max / 2, h));
      OneMoreTime(|cs| - 1, Power(max / 2, h + 1));
    }
  }

  lemma OneMoreTime(n: nat, p: nat)
    ensures (n + 1) * p == n * p + p
  {
  }

  /** Logarithmic height: a tree of height h >= 1 built by insertions holds at least
      2 * (max / 2)^h pairs. */
  lemma HeightIsLogarithmic<K, V>(t: Tree<K, V>, max: nat, h: nat)
    requires Shape(t, max, h) && HalfFull(t, max) && h >= 1 && t.Size() >= 2
    ensures |Contents(t)| >= 2 * Power(max / 2, h)
  {
    HalfFullHolds(t, max, h);
    TimesMonotonic(t.Size(), 2, Power(max / 2, h));
  }

  lemma TimesMonotonic(a: nat, b: nat, p: nat)
    requires a >= b
    ensures a * p >= b * p
  {
  }
}
