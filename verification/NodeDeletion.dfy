/** Deletion on the nodes that trees share.

    In the middle of a deletion, and for good where a node is stranded, nodes may be empty; so these nodes agree with
    their children in a weaker sense than those of a sound tree do. Two steps are not in the source, and are taken
    only where the parameter marks asks for them: when a node is absorbed or skipped that is shared, the children that
    are taken from it become shared as well. Without them the methods are those of the source, and are proved for trees
    of height one at most. */
module NodeDeletion {
  import opened SortedPairs
  import opened TreeSpec
  import opened TreeNodes
  import opened TreeDelete

  /** The child is one level down, means the subtree, and, if that is sound, its greatest key is the separator. */
  ghost predicate LinkedTo<K(!new), V>(n: Node<K, V>, i: nat, c: Node<K, V>, max: nat)
    requires n.tree.Inner? && i < |n.keys| == |n.tree.children|
    reads n, c
  {
    && c.height == n.height - 1
    && (c.isShared || c.parent == n)
    && c.tree == n.tree.children[i]
    && (Shape(c.tree, max, c.height) ==> n.keys[i] == MaxKey(c.tree, max, c.height))
  }

  /** A node agrees with its children, any of which may be empty. */
  ghost predicate LooseNode<K(!new), V>(n: Node<K, V>, pool: set<Node<K, V>>, max: nat)
    reads n, pool
  {
    if n.isLeaf then
      n.height == 0 && |n.children| == 0 && |n.keys| == |n.values| <= max && n.tree == Leaf(Zip(n.keys, n.values))
    else
      && n.height > 0 && n.values == []
      && n.tree.Inner? && |n.keys| == |n.children| == |n.tree.children| && Loose(n.tree, max, n.height)
      && (forall c <- n.children :: c in pool)
      && (forall i {:trigger LinkedTo(n, i, n.children[i], max)} ::
        0 <= i < |n.children| ==> LinkedTo(n, i, n.children[i], max))
      && (forall i, j :: 0 <= i < j < |n.children| && n.children[i] == n.children[j] ==> n.children[i].isShared)
  }

  /** All nodes up to a height do. */
  ghost predicate LoosePool<K(!new), V>(pool: set<Node<K, V>>, max: nat, h: nat)
    reads pool
  {
    forall n {:trigger LooseNode(n, pool, max)} :: n in pool && n.height <= h ==> LooseNode(n, pool, max)
  }

  lemma LocalIsLoose<K(!new), V>(n: Node<K, V>, pool: set<Node<K, V>>, max: nat)
    requires n.Local(pool, max)
    ensures LooseNode(n, pool, max)
  {
    if !n.isLeaf {
      ShapeIsLoose(n.tree, max, n.height);
      forall i | 0 <= i < |n.children| ensures LinkedTo(n, i, n.children[i], max) {
        assert n.HasChild(i, n.children[i], max);
      }
    }
  }

  /** A node that means a sound tree agrees with its children in the strict sense. */
  lemma LooseIsLocal<K(!new), V>(n: Node<K, V>, pool: set<Node<K, V>>, max: nat)
    requires LooseNode(n, pool, max) && (n.isLeaf || Shape(n.tree, max, n.height))
    ensures n.Local(pool, max)
  {
    if !n.isLeaf {
      forall i | 0 <= i < |n.children| ensures n.HasChild(i, n.children[i], max) {
        assert LinkedTo(n, i, n.children[i], max);
      }
    }
  }

  lemma AboutLink<K(!new), V>(n: Node<K, V>, i: nat, pool: set<Node<K, V>>, max: nat)
    requires LoosePool(pool, max, n.height) && n in pool && !n.isLeaf && i < |n.children|
    ensures LooseNode(n, pool, max) && LinkedTo(n, i, n.children[i], max)
    ensures n.children[i] in pool && LooseNode(n.children[i], pool, max) && n.children[i].WellMade()
  {
    assert LooseNode(n, pool, max);
    assert LinkedTo(n, i, n.children[i], max);
    assert LooseNode(n.children[i], pool, max);
  }

  lemma AboutHeights<K(!new), V>(n: Node<K, V>, pool: set<Node<K, V>>, max: nat)
    requires LooseNode(n, pool, max)
    ensures forall i {:trigger n.children[i]} ::
      0 <= i < |n.children| ==> n.children[i].height == n.height - 1 && n.children[i] in pool
  {
    forall i | 0 <= i < |n.children| ensures n.children[i].height == n.height - 1 {
      assert LinkedTo(n, i, n.children[i], max);
    }
  }

  /** Changes to nodes that are no child of ns, or some other node's alone, do not disturb ns; nodes that are no child
      of ns may go. */
  twostate lemma NotDisturbed<K(!new), V>(
      new ns: set<Node<K, V>>, new touched: set<Node<K, V>>, new pool: set<Node<K, V>>, new pool': set<Node<K, V>>,
      max: nat)
    requires old(allocated(ns) && allocated(touched) && allocated(pool))
    requires ns <= pool && ns <= pool'
    requires forall n <- ns :: old(LooseNode(n, pool, max)) && KeptInside(n)
    requires forall m <- pool :: m !in touched ==> Kept(m) && m in pool'
    requires forall m <- touched, n <- ns :: n.height == m.height + 1 ==> !old(m.isShared) && old(m.parent) != n
    ensures forall n <- ns :: LooseNode(n, pool', max)
  {
    forall n, i | n in ns && 0 <= i < |n.children|
      ensures old(LinkedTo(n, i, n.children[i], max)) && Kept(n.children[i]) && n.children[i] in pool'
      ensures LinkedTo(n, i, n.children[i], max)
    {
      assert old(LinkedTo(n, i, n.children[i], max));
    }
  }

  /** A copy of a loose node, whose children have all become shared. */
  twostate lemma LooseCopied<K(!new), V>(
      new n: Node<K, V>, new c: Node<K, V>, new pool: set<Node<K, V>>, new pool': set<Node<K, V>>, max: nat)
    requires old(allocated(n) && allocated(pool))
    requires old(LooseNode(n, pool, max)) && Kept(n) && pool <= pool'
    requires forall i :: 0 <= i < |n.children| ==> Kept(n.children[i]) && n.children[i].isShared
    requires c.isLeaf == n.isLeaf && c.height == n.height && c.tree == n.tree
    requires c.keys == n.keys && c.values == n.values && c.children == n.children
    ensures LooseNode(c, pool', max)
  {
    forall i | 0 <= i < |c.children| ensures LinkedTo(c, i, c.children[i], max) {
      assert old(LinkedTo(n, i, n.children[i], max));
    }
  }

  /** A node agrees with its children after a new one, meaning the same, has taken the place of one of them. */
  twostate lemma LooseReplaced<K(!new), V>(
      new n: Node<K, V>, new i: nat, new c: Node<K, V>, new pool: set<Node<K, V>>, new pool': set<Node<K, V>>, max: nat)
    requires old(allocated(n) && allocated(pool))
    requires old(LooseNode(n, pool, max)) && pool <= pool' && i < old(|n.children|)
    requires n.keys == old(n.keys) && n.values == old(n.values) && n.tree == old(n.tree)
    requires n.children == old(n.children)[i := c]
    requires forall j :: 0 <= j < old(|n.children|) ==> Kept(old(n.children[j]))
    requires c in pool' && c !in pool && c.height == n.height - 1 && c.parent == n && c.tree == old(n.children[i].tree)
    ensures LooseNode(n, pool', max)
  {
    forall j | 0 <= j < |n.children| ensures LinkedTo(n, j, n.children[j], max) {
      assert old(LinkedTo(n, j, n.children[j], max));
    }
  }

  /** Before a child is written it is made this node's own. */
  method OwnLoose<K(!new), V>(n: Node<K, V>, i: nat, ghost pool: set<Node<K, V>>, ghost max: nat)
      returns (child: Node<K, V>, ghost pool': set<Node<K, V>>)
    requires n in pool && LoosePool(pool, max, n.height) && !n.isLeaf && i < |n.children|
    modifies n`children, pool`isShared
    ensures n.children == old(n.children)[i := child]
    ensures !child.isShared && child.parent == n && child.height == n.height - 1
    ensures child == old(n.children[i]) || fresh(child)
    ensures child.tree == old(n.children[i].tree) && |child.keys| == old(|n.children[i].keys|)
    ensures pool' == pool + {child}
    ensures SharedKept(pool, n.height - 1)
    ensures LoosePool(pool', max, n.height)
  {
    hide Loose, Shape, MaxKey;
    child := n.children[i];
    pool' := pool;
    AboutLink(n, i, pool, max);
    AboutHeights(n, pool, max);
    AboutHeights(child, pool, max);
    if child.isShared {
      child := child.Clone();
      child.parent := n;
      n.children := n.children[i := child];
      pool' := pool + {child};
      NotDisturbed(UpTo(pool, n.height, {n}), {n}, pool, pool', max);
      LooseReplaced(n, i, child, pool, pool', max);
      LooseCopied(old(n.children[i]), child, pool, pool', max);
    }
  }

  // -------------------------------------------------------------------- leaves

  /** Takes the pairs from one index up to another out of a leaf, one by one. */
  method DropEntries<K(!new), V>(n: Node<K, V>, iLow: nat, iHigh: nat, t: BTree<K, V>, ghost pool: set<Node<K, V>>)
      returns (count: nat)
    requires n.isLeaf && LooseNode(n, pool, t.maxNodeSize) && iLow <= |n.keys| && iHigh <= |n.keys| <= t.size
    modifies n`keys, n`values, n`tree, t`size
    ensures LooseNode(n, pool, t.maxNodeSize)
    ensures n.tree == Leaf(if iLow <= iHigh then Splice(old(n.tree).entries, iLow, iHigh, []) else old(n.tree).entries)
    ensures count == (if iLow <= iHigh then iHigh - iLow else 0) && t.size == old(t.size) - count
  {
    hide LooseNode, Splice;
    LeafIsLocal(n, pool, t.maxNodeSize);
    ghost var ks, vs := n.keys, n.values;
    count := 0;
    var i, end: nat := iLow, iHigh;
    NothingToDrop(ks, iLow);
    NothingToDrop(vs, iLow);
    while i < end
      invariant i == iLow && end == iHigh - count && iLow + count <= |ks| == |vs|
      invariant (count == 0 || iLow + count <= iHigh)
      invariant t.size == old(t.size) - count
      invariant n.keys == Splice(ks, iLow, iLow + count, []) && n.values == Splice(vs, iLow, iLow + count, [])
    {
      DropOne(ks, iLow, count);
      DropOne(vs, iLow, count);
      n.keys := n.keys[..i] + n.keys[i + 1..];
      n.values := n.values[..i] + n.values[i + 1..];
      t.size := t.size - 1;
      end := end - 1;
      count := count + 1;
    }
    n.tree := Leaf(Zip(n.keys, n.values));
    LeafAfterDrop(n, ks, vs, iLow, count, pool, t.maxNodeSize);
    if iLow <= iHigh {
      assert iLow + count == iHigh;
    } else {
      NothingToDrop(Zip(ks, vs), iLow);
    }
  }

  lemma LeafIsLocal<K(!new), V>(n: Node<K, V>, pool: set<Node<K, V>>, max: nat)
    requires n.isLeaf
    ensures LooseNode(n, pool, max) <==> n.Local(pool, max)
  {
  }

  lemma LeafAfterDrop<K(!new), V>(
      n: Node<K, V>, ks: seq<K>, vs: seq<V>, from: nat, count: nat, pool: set<Node<K, V>>, max: nat)
    requires n.isLeaf && n.height == 0 && |n.children| == 0 && from + count <= |ks| == |vs| <= max
    requires n.keys == Splice(ks, from, from + count, []) && n.values == Splice(vs, from, from + count, [])
    requires n.tree == Leaf(Zip(n.keys, n.values))
    ensures LooseNode(n, pool, max) && n.tree == Leaf(Splice(Zip(ks, vs), from, from + count, []))
  {
    assert Zip(n.keys, n.values) == Splice(Zip(ks, vs), from, from + count, []);
  }

  lemma DropOne<T>(s: seq<T>, from: nat, count: nat)
    requires from + count < |s|
    ensures |Splice(s, from, from + count, [])| > from
    ensures Splice(s, from, from + count, [])[..from] + Splice(s, from, from + count, [])[from + 1..]
      == Splice(s, from, from + count + 1, [])
  {
  }

  /** Deletion in a leaf. The source asks whether both ends of the range are the same object. */
  method EditLeafNode<K(!new), V>(
      n: Node<K, V>, low: K, high: K, same: bool, includeHigh: bool, t: BTree<K, V>, ghost pool: set<Node<K, V>>)
    returns (count: nat)
    requires n.isLeaf && LooseNode(n, pool, t.maxNodeSize) && (same ==> low == high)
    requires TotalOrder(t.compare) && Sorted(t.compare, Contents(n.tree)) && t.size >= |Contents(n.tree)|
    modifies n`keys, n`values, n`tree, t`size
    ensures LooseNode(n, pool, t.maxNodeSize)
    ensures n.tree == Leaf(EditLeaf(t.compare, old(n.tree).entries, low, high, includeHigh))
    ensures count == old(|Contents(n.tree)|) - |Contents(n.tree)| && t.size == old(t.size) - count
  {
    hide TotalOrder, Sorted, Place, LooseNode, Splice;
    LeafIsLocal(n, pool, t.maxNodeSize);
    count := 0;
    var iLow: int, iHigh: int;
    ghost var es := n.tree.entries;
    if same {
      if !includeHigh {
        NothingToDrop(es, Place(t.compare, es, low));
        return;
      }
      iLow := n.PlaceInLeaf(low, t.compare, pool, t.maxNodeSize);
      iHigh := iLow + 1;
      if iLow < 0 {
        NothingToDrop(es, Place(t.compare, es, low));
        return;
      }
    } else {
      iLow := n.SearchLeaf(low, t.compare, pool, t.maxNodeSize);
      iHigh := n.PlaceInLeaf(high, t.compare, pool, t.maxNodeSize);
      if iHigh < 0 {
        iHigh := -iHigh - 1;
      } else if includeHigh {
        iHigh := iHigh + 1;
      }
    }
    count := DropEntries(n, iLow, iHigh, t, pool);
  }

  lemma NothingToDrop<T>(s: seq<T>, i: nat)
    requires i <= |s|
    ensures Splice(s, i, i, []) == s
  {
  }

  // -------------------------------------------------------------------- frames

  /** What an edit under a node does to the pool of nodes: some nodes further down that are some node's own are let go
      of, new ones are made down there, and marks are set down there. */
  twostate predicate EditedUnder<K(!new), V>(n: Node<K, V>, pool: set<Node<K, V>>, new pool': set<Node<K, V>>)
    reads pool, pool'
  {
    && n in pool && n in pool' && SharedKept(pool, n.height)
    && (forall m <- pool' :: m in pool || m.height < n.height)
    && pool - pool' <= old(Below(pool, n.height)) &&
      Below(pool', n.height) <= old(Below(pool, n.height)) + (pool' - pool)
  }

  /** The same when a right sibling has been absorbed: it is let go of, too, unless it is shared. */
  twostate predicate MergedUnder<K(!new), V>(
      l: Node<K, V>, r: Node<K, V>, pool: set<Node<K, V>>, new pool': set<Node<K, V>>)
    reads pool, pool'
  {
    && l in pool && l in pool' && SharedKept(pool, l.height)
    && (forall m <- pool' :: m in pool || m.height < l.height)
    && pool - pool' <= old(Below(pool, l.height)) + (if old(r.isShared) then {} else {r})
    && Below(pool', l.height) <= old(Below(pool, l.height)) + (pool' - pool)
  }

  /** The greatest key at or below a node; an empty node has none, and the source then writes undefined. */
  function MaxKeyOr<K(!new), V>(n: Node<K, V>, k: K): K
    reads n
  {
    if |n.keys| > 0 then n.keys[|n.keys| - 1] else k
  }

  lemma MaxKeyRight<K(!new), V>(n: Node<K, V>, k: K, pool: set<Node<K, V>>, max: nat)
    requires LooseNode(n, pool, max)
    ensures Shape(n.tree, max, n.height) ==> MaxKeyOr(n, k) == MaxKey(n.tree, max, n.height)
    ensures |n.keys| == n.tree.Size() && Loose(n.tree, max, n.height)
  {
    if !n.isLeaf && |n.children| > 0 {
      assert LinkedTo(n, |n.children| - 1, n.children[|n.children| - 1], max);
    }
  }

  // ------------------------------------------------------------------- merging

  ghost function Joined<K, V>(l: Tree<K, V>, r: Tree<K, V>): Tree<K, V>
    requires l.Leaf? == r.Leaf?
  {
    match l
    case Leaf(es) => Leaf(es + r.entries)
    case Inner(cs) => Inner(cs + r.children)
  }

  /** The children of r are children of l now. */
  twostate lemma LooseAbsorbed<K(!new), V>(
      l: Node<K, V>, new r: Node<K, V>, new pool: set<Node<K, V>>, new pool': set<Node<K, V>>, new max: nat)
    requires old(allocated(r) && allocated(pool))
    requires !l.isLeaf && !r.isLeaf && l.height == r.height && l != r && |l.keys| <= max
    requires old(LooseNode(l, pool, max)) && old(LooseNode(r, pool, max))
    requires pool' == (if r.isShared then pool else pool - {r})
    requires l.children == old(l.children) + r.children && l.keys == old(l.keys) + r.keys && l.values == old(l.values)
    requires r.children == old(r.children) && r.keys == old(r.keys) && r.tree == old(r.tree)
    requires l.tree == Inner(old(l.tree).children + old(r.tree).children)
    requires forall c <- l.children :: KeptInside(c) && (old(c.isShared) ==> c.isShared)
    requires forall c <- r.children :: c.isShared || c.parent == l
    requires forall c <- old(l.children) :: c.isShared || c.parent == l
    ensures LooseNode(l, pool', max)
  {
    forall i | 0 <= i < |l.children| ensures LinkedTo(l, i, l.children[i], max) && l.children[i] in pool' {
      if i < old(|l.children|) {
        assert old(LinkedTo(l, i, l.children[i], max));
      } else {
        assert old(LinkedTo(r, i - |l.children|, r.children[i - |l.children|], max));
      }
    }
    forall i, j | 0 <= i < j < |l.children| && l.children[i] == l.children[j] ensures l.children[i].isShared {
      var n := old(|l.children|);
      if i < n <= j {
        assert old(LinkedTo(l, i, l.children[i], max));
        assert old(LinkedTo(r, j - |l.children|, r.children[j - |l.children|], max));
      }
    }
  }

  /** The first part of mergeSibling: everything in r goes to the end of l. */
  method Absorb<K(!new), V>(l: Node<K, V>, r: Node<K, V>, ghost pool: set<Node<K, V>>, ghost max: nat, marks: bool)
      returns (ghost pool': set<Node<K, V>>)
    requires l in pool && r in pool && l != r && l.height == r.height && LoosePool(pool, max, l.height)
    requires !l.isShared && |l.keys| + |r.keys| <= max
    requires marks || !r.isShared || forall c <- r.children :: c.isShared
    modifies l`keys, l`values, l`children, l`tree, (set c | c in r.children)`isShared,
      (set c | c in r.children && !c.isShared)`parent
    ensures pool' == if r.isShared then pool else pool - {r}
    ensures l.tree.Leaf? == old(l.tree).Leaf? == r.tree.Leaf? && l.tree == Joined(old(l.tree), r.tree)
    ensures forall c <- r.children :: c.isShared == (old(c.isShared) || r.isShared)
    ensures LoosePool(pool', max, l.height)
  {
    hide Loose, Shape, MaxKey;
    pool' := if r.isShared then pool else pool - {r};
    AboutPair(l, r, pool, max);
    l.keys := l.keys + r.keys;
    if l.isLeaf {
      l.values := l.values + r.values;
    } else {
      l.children := l.children + r.children;
      if !r.isShared {
        Adopt(l, r);
      } else if marks {
        // Not in the source, which leaves the children of a shared node unmarked in a second node.
        ShareChildren(r);
      }
    }
    l.tree := Joined(l.tree, r.tree);
    AbsorbedPool(l, r, pool, pool', max);
  }

  lemma AboutPair<K(!new), V>(l: Node<K, V>, r: Node<K, V>, pool: set<Node<K, V>>, max: nat)
    requires l in pool && r in pool && l.height == r.height && LoosePool(pool, max, l.height)
    ensures LooseNode(l, pool, max) && LooseNode(r, pool, max) && l.isLeaf == r.isLeaf
    ensures l.tree.Leaf? == r.tree.Leaf? == l.isLeaf && (l.height == 0 ==> l.isLeaf) && (r.isLeaf ==> r.children == [])
    ensures forall c <- l.children :: c in pool && c.height == l.height - 1 && (c.isShared || c.parent == l)
    ensures forall c <- r.children :: c.height == l.height - 1 && (c.isShared || c.parent == r)
  {
    assert LooseNode(l, pool, max) && LooseNode(r, pool, max);
    forall i | 0 <= i < |l.children|
      ensures l.children[i].height == l.height - 1 && (l.children[i].isShared || l.children[i].parent == l)
    {
      assert LinkedTo(l, i, l.children[i], max);
    }
    forall i | 0 <= i < |r.children|
      ensures r.children[i].height == l.height - 1 && (r.children[i].isShared || r.children[i].parent == r)
    {
      assert LinkedTo(r, i, r.children[i], max);
    }
  }

  method ShareChildren<K(!new), V>(r: Node<K, V>)
    modifies (set c | c in r.children)`isShared
    ensures forall c <- r.children :: c.isShared
  {
    for i := 0 to |r.children|
      invariant forall j :: 0 <= j < i ==> r.children[j].isShared
    {
      r.children[i].isShared := true;
    }
  }

  ghost method Adopt<K(!new), V>(l: Node<K, V>, r: Node<K, V>)
    modifies (set c | c in r.children && !c.isShared)`parent
    ensures forall c <- r.children :: !c.isShared ==> c.parent == l
  {
    forall c | c in r.children && !c.isShared {
      c.parent := l;
    }
  }

  twostate lemma AbsorbedPool<K(!new), V>(
      l: Node<K, V>, new r: Node<K, V>, new pool: set<Node<K, V>>, new pool': set<Node<K, V>>, new max: nat)
    requires old(allocated(r) && allocated(pool))
    requires l in pool && r in pool && l != r && l.height == r.height && old(LoosePool(pool, max, l.height))
    requires pool' == (if r.isShared then pool else pool - {r}) && |l.keys| <= max
    requires l.isLeaf == r.isLeaf && old(l.tree).Leaf? == r.tree.Leaf? == l.isLeaf
    requires l.keys == old(l.keys) + r.keys && l.tree == Joined(old(l.tree), r.tree)
    requires l.values == old(l.values) + (if l.isLeaf then r.values else [])
    requires l.children == old(l.children) + r.children
    requires Kept(r) && r.isShared == old(r.isShared) && !old(l.isShared)
    requires forall c <- old(l.children) :: c in pool && c.height == l.height - 1 && old(c.isShared || c.parent == l)
    requires forall c <- r.children :: c.height == l.height - 1 && old(c.isShared || c.parent == r)
    requires forall c <- r.children ::
      c.isShared == (old(c.isShared) || r.isShared) && (c.isShared || c.parent == l) && KeptInside(c)
    requires forall m <- pool :: m != l && (m in r.children ==> old(m.isShared)) ==> Kept(m)
    ensures LoosePool(pool', max, l.height)
  {
    hide Loose, Shape, MaxKey, LinkedTo, LooseNode;
    assert old(LooseNode(l, pool, max)) && old(LooseNode(r, pool, max));
    AbsorbedNode(l, r, pool, pool', max);
    if r.isShared {
      SharedParts(r, pool, pool', max);
    }
    var moved := set c | c in r.children && !old(c.isShared);
    NotDisturbed(UpTo(pool', l.height, {l, r}), {l, r} + moved, pool, pool', max);
  }

  twostate lemma AbsorbedNode<K(!new), V>(
      l: Node<K, V>, new r: Node<K, V>, new pool: set<Node<K, V>>, new pool': set<Node<K, V>>, new max: nat)
    requires old(allocated(r) && allocated(pool))
    requires l in pool && r in pool && l != r && l.height == r.height && old(LooseNode(l, pool, max))
    requires old(LooseNode(r, pool, max))
    requires pool' == (if r.isShared then pool else pool - {r}) && |l.keys| <= max
    requires l.isLeaf == r.isLeaf && old(l.tree).Leaf? == r.tree.Leaf? == l.isLeaf
    requires l.keys == old(l.keys) + r.keys && l.tree == Joined(old(l.tree), r.tree)
    requires l.values == old(l.values) + (if l.isLeaf then r.values else [])
    requires l.children == old(l.children) + r.children
    requires KeptInside(r)
    requires forall c <- old(l.children) ::
      KeptInside(c) && (old(c.isShared) ==> c.isShared) && (c.isShared || c.parent == l)
    requires forall c <- r.children ::
      (old(c.isShared) ==> c.isShared) && (c.isShared || c.parent == l) && KeptInside(c)
    ensures LooseNode(l, pool', max)
  {
    if l.isLeaf {
      assert Zip(l.keys, l.values) == old(Zip(l.keys, l.values)) + Zip(r.keys, r.values);
    } else {
      LooseAbsorbed(l, r, pool, pool', max);
    }
  }

  /** A shared node whose children have become shared. */
  twostate lemma SharedParts<K(!new), V>(
      r: Node<K, V>, new pool: set<Node<K, V>>, new pool': set<Node<K, V>>, new max: nat)
    requires old(allocated(pool)) && old(LooseNode(r, pool, max)) && pool == pool' && KeptInside(r)
    requires forall c <- r.children :: c.isShared && KeptInside(c)
    ensures LooseNode(r, pool', max)
  {
    forall i | 0 <= i < |r.children| ensures LinkedTo(r, i, r.children[i], max) {
      assert old(LinkedTo(r, i, r.children[i], max));
    }
  }

  // ------------------------------------------------- absorbing, as it is written

  /** A node that refers to a child has it to itself, or shares it; `owner` says whom a node belongs to. */
  ghost predicate Owns<K(!new), V>(n: Node<K, V>, owner: map<Node<K, V>, object>)
    reads n, n.children
  {
    forall c <- n.children :: c.isShared || (c in owner && owner[c] == n)
  }

  /** The same as LinkedTo, whosever the child is. */
  ghost predicate LinkedIn<K(!new), V>(n: Node<K, V>, i: nat, c: Node<K, V>, max: nat)
    requires n.tree.Inner? && i < |n.keys| == |n.tree.children|
    reads n, c
  {
    && c.height == n.height - 1
    && c.tree == n.tree.children[i]
    && (Shape(c.tree, max, c.height) ==> n.keys[i] == MaxKey(c.tree, max, c.height))
  }

  /** A node agrees with its children, whosever they are. */
  ghost predicate LooseIn<K(!new), V>(n: Node<K, V>, pool: set<Node<K, V>>, max: nat)
    reads n, pool
  {
    if n.isLeaf then LooseNode(n, pool, max)
    else
      && n.height > 0 && n.values == []
      && n.tree.Inner? && |n.keys| == |n.children| == |n.tree.children| && Loose(n.tree, max, n.height)
      && (forall c <- n.children :: c in pool)
      && (forall i {:trigger n.children[i]} :: 0 <= i < |n.children| ==> LinkedIn(n, i, n.children[i], max))
      && (forall i, j :: 0 <= i < j < |n.children| && n.children[i] == n.children[j] ==> n.children[i].isShared)
  }

  /** Under some reckoning of whom the nodes belong to, every node up to a height agrees with its children, and no node
      that is not shared belongs to two. */
  ghost predicate LooseUnder<K(!new), V>(pool: set<Node<K, V>>, owner: map<Node<K, V>, object>, max: nat, h: nat)
    reads pool, set n <- pool, c <- n.children :: c
  {
    forall n <- pool :: n.height <= h ==> LooseIn(n, pool, max) && Owns(n, owner)
  }

  /** Their parents, or the trees that hold them as roots. */
  ghost function Owners<K(!new), V>(pool: set<Node<K, V>>): map<Node<K, V>, object>
    reads pool
  {
    map n | n in pool && (n.parent != null || n.holder != null) :: if n.parent != null then n.parent else n.holder
  }

  lemma OwnersOf<K(!new), V>(n: Node<K, V>, pool: set<Node<K, V>>, max: nat)
    requires LooseNode(n, pool, max)
    ensures LooseIn(n, pool, max) && Owns(n, Owners(pool))
  {
    hide Loose;
    forall i | 0 <= i < |n.children| ensures LinkedTo(n, i, n.children[i], max) {
    }
  }

  /** No node that is not shared can belong to two. */
  lemma TwoOwners<K(!new), V>(l: Node<K, V>, r: Node<K, V>, c: Node<K, V>, pool: set<Node<K, V>>, max: nat, h: nat)
    requires l in pool && r in pool && l != r && l.height <= h && r.height <= h && c in l.children && c in r.children
    requires !c.isShared
    ensures !exists owner :: LooseUnder(pool, owner, max, h)
  {
    forall owner: map<Node<K, V>, object>
      ensures LooseUnder(pool, owner, max, h) ==> c in owner && owner[c] == l && owner[c] == r
    {
    }
  }

  /** The first part of mergeSibling as the source has it, without marking the children. It leaves the nodes such that
      each belongs to one node at most if and only if the node that is absorbed is not shared, or all of its children
      are. */
  method AbsorbAsWritten<K(!new), V>(l: Node<K, V>, r: Node<K, V>, ghost pool: set<Node<K, V>>, ghost max: nat)
    requires l in pool && r in pool && l != r && l.height == r.height && LoosePool(pool, max, l.height)
    requires !l.isShared && |l.keys| + |r.keys| <= max
    modifies l`keys, l`values, l`children, l`tree, (set c | c in r.children && !c.isShared)`parent
    ensures old(l.tree).Leaf? == r.tree.Leaf? && l.children == old(l.children) + r.children
    ensures l.tree == Joined(old(l.tree), r.tree)
    ensures var pool' := if r.isShared then pool else pool - {r};
      (exists owner :: LooseUnder(pool', owner, max, l.height)) <==> !r.isShared || forall c <- r.children :: c.isShared
  {
    hide Loose, Shape, MaxKey, LooseNode, LooseIn, Owns;
    AboutPair(l, r, pool, max);
    ghost var pool' := if r.isShared then pool else pool - {r};
    l.keys := l.keys + r.keys;
    if l.isLeaf {
      l.values := l.values + r.values;
    } else {
      l.children := l.children + r.children;
      if !r.isShared {
        Adopt(l, r);
      }
    }
    l.tree := Joined(l.tree, r.tree);
    if !r.isShared || forall c <- r.children :: c.isShared {
      AbsorbedPool(l, r, pool, pool', max);
      forall n | n in pool' && n.height <= l.height ensures LooseIn(n, pool', max) && Owns(n, Owners(pool')) {
        OwnersOf(n, pool', max);
      }
    } else {
      ghost var c :| c in r.children && !c.isShared;
      TwoOwners(l, r, c, pool', max, l.height);
    }
  }

  /** mergeSibling. */
  method MergeSibling<K(!new), V>(l: Node<K, V>, r: Node<K, V>, ghost pool: set<Node<K, V>>, max: nat, marks: bool)
      returns (ghost pool': set<Node<K, V>>)
    requires l in pool && r in pool && l != r && l.height == r.height && LoosePool(pool, max, l.height)
    requires !l.isShared && |l.keys| + |r.keys| <= max && (!r.isShared ==> r.parent != null)
    requires Loose(l.tree, max, l.height) && Loose(r.tree, max, l.height) && l.tree.Size() + r.tree.Size() <= max
    requires marks || l.height == 0
    modifies l`keys, l`values, l`children, l`tree, Below(pool, l.height), pool`isShared
    ensures l.tree == Join(old(l.tree), old(r.tree), max, l.height)
    ensures MergedUnder(l, r, pool, pool') && fresh(pool' - pool) && LoosePool(pool', max, l.height)
    decreases l.height, 1
  {
    hide LooseNode, Loose;
    AboutPair(l, r, pool, max);
    var oldLength := |l.keys|;
    pool' := Absorb(l, r, pool, max, marks);
    if !l.isLeaf {
      AboutParts(l, pool', max);
      var merged;
      merged, pool' := TryMergeAt(l, oldLength - 1, pool', max, marks);
    }
  }

  /** tryMerge: merges child i with the next one when the two fit in one node. */
  method TryMergeAt<K(!new), V>(n: Node<K, V>, i: int, ghost pool: set<Node<K, V>>, max: nat, marks: bool)
      returns (merged: bool, ghost pool': set<Node<K, V>>)
    requires n in pool && LoosePool(pool, max, n.height) && !n.isLeaf && !n.isShared
    requires n.height > 0 && n.tree.Inner? && AllLoose(n.tree.children, max, n.height - 1)
    requires marks || n.height <= 1
    modifies n`keys, n`children, n`tree, Below(pool, n.height), pool`isShared
    ensures n.tree == Inner(TryMerge(old(n.tree).children, i, max, n.height - 1))
    ensures EditedUnder(n, pool, pool') && fresh(pool' - pool) && LoosePool(pool', max, n.height)
    decreases n.height, 0
  {
    hide LooseNode, Loose;
    merged, pool' := false, pool;
    AboutParts(n, pool, max);
    if 0 <= i && i + 1 < |n.children| {
      AboutLink(n, i, pool, max);
      ChildSize(n, i, pool, max);
      ChildSize(n, i + 1, pool, max);
      if |n.children[i].keys| + |n.children[i + 1].keys| <= max {
        var child;
        MergedIsLoose(n.tree.children, i, max, n.height);
        child, pool' := OwnLoose(n, i, pool, max);
        assert Below(pool', n.height) <= old(Below(pool, n.height)) + (pool' - pool);
        pool' := MergeChildren(n, i, pool', max, marks);
        merged := true;
      }
    }
  }

  lemma AboutParts<K(!new), V>(n: Node<K, V>, pool: set<Node<K, V>>, max: nat)
    requires n in pool && LoosePool(pool, max, n.height)
    ensures !n.isLeaf ==> n.height > 0 && n.tree.Inner? && AllLoose(n.tree.children, max, n.height - 1)
    ensures !n.isLeaf ==> |n.keys| == |n.children| == |n.tree.children|
    ensures Loose(n.tree, max, n.height) && n.tree.Leaf? == n.isLeaf && |n.keys| == n.tree.Size()
  {
    assert LooseNode(n, pool, max);
  }

  lemma ChildSize<K(!new), V>(n: Node<K, V>, i: nat, pool: set<Node<K, V>>, max: nat)
    requires n in pool && LoosePool(pool, max, n.height) && !n.isLeaf && i < |n.children|
    ensures n.tree.Inner? && |n.tree.children| == |n.children| && |n.children[i].keys| == n.tree.children[i].Size()
  {
    hide LooseNode;
    AboutParts(n, pool, max);
    AboutLink(n, i, pool, max);
    AboutParts(n.children[i], pool, max);
  }

  /** All nodes up to the height of n agree with their children, but n has not yet taken notice of a change of its own
      child i, nor that the one after that has gone. */
  ghost predicate LooseButFor<K(!new), V>(n: Node<K, V>, i: nat, gone: bool, pool: set<Node<K, V>>, max: nat)
    reads pool, n
  {
    && n in pool && !n.isLeaf && n.height > 0 && n.values == [] && n.tree.Inner? && Loose(n.tree, max, n.height)
    && |n.keys| == |n.children| == |n.tree.children| && i < |n.children|
    && (forall j {:trigger LinkedTo(n, j, n.children[j], max)} ::
      0 <= j < |n.children| && j != i && !(gone && j == i + 1) ==>
      n.children[j] in pool && LinkedTo(n, j, n.children[j], max))
    && (forall j, k ::
      0 <= j < k < |n.children| && n.children[j] in pool && n.children[j] == n.children[k] ==> n.children[j].isShared)
    && n.children[i] in pool && n.children[i].height == n.height - 1 && !n.children[i].isShared &&
      n.children[i].parent == n
    && (forall m {:trigger LooseNode(m, pool, max)} ::
      m in pool && m.height <= n.height && m != n ==> LooseNode(m, pool, max))
  }

  /** An edit of its own child i leaves n as the only node that has something to take notice of. */
  twostate lemma ChildChanged<K(!new), V>(
      n: Node<K, V>, new i: nat, new gone: bool, new pool: set<Node<K, V>>, new pool': set<Node<K, V>>, new max: nat)
    requires old(allocated(pool)) && n in pool && n in pool' && old(LoosePool(pool, max, n.height)) && !n.isLeaf
    requires n.height > 0 && i < |n.children|
    requires KeptInside(n) && n.children[i] in pool && n.children[i] in pool' && (gone ==> i + 1 < |n.children|)
    requires old(!n.children[i].isShared && n.children[i].parent == n) && !n.children[i].isShared
    requires n.children[i].parent == n
    requires n.children[i].height == n.height - 1 && LoosePool(pool', max, n.height - 1)
    requires forall m <- pool' :: m in pool || m.height < n.height
    requires forall m <- pool :: m != n.children[i] && m !in old(Below(pool, n.height - 1)) ==> (
      Kept(m) && (m in pool' || (gone && m == n.children[i + 1] && !old(m.isShared))))
    ensures LooseButFor(n, i, gone, pool', max)
  {
    hide Loose;
    assert old(LooseNode(n, pool, max));
    OldLinks(n, pool, max);
    var l, r := n.children[i], if gone then n.children[i + 1] else n.children[i];
    OthersStay(n, l, r, pool, pool', max);
    forall j | 0 <= j < |n.children| && j != i && !(gone && j == i + 1)
      ensures LinkedTo(n, j, n.children[j], max) && n.children[j] in pool'
    {
      assert old(LinkedTo(n, j, n.children[j], max)) && n.children[j] != l;
      assert Kept(n.children[j]);
    }
  }

  twostate lemma OldLinks<K(!new), V>(n: Node<K, V>, new pool: set<Node<K, V>>, new max: nat)
    requires old(allocated(pool)) && old(LooseNode(n, pool, max)) && !n.isLeaf && KeptInside(n)
    ensures forall j {:trigger n.children[j]} ::
      0 <= j < |n.children| ==> old(LinkedTo(n, j, n.children[j], max)) && n.children[j] in pool
  {
  }

  /** Child i, which is this node's own, absorbs the next one. */
  method MergeChildren<K(!new), V>(n: Node<K, V>, i: nat, ghost pool: set<Node<K, V>>, max: nat, marks: bool)
      returns (ghost pool': set<Node<K, V>>)
    requires n in pool && LoosePool(pool, max, n.height) && !n.isLeaf && !n.isShared && i + 1 < |n.children|
    requires !n.children[i].isShared && |n.children[i].keys| + |n.children[i + 1].keys| <= max
    requires n.height > 0 && n.tree.Inner? && i + 1 < |n.tree.children| && AllLoose(n.tree.children, max, n.height - 1)
    requires n.tree.children[i].Size() + n.tree.children[i + 1].Size() <= max
    requires marks || n.height <= 1
    modifies n`keys, n`children, n`tree, Below(pool, n.height), pool`isShared
    ensures n.tree == Inner(Splice(old(n.tree).children, i, i + 2,
      [Join(old(n.tree).children[i], old(n.tree).children[i + 1], max, n.height - 1)]))
    ensures EditedUnder(n, pool, pool') && fresh(pool' - pool) && LoosePool(pool', max, n.height)
    decreases n.height, 0, 1
  {
    hide LooseNode, Loose, LoosePool, LooseButFor;
    AboutParts(n, pool, max);
    MergedIsLoose(n.tree.children, i, max, n.height);
    pool' := AbsorbNext(n, i, pool, max, marks);
    DropNext(n, i, pool', max);
  }

  /** The part of tryMerge that works on the child. */
  method AbsorbNext<K(!new), V>(n: Node<K, V>, i: nat, ghost pool: set<Node<K, V>>, max: nat, marks: bool)
      returns (ghost pool': set<Node<K, V>>)
    requires n in pool && LoosePool(pool, max, n.height) && !n.isLeaf && i + 1 < |n.children|
    requires !n.children[i].isShared && |n.children[i].keys| + |n.children[i + 1].keys| <= max
    requires n.height > 0 && n.tree.Inner? && i + 1 < |n.tree.children| && AllLoose(n.tree.children, max, n.height - 1)
    requires n.tree.children[i].Size() + n.tree.children[i + 1].Size() <= max
    requires marks || n.height <= 1
    modifies Below(pool, n.height), pool`isShared
    ensures n.children[i].tree == Join(n.tree.children[i], n.tree.children[i + 1], max, n.height - 1)
    ensures EditedUnder(n, pool, pool') && fresh(pool' - pool) && LooseButFor(n, i, true, pool', max)
    decreases n.height, 0, 0
  {
    hide LooseNode, Loose, LoosePool, LooseButFor, Join;
    AboutLink(n, i, pool, max);
    AboutLink(n, i + 1, pool, max);
    OwnIsUnique(n, i, pool, max);
    LowerPool(pool, max, n.height);
    var l, r := n.children[i], n.children[i + 1];
    pool' := MergeSibling(l, r, pool, max, marks);
    forall m | m in pool && m != l && m !in old(Below(pool, l.height))
      ensures Kept(m) && (m in pool' || (m == r && !old(r.isShared)))
    {
      assert KeptInside(m) && m.parent == old(m.parent) && m.holder == old(m.holder);
    }
    ChildChanged(n, i, true, pool, pool', max);
  }

  /** And the part that takes notice of it. */
  method DropNext<K(!new), V>(n: Node<K, V>, i: nat, ghost pool: set<Node<K, V>>, max: nat)
    requires LooseButFor(n, i, true, pool, max) && i + 1 < |n.children|
    requires |n.children| == |n.tree.children|
    requires Loose(Inner(Splice(n.tree.children, i, i + 2, [n.children[i].tree])), max, n.height)
    modifies n`keys, n`children, n`tree
    ensures n.tree == Inner(Splice(old(n.tree).children, i, i + 2, [old(n.children[i].tree)]))
    ensures LoosePool(pool, max, n.height)
  {
    hide LooseNode, Loose, LoosePool;
    var l := n.children[i];
    MaxKeyOfChild(n, i, true, pool, max);
    n.children := n.children[..i + 1] + n.children[i + 2..];
    n.keys := n.keys[..i + 1] + n.keys[i + 2..];
    n.keys := n.keys[i := MaxKeyOr(l, n.keys[i])];
    n.tree := Inner(Splice(n.tree.children, i, i + 2, [l.tree]));
    LooseShrunk(n, i, pool, max);
    NoticeTaken(n, i, true, pool, max);
  }

  lemma MaxKeyOfChild<K(!new), V>(n: Node<K, V>, i: nat, gone: bool, pool: set<Node<K, V>>, max: nat)
    requires LooseButFor(n, i, gone, pool, max)
    ensures var l := n.children[i]; Shape(l.tree, max, l.height) ==> forall k ::
      MaxKeyOr(l, k) == MaxKey(l.tree, max, l.height)
    ensures Loose(n.children[i].tree, max, n.height - 1)
  {
    var l := n.children[i];
    assert LooseNode(l, pool, max);
    forall k | Shape(l.tree, max, l.height) ensures MaxKeyOr(l, k) == MaxKey(l.tree, max, l.height) {
      MaxKeyRight(l, k, pool, max);
    }
    if |l.keys| > 0 {
      MaxKeyRight(l, l.keys[0], pool, max);
    }
  }

  twostate lemma NoticeTaken<K(!new), V>(
      n: Node<K, V>, new i: nat, new gone: bool, new pool: set<Node<K, V>>, new max: nat)
    requires old(allocated(pool)) && old(LooseButFor(n, i, gone, pool, max)) && LooseNode(n, pool, max)
    requires forall m <- pool :: m != n ==> Kept(m)
    ensures LoosePool(pool, max, n.height)
  {
    hide LooseNode, Loose;
    assert forall m <- pool :: m.height <= n.height && m != n ==> old(LooseNode(m, pool, max));
    NotDisturbed(UpTo(pool, n.height, {n}), {n}, pool, pool, max);
  }

  lemma LowerPool<K(!new), V>(pool: set<Node<K, V>>, max: nat, h: nat)
    requires h > 0 && LoosePool(pool, max, h)
    ensures LoosePool(pool, max, h - 1)
  {
  }

  lemma AboutSelf<K(!new), V>(n: Node<K, V>, pool: set<Node<K, V>>, max: nat)
    requires n in pool && LoosePool(pool, max, n.height)
    ensures LooseNode(n, pool, max)
  {
  }

  lemma MergedIsLoose<K, V>(cs: seq<Tree<K, V>>, i: nat, max: nat, h: nat)
    requires h > 0 && i + 1 < |cs| <= max && AllLoose(cs, max, h - 1) && cs[i].Size() + cs[i + 1].Size() <= max
    ensures Loose(Inner(Splice(cs, i, i + 2, [Join(cs[i], cs[i + 1], max, h - 1)])), max, h)
    ensures TryMerge(cs, i, max, h - 1) == Splice(cs, i, i + 2, [Join(cs[i], cs[i + 1], max, h - 1)])
  {
    assert AllLoose(TryMerge(cs, i, max, h - 1), max, h - 1);
  }

  /** A child that is this node's own is no other child of it. */
  lemma OwnIsUnique<K(!new), V>(n: Node<K, V>, i: nat, pool: set<Node<K, V>>, max: nat)
    requires n in pool && LoosePool(pool, max, n.height) && i < |n.children| && !n.children[i].isShared
    ensures forall j :: 0 <= j < |n.children| && j != i ==> n.children[j] != n.children[i]
  {
    assert LooseNode(n, pool, max);
  }

  /** Nodes at the level of n do not notice an edit of n's own child l, nor that its own child r is gone. */
  twostate lemma OthersStay<K(!new), V>(
      n: Node<K, V>, new l: Node<K, V>, new r: Node<K, V>, new pool: set<Node<K, V>>, new pool': set<Node<K, V>>,
      new max: nat)
    requires old(allocated(l) && allocated(r) && allocated(pool)) && n.height > 0
    requires old(LoosePool(pool, max, n.height)) && l.height == n.height - 1 && old(!l.isShared && l.parent == n)
    requires old(r.isShared || r.parent == n) && r.height == n.height - 1
    requires forall m <- pool' :: m in pool || m.height < n.height
    requires forall m <- pool ::
      m != n && m != l && m !in old(Below(pool, l.height)) ==> Kept(m) && (m in pool' || (m == r && !old(r.isShared)))
    ensures forall m <- pool' :: m.height == n.height && m != n ==> LooseNode(m, pool', max)
  {
    hide LooseNode;
    var ns := set m | m in pool' && m.height == n.height && m != n;
    var gone := if old(r.isShared) then {} else {r};
    NotDisturbed(ns, {n, l} + gone + old(Below(pool, l.height)), pool, pool', max);
  }

  twostate lemma LooseShrunk<K(!new), V>(n: Node<K, V>, new i: nat, new pool: set<Node<K, V>>, new max: nat)
    requires old(allocated(pool)) && old(LooseButFor(n, i, true, pool, max)) && i + 1 < old(|n.children|)
    requires n.children == old(n.children)[..i + 1] + old(n.children)[i + 2..] && n.values == old(n.values)
    requires n.tree == Inner(Splice(old(n.tree).children, i, i + 2, [old(n.children[i].tree)]))
    requires Loose(n.tree, max, n.height)
    requires n.keys == (old(n.keys)[..i + 1] + old(n.keys)[i + 2..])[i := MaxKeyOr(n.children[i], old(n.keys[i]))]
    requires var l := n.children[i]; Shape(l.tree, max, l.height) ==>
      MaxKeyOr(l, old(n.keys[i])) == MaxKey(l.tree, max, l.height)
    requires forall m <- pool :: m != n ==> Kept(m)
    ensures LooseNode(n, pool, max)
  {
    forall j | 0 <= j < |n.children| ensures n.children[j] in pool && LinkedTo(n, j, n.children[j], max) {
      if j != i {
        var k := if j < i then j else j + 1;
        assert n.children[j] == old(n.children[k]) && old(LinkedTo(n, k, n.children[k], max));
      }
    }
  }

  // ------------------------------------------------------------------- editing

  /** The separator above child i is brought up to date. */
  method RenewLoose<K(!new), V>(n: Node<K, V>, i: nat, ghost pool: set<Node<K, V>>, ghost max: nat)
    requires LooseButFor(n, i, false, pool, max)
    requires Loose(Inner(n.tree.children[i := n.children[i].tree]), max, n.height)
    modifies n`keys, n`tree
    ensures n.tree == Inner(old(n.tree).children[i := n.children[i].tree])
    ensures LoosePool(pool, max, n.height)
  {
    hide LooseNode, Loose, LoosePool;
    MaxKeyOfChild(n, i, false, pool, max);
    n.keys := n.keys[i := MaxKeyOr(n.children[i], n.keys[i])];
    n.tree := Inner(n.tree.children[i := n.children[i].tree]);
    LooseRenewed(n, i, pool, max);
    NoticeTaken(n, i, false, pool, max);
  }

  twostate lemma LooseRenewed<K(!new), V>(n: Node<K, V>, new i: nat, new pool: set<Node<K, V>>, new max: nat)
    requires old(allocated(pool)) && old(LooseButFor(n, i, false, pool, max)) && n.children == old(n.children)
    requires n.values == old(n.values)
    requires n.tree == Inner(old(n.tree).children[i := n.children[i].tree]) && Loose(n.tree, max, n.height)
    requires n.keys == old(n.keys)[i := MaxKeyOr(n.children[i], old(n.keys[i]))]
    requires var l := n.children[i]; Shape(l.tree, max, l.height) ==>
      MaxKeyOr(l, old(n.keys[i])) == MaxKey(l.tree, max, l.height)
    requires forall m <- pool :: m != n ==> Kept(m)
    ensures LooseNode(n, pool, max)
  {
    forall j | 0 <= j < |n.children| ensures n.children[j] in pool && LinkedTo(n, j, n.children[j], max) {
      assert j != i ==> old(LinkedTo(n, j, n.children[j], max));
    }
  }

  /** The edit of child i, made this node's own first. */
  method EditChild<K(!new), V>(n: Node<K, V>, i: nat, low: K, high: K, same: bool, includeHigh: bool, t: BTree<K, V>,
      ghost pool: set<Node<K, V>>, marks: bool)
    returns (count: nat, ghost pool': set<Node<K, V>>)
    requires n in pool && LoosePool(pool, t.maxNodeSize, n.height) && !n.isLeaf && !n.isShared && (same ==> low == high)
    requires n.height > 0 && n.tree.Inner? && i < |n.children| == |n.tree.children|
    requires Shape(n.tree.children[i], t.maxNodeSize, n.height - 1)
    requires TotalOrder(t.compare) && Sorted(t.compare, Contents(n.tree.children[i]))
    requires t.size >= |Contents(n.tree.children[i])|
    requires marks || n.height <= 1
    modifies n`keys, n`children, n`tree, Below(pool, n.height), pool`isShared, t`size
    ensures n.tree == Inner(old(n.tree).children[i :=
      EditNode(t.compare, old(n.tree).children[i], low, high, includeHigh, t.maxNodeSize, n.height - 1)])
    ensures EditedUnder(n, pool, pool') && fresh(pool' - pool) && LoosePool(pool', t.maxNodeSize, n.height)
    ensures count == |Contents(old(n.tree).children[i])| - |Contents(n.tree.children[i])|
    ensures t.size == old(t.size) - count
    decreases n.height, 0, 1
  {
    hide LooseNode, Loose, LoosePool, LooseButFor, Shape, EditNode, Sorted, TotalOrder, Contents, AllLoose, LinkedTo,
      Kept, KeptInside;
    AboutParts(n, pool, t.maxNodeSize);
    AboutLink(n, i, pool, t.maxNodeSize);
    var child;
    child, pool' := OwnLoose(n, i, pool, t.maxNodeSize);
    assert Below(pool', n.height) <= old(Below(pool, n.height)) + (pool' - pool);
    count, pool' := EditOwnChild(n, i, low, high, same, includeHigh, t, pool', marks);
    ReplacedIsLoose(n.tree.children, i, n.children[i].tree, t.maxNodeSize, n.height);
    RenewLoose(n, i, pool', t.maxNodeSize);
  }

  lemma ReplacedIsLoose<K, V>(cs: seq<Tree<K, V>>, i: nat, c: Tree<K, V>, max: nat, h: nat)
    requires h > 0 && i < |cs| && Loose(Inner(cs), max, h) && Loose(c, max, h - 1)
    ensures Loose(Inner(cs[i := c]), max, h)
  {
  }

  method EditOwnChild<K(!new), V>(n: Node<K, V>, i: nat, low: K, high: K, same: bool, includeHigh: bool, t: BTree<K, V>,
      ghost pool: set<Node<K, V>>, marks: bool)
    returns (count: nat, ghost pool': set<Node<K, V>>)
    requires n in pool && LoosePool(pool, t.maxNodeSize, n.height) && !n.isLeaf && !n.isShared && (same ==> low == high)
    requires i < |n.children| && !n.children[i].isShared && n.children[i].parent == n
    requires n.height > 0 && Shape(n.children[i].tree, t.maxNodeSize, n.height - 1)
    requires TotalOrder(t.compare) && Sorted(t.compare, Contents(n.children[i].tree))
    requires t.size >= |Contents(n.children[i].tree)|
    requires marks || n.height <= 1
    modifies Below(pool, n.height), pool`isShared, t`size
    ensures n.children[i].tree == EditNode(
      t.compare, old(n.children[i].tree), low, high, includeHigh, t.maxNodeSize, n.height - 1)
    ensures EditedUnder(n, pool, pool') && fresh(pool' - pool) && LooseButFor(n, i, false, pool', t.maxNodeSize)
    ensures count == old(|Contents(n.children[i].tree)|) - |Contents(n.children[i].tree)|
    ensures t.size == old(t.size) - count
    decreases n.height, 0, 0
  {
    hide LooseNode, Loose, LoosePool, LooseButFor, Shape, EditNode, Sorted, TotalOrder, Contents;
    AboutLink(n, i, pool, t.maxNodeSize);
    LowerPool(pool, t.maxNodeSize, n.height);
    var child := n.children[i];
    count, pool' := Edit(child, low, high, same, includeHigh, t, pool, marks);
    forall m | m in pool && m != child && m !in old(Below(pool, child.height)) ensures Kept(m) && m in pool' {
      assert KeptInside(m) && m.parent == old(m.parent) && m.holder == old(m.holder);
    }
    ChildChanged(n, i, false, pool, pool', t.maxNodeSize);
  }

  /** forRange in edit mode, with deletion for every pair that is found. */
  method Edit<K(!new), V>(
      n: Node<K, V>, low: K, high: K, same: bool, includeHigh: bool, t: BTree<K, V>, ghost pool: set<Node<K, V>>,
      marks: bool)
    returns (count: nat, ghost pool': set<Node<K, V>>)
    requires n in pool && LoosePool(pool, t.maxNodeSize, n.height) && !n.isShared && (same ==> low == high)
    requires RootShape(n.tree, t.maxNodeSize, n.height)
    requires TotalOrder(t.compare) && Sorted(t.compare, Contents(n.tree)) && t.size >= |Contents(n.tree)|
    requires marks || n.height <= 1
    modifies n`keys, n`values, n`children, n`tree, Below(pool, n.height), pool`isShared, t`size
    ensures n.tree == EditNode(t.compare, old(n.tree), low, high, includeHigh, t.maxNodeSize, n.height)
    ensures EditedUnder(n, pool, pool') && fresh(pool' - pool) && LoosePool(pool', t.maxNodeSize, n.height)
    ensures count == old(|Contents(n.tree)|) - |Contents(n.tree)| && t.size == old(t.size) - count
    decreases n.height, 3
  {
    hide LooseNode, Loose, LoosePool, Sorted, TotalOrder, Contents, EditNode, EditLeaf, RootShape, Shape;
    AboutParts(n, pool, t.maxNodeSize);
    AboutSelf(n, pool, t.maxNodeSize);
    EditByKind(t.compare, n.tree, low, high, includeHigh, t.maxNodeSize, n.height);
    if n.isLeaf {
      count := EditLeafNode(n, low, high, same, includeHigh, t, pool);
      pool' := pool;
      OnlyNode(n, pool, t.maxNodeSize);
    } else {
      count, pool' := EditInnerNode(n, low, high, same, includeHigh, t, pool, marks);
    }
  }

  lemma EditByKind<K(!new), V>(cmp: (K, K) -> int, t: Tree<K, V>, low: K, high: K, includeHigh: bool, max: nat, h: nat)
    requires RootShape(t, max, h)
    ensures t.Leaf? ==>
      EditNode(cmp, t, low, high, includeHigh, max, h) == Leaf(EditLeaf(cmp, t.entries, low, high, includeHigh))
    ensures t.Inner? ==> Shape(t, max, h)
  {
  }

  /** Only n, which is nobody's child down here, has changed. */
  twostate lemma OnlyNode<K(!new), V>(n: Node<K, V>, new pool: set<Node<K, V>>, new max: nat)
    requires old(allocated(pool)) && n in pool && old(LoosePool(pool, max, n.height)) && LooseNode(n, pool, max)
    requires forall m <- pool :: m != n ==> Kept(m)
    ensures LoosePool(pool, max, n.height)
  {
    hide LooseNode;
    assert forall m <- pool :: m.height <= n.height ==> old(LooseNode(m, pool, max));
    NotDisturbed(UpTo(pool, n.height, {n}), {n}, pool, pool, max);
  }

  method EditInnerNode<K(!new), V>(
      n: Node<K, V>, low: K, high: K, same: bool, includeHigh: bool, t: BTree<K, V>, ghost pool: set<Node<K, V>>,
      marks: bool)
    returns (count: nat, ghost pool': set<Node<K, V>>)
    requires n in pool && LoosePool(pool, t.maxNodeSize, n.height) && !n.isLeaf && !n.isShared && (same ==> low == high)
    requires Shape(n.tree, t.maxNodeSize, n.height)
    requires TotalOrder(t.compare) && Sorted(t.compare, Contents(n.tree)) && t.size >= |Contents(n.tree)|
    requires marks || n.height <= 1
    modifies n`keys, n`children, n`tree, Below(pool, n.height), pool`isShared, t`size
    ensures n.tree == EditNode(t.compare, old(n.tree), low, high, includeHigh, t.maxNodeSize, n.height)
    ensures EditedUnder(n, pool, pool') && fresh(pool' - pool) && LoosePool(pool', t.maxNodeSize, n.height)
    ensures count == old(|Contents(n.tree)|) - |Contents(n.tree)| && t.size == old(t.size) - count
    decreases n.height, 2
  {
    hide LooseNode, Loose, LoosePool, Sorted, TotalOrder, Contents, Flat, EditNode, EditInner, MergeDown, EditChildren,
      DropEmpty, Shape, Rank, ChildIndex, Kept, KeptInside, LinkedTo;
    AboutParts(n, pool, t.maxNodeSize);
    InnerIsLocal(n, pool, t.maxNodeSize);
    ghost var cs, max, h := n.tree.children, t.maxNodeSize, n.height - 1;
    FlatIsContents(n.tree);
    var iLow, iHigh := FindRange(n, low, high, same, t, pool);
    EditInSteps(t.compare, n.tree, low, high, includeHigh, max, h);
    pool' := pool;
    count := 0;
    if iLow <= iHigh {
      count, pool' := EditRange(n, iLow, iHigh, low, high, same, includeHigh, t, pool, marks);
      AboutParts(n, pool', max);
      pool' := MergeAndDrop(n, iHigh, if iLow > 0 then iLow - 1 else 0, t, pool', marks);
      FlatIsContents(n.tree);
    }
  }

  /** Which children the range reaches. */
  method FindRange<K(!new), V>(n: Node<K, V>, low: K, high: K, same: bool, t: BTree<K, V>, ghost pool: set<Node<K, V>>)
      returns (iLow: nat, iHigh: nat)
    requires n in pool && LoosePool(pool, t.maxNodeSize, n.height) && !n.isLeaf && (same ==> low == high)
    requires n.tree.Inner? && n.height > 0 && Shape(n.tree, t.maxNodeSize, n.height)
    requires TotalOrder(t.compare) && Sorted(t.compare, Contents(n.tree)) && 0 < |n.tree.children|
    requires Shapes(n.tree.children, t.maxNodeSize, n.height - 1)
    ensures iLow == Rank(t.compare, MaxKeys(n.tree.children, t.maxNodeSize, n.height - 1), low)
    ensures iHigh == ChildIndex(t.compare, n.tree.children, high, t.maxNodeSize, n.height - 1)
  {
    hide LooseNode, LoosePool, Sorted, TotalOrder, Contents, Shape, Rank;
    InnerIsLocal(n, pool, t.maxNodeSize);
    iLow := n.FirstChildFor(low, t, pool);
    iHigh := iLow;
    if !same {
      iHigh := n.FirstChildFor(high, t, pool);
    }
    if iHigh >= |n.keys| {
      iHigh := |n.keys| - 1;
    }
  }

  lemma FlatIsContents<K, V>(t: Tree<K, V>)
    ensures t.Inner? ==> Contents(t) == Flat(t.children)
  {
  }

  /** The specification in the order in which the code proceeds. */
  lemma EditInSteps<K(!new), V>(cmp: (K, K) -> int, t: Tree<K, V>, low: K, high: K, includeHigh: bool, max: nat, h: nat)
    requires t.Inner? && Shape(t, max, h + 1)
    ensures var cs := t.children; var first, last :=
      Rank(cmp, MaxKeys(cs, max, h), low), ChildIndex(cmp, cs, high, max, h);
      && 0 < |cs| && last < |cs|
      && EditNode(cmp, t, low, high, includeHigh, max, h + 1) == (
        if first > last then t
        else Inner(DropEmpty(MergeDown(EditChildren(cmp, cs, first, last, low, high, includeHigh, max, h), last,
          if first > 0 then first - 1 else 0, max, h))))
      && (first <= last ==>
        var merged := MergeDown(EditChildren(cmp, cs, first, last, low, high, includeHigh, max, h), last,
          if first > 0 then first - 1 else 0, max, h);
        && 0 < |merged| && (merged[0].Size() == 0 ==> |merged| == 1)
        && Flat(DropEmpty(merged)) == Flat(EditChildren(cmp, cs, first, last, low, high, includeHigh, max, h)))
  {
    var cs := t.children;
    var first, last := Rank(cmp, MaxKeys(cs, max, h), low), ChildIndex(cmp, cs, high, max, h);
    var edited := EditChildren(cmp, cs, first, last, low, high, includeHigh, max, h);
    if first > last {
      assert edited == cs;
    } else {
      NoEmptinessBug(cmp, cs, low, high, includeHigh, max, h);
      MergeDownFlat(edited, last, if first > 0 then first - 1 else 0, max, h);
      DropEmptyFlat(MergeDown(edited, last, if first > 0 then first - 1 else 0, max, h));
    }
  }

  /** What is done after the edits: merging from the last child that was edited down, and dropping a first child that is
      empty. */
  method MergeAndDrop<K(!new), V>(n: Node<K, V>, last: nat, lo: nat, t: BTree<K, V>, ghost pool: set<Node<K, V>>,
      marks: bool)
      returns (ghost pool': set<Node<K, V>>)
    requires n in pool && LoosePool(pool, t.maxNodeSize, n.height) && !n.isLeaf && !n.isShared
    requires n.height > 0 && n.tree.Inner? && AllLoose(n.tree.children, t.maxNodeSize, n.height - 1)
    requires last < |n.children| == |n.tree.children|
    requires var merged := MergeDown(n.tree.children, last, lo, t.maxNodeSize, n.height - 1);
      0 < |merged| && (merged[0].Size() == 0 ==> |merged| == 1)
    requires marks || n.height <= 1
    modifies n`keys, n`children, n`tree, Below(pool, n.height), pool`isShared
    ensures n.tree == Inner(DropEmpty(MergeDown(old(n.tree).children, last, lo, t.maxNodeSize, n.height - 1)))
    ensures EditedUnder(n, pool, pool') && fresh(pool' - pool) && LoosePool(pool', t.maxNodeSize, n.height)
  {
    hide LooseNode, Loose, LoosePool, MergeDown, DropEmpty;
    pool' := MergeRange(n, last, lo, t, pool, marks);
    DropFirst(n, pool', t.maxNodeSize);
  }

  method MergeRange<K(!new), V>(n: Node<K, V>, last: nat, lo: nat, t: BTree<K, V>, ghost pool: set<Node<K, V>>,
      marks: bool)
      returns (ghost pool': set<Node<K, V>>)
    requires n in pool && LoosePool(pool, t.maxNodeSize, n.height) && !n.isLeaf && !n.isShared
    requires n.height > 0 && n.tree.Inner? && AllLoose(n.tree.children, t.maxNodeSize, n.height - 1)
    requires last < |n.children| == |n.tree.children|
    requires marks || n.height <= 1
    modifies n`keys, n`children, n`tree, Below(pool, n.height), pool`isShared
    ensures n.tree == Inner(MergeDown(old(n.tree).children, last, lo, t.maxNodeSize, n.height - 1))
    ensures EditedUnder(n, pool, pool') && fresh(pool' - pool) && LoosePool(pool', t.maxNodeSize, n.height)
  {
    hide LooseNode, Loose, LoosePool, TryMerge, AllLoose, MergeDown;
    ghost var cs, h := n.tree.children, n.height - 1;
    var half := t.maxNodeSize / 2;
    pool' := pool;
    var i: int := last;
    while i >= lo
      invariant n.tree.Inner? && i < |n.children| == |n.tree.children| && AllLoose(n.tree.children, t.maxNodeSize, h)
      invariant n in pool' && fresh(pool' - pool) && LoosePool(pool', t.maxNodeSize, n.height)
      invariant EditedUnder(n, pool, pool')
      invariant MergeDown(n.tree.children, i, lo, t.maxNodeSize, h) == MergeDown(cs, last, lo, t.maxNodeSize, h)
      decreases i
    {
      MergeDownStep(n.tree.children, i, lo, t.maxNodeSize, h);
      ChildSize(n, i, pool', t.maxNodeSize);
      if |n.children[i].keys| <= half {
        var merged;
        merged, pool' := TryMergeAt(n, i, pool', t.maxNodeSize, marks);
        AboutParts(n, pool', t.maxNodeSize);
      }
      i := i - 1;
    }
    MergeDownEnd(n.tree.children, i, lo, t.maxNodeSize, h);
  }

  lemma MergeDownStep<K, V>(cs: seq<Tree<K, V>>, i: nat, lo: nat, max: nat, h: nat)
    requires AllLoose(cs, max, h) && lo <= i < |cs|
    ensures var next := if cs[i].Size() <= max / 2 then TryMerge(cs, i, max, h) else cs;
      AllLoose(next, max, h) && i <= |next| && MergeDown(cs, i, lo, max, h) == MergeDown(next, i - 1, lo, max, h)
  {
  }

  lemma MergeDownEnd<K, V>(cs: seq<Tree<K, V>>, i: int, lo: nat, max: nat, h: nat)
    requires AllLoose(cs, max, h) && i < lo && i < |cs|
    ensures MergeDown(cs, i, lo, max, h) == cs
  {
  }

  /** A first child that is empty is the only one, and goes. */
  method DropFirst<K(!new), V>(n: Node<K, V>, ghost pool: set<Node<K, V>>, ghost max: nat)
    requires n in pool && LoosePool(pool, max, n.height) && !n.isLeaf && n.height > 0 && n.tree.Inner?
    requires 0 < |n.tree.children| && (n.tree.children[0].Size() == 0 ==> |n.tree.children| == 1)
    modifies n`keys, n`children, n`tree
    ensures n.tree == Inner(DropEmpty(old(n.tree).children)) && LoosePool(pool, max, n.height)
  {
    hide LoosePool, LooseNode, Loose;
    AboutParts(n, pool, max);
    ChildSize(n, 0, pool, max);
    if |n.children[0].keys| == 0 {
      assert |n.children| == 1 && |n.keys| == 1;
      AboutSelf(n, pool, max);
      n.children := n.children[1..];
      n.keys := n.keys[1..];
      n.tree := Inner(n.tree.children[1..]);
      NoChildren(n, pool, max);
      OnlyNode(n, pool, max);
    }
  }

  twostate lemma NoChildren<K(!new), V>(n: Node<K, V>, new pool: set<Node<K, V>>, new max: nat)
    requires old(allocated(pool)) && old(LooseNode(n, pool, max)) && !n.isLeaf && n.height > 0
    requires n.children == [] && n.keys == [] && n.values == old(n.values) && n.tree == Inner([])
    ensures LooseNode(n, pool, max)
  {
  }

  lemma InnerIsLocal<K(!new), V>(n: Node<K, V>, pool: set<Node<K, V>>, max: nat)
    requires n in pool && LoosePool(pool, max, n.height) && !n.isLeaf && Shape(n.tree, max, n.height)
    ensures n.Local(pool, max) && |n.keys| == |n.children| == |n.tree.children| > 0
    ensures Shapes(n.tree.children, max, n.height - 1)
  {
    assert LooseNode(n, pool, max);
    LooseIsLocal(n, pool, max);
  }

  /** The children from first up to before i have been edited. */
  ghost predicate EditedSoFar<K(!new), V>(
      cmp: (K, K) -> int, cs: seq<Tree<K, V>>, xs: seq<Tree<K, V>>, first: nat, i: nat, low: K, high: K,
      includeHigh: bool,
      max: nat, h: nat)
    requires Shapes(cs, max, h)
  {
    && |xs| == |cs|
    && forall j ::
      0 <= j < |cs| ==> xs[j] == if first <= j < i then EditNode(cmp, cs[j], low, high, includeHigh, max, h) else cs[j]
  }

  /** The first loop: the children that the range reaches are edited. */
  method EditRange<K(!new), V>(n: Node<K, V>, iLow: nat, iHigh: nat, low: K, high: K, same: bool, includeHigh: bool,
      t: BTree<K, V>, ghost pool: set<Node<K, V>>,
      marks: bool)
    returns (count: nat, ghost pool': set<Node<K, V>>)
    requires n in pool && LoosePool(pool, t.maxNodeSize, n.height) && !n.isLeaf && !n.isShared && (same ==> low == high)
    requires n.height > 0 && n.tree.Inner? && iLow <= iHigh < |n.children| == |n.tree.children|
    requires Shapes(n.tree.children, t.maxNodeSize, n.height - 1)
    requires TotalOrder(t.compare) && Sorted(t.compare, Flat(n.tree.children)) && t.size >= |Flat(n.tree.children)|
    requires marks || n.height <= 1
    modifies n`keys, n`children, n`tree, Below(pool, n.height), pool`isShared, t`size
    ensures n.tree == Inner(EditChildren(
      t.compare, old(n.tree).children, iLow, iHigh, low, high, includeHigh, t.maxNodeSize, n.height - 1))
    ensures EditedUnder(n, pool, pool') && fresh(pool' - pool) && LoosePool(pool', t.maxNodeSize, n.height)
    ensures |Flat(n.tree.children)| + count == |Flat(old(n.tree).children)| && t.size == old(t.size) - count
    decreases n.height, 1
  {
    hide LooseNode, Loose, LoosePool, Sorted, TotalOrder, Contents, EditNode, Shape, Flat, EditedSoFar, Shapes;
    ghost var cs, max, h := n.tree.children, t.maxNodeSize, n.height - 1;
    pool' := pool;
    count := 0;
    NoneEdited(t.compare, cs, iLow, low, high, includeHigh, max, h);
    var i := iLow;
    while i <= iHigh
      invariant iLow <= i <= iHigh + 1 && n in pool' && fresh(pool' - pool) && LoosePool(pool', max, n.height)
      invariant n.tree.Inner? && |n.children| == |n.tree.children| == |cs|
      invariant EditedSoFar(t.compare, cs, n.tree.children, iLow, i, low, high, includeHigh, max, h)
      invariant EditedUnder(n, pool, pool')
      invariant |Flat(n.tree.children)| + count == |Flat(cs)| && t.size == old(t.size) - count
    {
      NextUnedited(t.compare, cs, n.tree.children, iLow, i, low, high, includeHigh, max, h);
      FlatAround(n.tree.children, i);
      var c;
      ghost var xs := n.tree.children;
      c, pool' := EditChild(n, i, low, high, same, includeHigh, t, pool', marks);
      OneMoreEdited(t.compare, cs, xs, iLow, i, low, high, includeHigh, max, h);
      FlatReplaced(xs, i, n.tree.children[i]);
      AboutParts(n, pool', max);
      count := count + c;
      i := i + 1;
    }
    AllEdited(t.compare, cs, n.tree.children, iLow, iHigh, low, high, includeHigh, max, h);
  }

  lemma NoneEdited<K(!new), V>(
      cmp: (K, K) -> int, cs: seq<Tree<K, V>>, first: nat, low: K, high: K, includeHigh: bool, max: nat, h: nat)
    requires Shapes(cs, max, h)
    ensures EditedSoFar(cmp, cs, cs, first, first, low, high, includeHigh, max, h)
  {
  }

  lemma NextUnedited<K(!new), V>(cmp: (K, K) -> int, cs: seq<Tree<K, V>>, xs: seq<Tree<K, V>>, first: nat, i: nat,
      low: K, high: K, includeHigh: bool, max: nat, h: nat)
    requires Shapes(cs, max, h) && EditedSoFar(cmp, cs, xs, first, i, low, high, includeHigh, max, h) && i < |cs|
    requires TotalOrder(cmp) && Sorted(cmp, Flat(cs))
    ensures xs[i] == cs[i] && Shape(cs[i], max, h) && Sorted(cmp, Contents(cs[i]))
  {
    ChildSorted(cmp, cs, i);
  }

  lemma OneMoreEdited<K(!new), V>(cmp: (K, K) -> int, cs: seq<Tree<K, V>>, xs: seq<Tree<K, V>>, first: nat, i: nat,
      low: K, high: K, includeHigh: bool, max: nat, h: nat)
    requires Shapes(cs, max, h) && EditedSoFar(cmp, cs, xs, first, i, low, high, includeHigh, max, h)
    requires first <= i < |cs|
    ensures EditedSoFar(cmp, cs, xs[i := EditNode(cmp, cs[i], low, high, includeHigh, max, h)], first, i + 1, low, high,
      includeHigh, max, h)
  {
  }

  lemma AllEdited<K(!new), V>(cmp: (K, K) -> int, cs: seq<Tree<K, V>>, xs: seq<Tree<K, V>>, first: nat, last: nat,
      low: K, high: K, includeHigh: bool, max: nat, h: nat)
    requires Shapes(cs, max, h) && EditedSoFar(cmp, cs, xs, first, last + 1, low, high, includeHigh, max, h)
    ensures xs == EditChildren(cmp, cs, first, last, low, high, includeHigh, max, h)
  {
  }

  lemma FlatReplaced<K, V>(xs: seq<Tree<K, V>>, i: nat, c: Tree<K, V>)
    requires i < |xs|
    ensures |Flat(xs[i := c])| == |Flat(xs)| - |Contents(xs[i])| + |Contents(c)|
  {
    var ys := xs[i := c];
    FlatAround(xs, i);
    FlatAround(ys, i);
    assert ys[..i] == xs[..i] && ys[i + 1..] == xs[i + 1..];
  }

  // --------------------------------------------------------------------- trees

  ghost predicate LooseAll<K(!new), V>(pool: set<Node<K, V>>, max: nat)
    reads pool
  {
    forall n {:trigger LooseNode(n, pool, max)} :: n in pool ==> LooseNode(n, pool, max)
  }

  lemma CoherentIsLoose<K(!new), V>(pool: set<Node<K, V>>, max: nat, h: nat)
    requires Coherent(pool, max)
    ensures LooseAll(pool, max) && LoosePool(pool, max, h)
  {
    forall n | n in pool ensures LooseNode(n, pool, max) {
      assert n.Local(pool, max);
      LocalIsLoose(n, pool, max);
    }
  }

  /** The nodes that a sound tree may have. */
  ghost function SoundPart<K(!new), V>(pool: set<Node<K, V>>, max: nat): set<Node<K, V>>
    reads pool
  {
    set n | n in pool && (n.isLeaf || Shape(n.tree, max, n.height))
  }

  /** They agree with their children in the strict sense. */
  lemma SoundPartCoherent<K(!new), V>(pool: set<Node<K, V>>, max: nat)
    requires LooseAll(pool, max)
    ensures Coherent(SoundPart(pool, max), max)
  {
    var all := SoundPart(pool, max);
    forall n | n in all ensures n.Local(all, max) {
      assert LooseNode(n, pool, max);
      LooseIsLocal(n, pool, max);
      if !n.isLeaf {
        forall c | c in n.children ensures c in all {
          var i :| 0 <= i < |n.children| && n.children[i] == c;
          assert LinkedTo(n, i, n.children[i], max);
          assert LooseNode(c, pool, max);
        }
      }
    }
  }

  /** Nodes above the height of an edited root do not notice the edit. */
  twostate lemma AllStillLoose<K(!new), V>(
      n: Node<K, V>, new pool: set<Node<K, V>>, new pool': set<Node<K, V>>, new max: nat)
    requires old(allocated(pool)) && old(LooseAll(pool, max)) && n in pool && old(!n.isShared && n.parent == null)
    requires (forall m <- pool' :: m in pool || m.height < n.height) && LoosePool(pool', max, n.height)
    requires forall m <- pool :: m != n && m !in old(Below(pool, n.height)) ==> Kept(m) && m in pool'
    ensures LooseAll(pool', max)
  {
    hide LooseNode;
    assert forall m <- pool :: old(LooseNode(m, pool, max));
    var above := set m | m in pool' && m.height > n.height;
    NotDisturbed(above, {n} + old(Below(pool, n.height)), pool, pool', max);
  }

  /** The tree has its root to itself, or shares it. */
  ghost predicate HasRoot<K(!new), V>(t: BTree<K, V>, pool: set<Node<K, V>>)
    reads t, t.root
  {
    t.root in pool && (t.root.isShared || (t.root.parent == null && t.root.holder == t))
  }

  /** A root with a single child gives way to it. */
  method SkipRoot<K(!new), V>(t: BTree<K, V>, ghost pool: set<Node<K, V>>, ghost others: set<BTree<K, V>>, marks: bool)
      returns (ghost pool': set<Node<K, V>>)
    requires LooseAll(pool, t.maxNodeSize) && HasRoot(t, pool) && !t.root.isLeaf && |t.root.children| == 1
    requires t !in others && forall u <- others :: HasRoot(u, pool)
    requires marks || !t.root.isShared || t.root.children[0].isShared
    modifies t`root, pool`isShared, (set n | n in pool && !n.isShared)`parent, (set n | n in pool && !n.isShared)`holder
    ensures pool' == (if old(t.root.isShared) then pool else pool - {old(t.root)}) && LooseAll(pool', t.maxNodeSize)
    ensures HasRoot(t, pool')
    ensures forall u <- others :: HasRoot(u, pool')
    ensures t.root == old(t.root.children[0]) && t.root.height < old(t.root.height)
    ensures forall n <- pool :: old(n.isShared) ==> n.isShared
  {
    hide Loose, Shape, MaxKey;
    var top, c := t.root, t.root.children[0];
    AboutOnlyChild(top, pool, t.maxNodeSize);
    pool' := if top.isShared then pool else pool - {top};
    if top.isShared {
      if marks {
        // Not in the source, which would take the child for this tree's own although another tree has it as well.
        c.isShared := true;
      }
      NotDisturbed(pool, {}, pool, pool', t.maxNodeSize);
    } else {
      GiveTo(c, t);
      NotDisturbed(pool', {top} + (if c.isShared then {} else {c}), pool, pool', t.maxNodeSize);
    }
    t.root := c;
  }

  lemma AboutOnlyChild<K(!new), V>(n: Node<K, V>, pool: set<Node<K, V>>, max: nat)
    requires LooseAll(pool, max) && n in pool && !n.isLeaf && |n.children| == 1
    ensures n.children[0] in pool && n.children[0].height == n.height - 1
    ensures (n.children[0].isShared || n.children[0].parent == n)
    ensures n.tree.Inner? && n.tree.children == [n.children[0].tree]
    ensures forall m <- pool :: LooseNode(m, pool, max)
  {
    assert LooseNode(n, pool, max);
    assert LinkedTo(n, 0, n.children[0], max);
  }

  ghost method GiveTo<K(!new), V>(c: Node<K, V>, t: BTree<K, V>)
    modifies (if c.isShared then {} else {c})`parent, (if c.isShared then {} else {c})`holder
    ensures !c.isShared ==> c.parent == null && c.holder == t
  {
    if !c.isShared {
      c.parent, c.holder := null, t;
    }
  }

  /** Under some reckoning of whom the nodes belong to, every node agrees with its children, and no node that is not
      shared belongs to two nodes or trees. */
  ghost predicate ForestUnder<K(!new), V>(
      pool: set<Node<K, V>>, trees: set<BTree<K, V>>, owner: map<Node<K, V>, object>, max: nat)
    reads pool, set n <- pool, c <- n.children :: c
    reads trees, set u <- trees :: u.root
  {
    && (forall n <- pool :: LooseIn(n, pool, max) && Owns(n, owner))
    && (forall u <- trees :: u.root in pool && (u.root.isShared || (u.root in owner && owner[u.root] == u)))
  }

  /** The step of that loop as the source has it. It leaves the nodes such that each belongs to one node or tree at most
      if and only if the root that is skipped is not shared, or its child is. */
  method SkipRootAsWritten<K(!new), V>(t: BTree<K, V>, ghost pool: set<Node<K, V>>, ghost others: set<BTree<K, V>>)
    requires LooseAll(pool, t.maxNodeSize) && HasRoot(t, pool) && !t.root.isLeaf && |t.root.children| == 1
    requires t !in others && forall u <- others :: HasRoot(u, pool)
    modifies t`root, (set n | n in pool && !n.isShared)`parent, (set n | n in pool && !n.isShared)`holder
    ensures t.root == old(t.root.children[0])
    ensures var top := old(t.root);
      var pool', trees := if top.isShared then pool else pool - {top}, others + {t};
      (exists owner :: ForestUnder(pool', trees, owner, t.maxNodeSize)) <==> !top.isShared || t.root.isShared
  {
    hide Loose, Shape, MaxKey, LooseIn, Owns;
    var top, c := t.root, t.root.children[0];
    AboutOnlyChild(top, pool, t.maxNodeSize);
    ghost var pool' := if top.isShared then pool else pool - {top};
    if !top.isShared {
      GiveTo(c, t);
      NotDisturbed(pool', {top} + (if c.isShared then {} else {c}), pool, pool', t.maxNodeSize);
    }
    t.root := c;
    if !top.isShared || c.isShared {
      RootsUnderOwners(pool', others + {t}, t.maxNodeSize);
    } else {
      NodeAndTree(top, t, c, pool', others + {t}, t.maxNodeSize);
    }
  }

  lemma RootsUnderOwners<K(!new), V>(pool: set<Node<K, V>>, trees: set<BTree<K, V>>, max: nat)
    requires LooseAll(pool, max) && forall u <- trees :: HasRoot(u, pool)
    ensures ForestUnder(pool, trees, Owners(pool), max)
  {
    hide LooseIn, Owns, LooseNode;
    forall n | n in pool ensures LooseIn(n, pool, max) && Owns(n, Owners(pool)) {
      OwnersOf(n, pool, max);
    }
  }

  lemma NodeAndTree<K(!new), V>(
      n: Node<K, V>, t: BTree<K, V>, c: Node<K, V>, pool: set<Node<K, V>>, trees: set<BTree<K, V>>, max: nat)
    requires n in pool && t in trees && c in n.children && t.root == c && !c.isShared
    ensures !exists owner :: ForestUnder(pool, trees, owner, max)
  {
    hide LooseIn;
    forall owner: map<Node<K, V>, object>
      ensures ForestUnder(pool, trees, owner, max) ==> c in owner && owner[c] == n && owner[c] == t && n as object != t
    {
    }
  }

  /** The loop at the end of editRange. */
  method CollapseRoot<K(!new), V>(
      t: BTree<K, V>, emptyLeaf: Node<K, V>, ghost pool: set<Node<K, V>>, ghost others: set<BTree<K, V>>, marks: bool)
      returns (ghost pool': set<Node<K, V>>)
    requires LooseAll(pool, t.maxNodeSize) && HasRoot(t, pool) && emptyLeaf in pool && IsEmptyLeaf(emptyLeaf)
    requires t !in others && forall u <- others :: HasRoot(u, pool)
    requires marks || (t.root.height <= 1 && !t.root.isShared)
    modifies t`root, pool`isShared, (set n | n in pool && !n.isShared)`parent, (set n | n in pool && !n.isShared)`holder
    ensures pool' <= pool && LooseAll(pool', t.maxNodeSize) && HasRoot(t, pool') && emptyLeaf in pool'
    ensures IsEmptyLeaf(emptyLeaf)
    ensures forall u <- others :: HasRoot(u, pool')
    ensures t.root.tree == Collapse(old(t.root.tree))
    ensures forall n <- pool :: old(n.isShared) ==> n.isShared
  {
    hide LooseNode, LooseAll;
    pool' := pool;
    while |t.root.keys| <= 1 && !t.root.isLeaf
      invariant pool' <= pool && LooseAll(pool', t.maxNodeSize) && HasRoot(t, pool') && emptyLeaf in pool'
      invariant IsEmptyLeaf(emptyLeaf)
      invariant marks || t.root.isLeaf || (t.root.height <= 1 && !t.root.isShared)
      invariant forall u <- others :: HasRoot(u, pool')
      invariant Collapse(t.root.tree) == Collapse(old(t.root.tree))
      invariant forall n <- pool :: old(n.isShared) ==> n.isShared
      decreases t.root.height
    {
      AboutRoot(t.root, pool', t.maxNodeSize);
      AboutRoot(emptyLeaf, pool', t.maxNodeSize);
      if |t.root.keys| == 0 {
        t.root := emptyLeaf;
      } else {
        AboutOnlyChild(t.root, pool', t.maxNodeSize);
        pool' := SkipRoot(t, pool', others, marks);
        AboutRoot(t.root, pool', t.maxNodeSize);
      }
    }
    AboutRoot(t.root, pool', t.maxNodeSize);
  }

  lemma AboutRoot<K(!new), V>(n: Node<K, V>, pool: set<Node<K, V>>, max: nat)
    requires LooseAll(pool, max) && n in pool
    ensures |n.keys| == n.tree.Size() && n.tree.Leaf? == n.isLeaf && (n.isLeaf ==> n.height == 0)
    ensures (!n.isLeaf ==> n.height > 0)
    ensures !n.isLeaf ==> |n.keys| == |n.children| == |n.tree.children|
    ensures n.isLeaf && n.keys == [] ==> n.tree == Leaf([])
  {
    assert LooseNode(n, pool, max);
  }

  /** The edit of a tree that has its root to itself, as far as the nodes go. */
  method EditTree<K(!new), V>(t: BTree<K, V>, low: K, high: K, same: bool, includeHigh: bool,
      ghost all: set<Node<K, V>>, ghost trees: set<BTree<K, V>>, marks: bool)
    returns (deleted: nat, ghost pool: set<Node<K, V>>)
    requires t in trees && Forest(all, trees, t.compare, t.maxNodeSize) && !t.root.isShared && (same ==> low == high)
    requires marks || t.root.height <= 1
    modifies t`size, t.root`keys, t.root`values, t.root`children, t.root`tree, Below(all, t.root.height), all`isShared
    ensures LooseAll(pool, t.maxNodeSize) && fresh(pool - all) && forall u <- trees :: HasRoot(u, pool)
    ensures t.root.tree == EditNode(t.compare, old(t.root.tree), low, high, includeHigh, t.maxNodeSize, t.root.height)
    ensures !t.root.isShared
    ensures deleted == old(|Contents(t.root.tree)|) - |Contents(t.root.tree)| && t.size == old(t.size) - deleted
    ensures forall u <- trees :: u != t ==> Kept(u.root)
    ensures forall n <- all :: old(n.isShared) ==> Kept(n) && n in pool
  {
    hide LooseNode, LoosePool, LooseAll, Coherent, EditNode, Sorted, TotalOrder, Contents;
    CoherentIsLoose(all, t.maxNodeSize, t.root.height);
    deleted, pool := Edit(t.root, low, high, same, includeHigh, t, all, marks);
    forall m | m in all && m != t.root && m !in old(Below(all, t.root.height)) ensures Kept(m) && m in pool {
      assert KeptInside(m) && m.parent == old(m.parent) && m.holder == old(m.holder);
    }
    AllStillLoose(t.root, all, pool, t.maxNodeSize);
  }

  /** deleteRange. The range goes from this tree, and nothing changes in any other. If no node has been stranded all
      trees are sound again; otherwise all but this one are. */
  method DeleteRangeIn<K(!new), V>(
      t: BTree<K, V>, low: K, high: K, same: bool, includeHigh: bool, emptyLeaf: Node<K, V>,
      ghost all: set<Node<K, V>>, ghost trees: set<BTree<K, V>>, marks: bool)
    returns (deleted: nat, ghost all': set<Node<K, V>>, ghost pool: set<Node<K, V>>)
    requires t in trees && Forest(all, trees, t.compare, t.maxNodeSize) && (same ==> low == high)
    requires emptyLeaf in all && IsEmptyLeaf(emptyLeaf)
    requires marks || t.root.height <= 1
    modifies t`root, t`size, all
    ensures fresh(all' - all) && emptyLeaf in all' && IsEmptyLeaf(emptyLeaf)
    ensures LooseAll(pool, t.maxNodeSize) && t.root in pool
    ensures Forest(all', trees - {t}, t.compare, t.maxNodeSize)
    ensures RootShape(t.root.tree, t.maxNodeSize, t.root.height) ==> Forest(all', trees, t.compare, t.maxNodeSize)
    ensures t.Pairs() == Outside(t.compare, old(t.Pairs()), low, high, includeHigh)
    ensures deleted == |old(t.Pairs())| - |t.Pairs()| && t.size == |t.Pairs()|
    ensures t.root.tree == DeleteRange(
      t.compare, old(t.root.tree), low, high, includeHigh, t.maxNodeSize, old(t.root.height))
    ensures forall u <- trees :: u != t ==> u.Pairs() == old(u.Pairs()) && u.Balanced() == old(u.Balanced())
    ensures forall n <- all :: old(n.isShared) ==> Kept(n)
  {
    hide Forest, Coherent, Outside, Contents, DeleteRange, RootShape, HalfFull, Sound, LooseAll;
    all' := t.OwnRoot(all, trees);
    deleted, all', pool := DeleteOwned(t, low, high, same, includeHigh, emptyLeaf, all', trees, marks);
  }

  /** withoutRange, and so without: a copy of the tree that has lost the range, or the tree itself where nothing is lost
      and that is asked for. No tree that was there before changes. */
  method WithoutRange<K(!new), V>(
      t: BTree<K, V>, low: K, high: K, same: bool, includeHigh: bool, returnThis: bool, emptyLeaf: Node<K, V>,
      ghost all: set<Node<K, V>>, ghost trees: set<BTree<K, V>>, marks: bool)
    returns (result: BTree<K, V>, ghost all': set<Node<K, V>>, ghost pool: set<Node<K, V>>)
    requires t in trees && Forest(all, trees, t.compare, t.maxNodeSize) && (same ==> low == high)
    requires emptyLeaf in all && IsEmptyLeaf(emptyLeaf)
    requires marks || t.root.height <= 1
    modifies all
    ensures fresh(all' - all) && emptyLeaf in all' && IsEmptyLeaf(emptyLeaf)
    ensures var left := Outside(t.compare, old(t.Pairs()), low, high, includeHigh);
      if returnThis && left == old(t.Pairs()) then result == t else fresh(result) && result.Pairs() == left
    ensures Forest(all', trees, t.compare, t.maxNodeSize) && result.maxNodeSize == t.maxNodeSize
    ensures result != t ==> LooseAll(pool, t.maxNodeSize) && result.root in pool
    ensures RootShape(result.root.tree, t.maxNodeSize, result.root.height) ==>
      Forest(all', trees + {result}, t.compare, t.maxNodeSize)
    ensures forall u <- trees :: u.Pairs() == old(u.Pairs()) && u.Balanced() == old(u.Balanced())
    ensures forall n <- all :: old(n.isShared) ==> Kept(n)
  {
    hide Forest, Coherent, Outside, Contents, DeleteRange, RootShape, HalfFull, Sound, LooseAll, LooseNode;
    var nu;
    ghost var trees';
    AboutRootOf(t, all, trees);
    nu, trees' := t.Clone(all, trees);
    assert trees' - {nu} == trees;
    label Cloned:
    var deleted;
    deleted, all', pool := DeleteRangeIn(nu, low, high, same, includeHigh, emptyLeaf, all, trees', marks);
    forall n | n in all && old(n.isShared) ensures Kept(n) {
      assert Kept@Cloned(n);
    }
    OutsideLosesNone(t.compare, old(t.Pairs()), low, high, includeHigh);
    result := if deleted == 0 && returnThis then t else nu;
    assert result == t ==> trees + {t} == trees;
  }

  lemma AboutRootOf<K(!new), V>(t: BTree<K, V>, all: set<Node<K, V>>, trees: set<BTree<K, V>>)
    requires t in trees && Forest(all, trees, t.compare, t.maxNodeSize)
    ensures t.root in all
  {
  }

  /** Nothing is lost when the number stays the same. */
  lemma {:induction false} OutsideLosesNone<K(!new), V>(
      cmp: (K, K) -> int, s: seq<Pair<K, V>>, low: K, high: K, includeHigh: bool)
    ensures |Outside(cmp, s, low, high, includeHigh)| <= |s|
    ensures |Outside(cmp, s, low, high, includeHigh)| == |s| ==> Outside(cmp, s, low, high, includeHigh) == s
  {
    if |s| > 0 {
      OutsideLosesNone(cmp, s[1..], low, high, includeHigh);
    }
  }

  method DeleteOwned<K(!new), V>(t: BTree<K, V>, low: K, high: K, same: bool, includeHigh: bool, emptyLeaf: Node<K, V>,
      ghost all: set<Node<K, V>>, ghost trees: set<BTree<K, V>>, marks: bool)
    returns (deleted: nat, ghost all': set<Node<K, V>>, ghost pool: set<Node<K, V>>)
    requires t in trees && Forest(all, trees, t.compare, t.maxNodeSize) && !t.root.isShared && (same ==> low == high)
    requires emptyLeaf in all && IsEmptyLeaf(emptyLeaf)
    requires marks || t.root.height <= 1
    modifies t`root, t`size, all
    ensures fresh(all' - all) && emptyLeaf in all' && IsEmptyLeaf(emptyLeaf)
    ensures LooseAll(pool, t.maxNodeSize) && t.root in pool
    ensures Forest(all', trees - {t}, t.compare, t.maxNodeSize)
    ensures RootShape(t.root.tree, t.maxNodeSize, t.root.height) ==> Forest(all', trees, t.compare, t.maxNodeSize)
    ensures t.Pairs() == Outside(t.compare, old(t.Pairs()), low, high, includeHigh)
    ensures deleted == |old(t.Pairs())| - |t.Pairs()| && t.size == |t.Pairs()|
    ensures t.root.tree == DeleteRange(
      t.compare, old(t.root.tree), low, high, includeHigh, t.maxNodeSize, old(t.root.height))
    ensures forall u <- trees :: u != t ==> u.root == old(u.root) && u.root.tree == old(u.root.tree)
    ensures forall n <- all :: old(n.isShared) ==> Kept(n)
  {
    hide LooseNode, LooseAll, Coherent, EditNode, Sorted, TotalOrder, Contents, Collapse, Outside, Shape, Loose,
      HalfFull, Sound, RootShape;
    ghost var max, cmp, before, h, size := t.maxNodeSize, t.compare, t.root.tree, t.root.height, t.size;
    AboutSound(cmp, before, size, max, h);
    DeletedContents(cmp, before, low, high, includeHigh, max, h);
    deleted, pool := EditTree(t, low, high, same, includeHigh, all, trees, marks);
    pool := CollapseRoot(t, emptyLeaf, pool, trees - {t}, marks);
    SoundForest(pool, trees - {t}, cmp, max);
    if RootShape(t.root.tree, max, t.root.height) {
      SoundAgain(cmp, t.root.tree, t.size, max, t.root.height);
      SoundForest(pool, trees, cmp, max);
    }
    EmptyLeafIsSound(emptyLeaf, pool, max);
    all' := SoundPart(pool, max);
  }

  lemma AboutSound<K(!new), V>(cmp: (K, K) -> int, t: Tree<K, V>, size: nat, max: nat, h: nat)
    requires Sound(cmp, t, size, max, h)
    ensures RootShape(t, max, h) && Sorted(cmp, Contents(t)) && size == |Contents(t)|
  {
  }

  lemma SoundAgain<K(!new), V>(cmp: (K, K) -> int, t: Tree<K, V>, size: nat, max: nat, h: nat)
    requires RootShape(t, max, h) && Sorted(cmp, Contents(t)) && size == |Contents(t)| && (t.Inner? ==> t.Size() >= 2)
    ensures Sound(cmp, t, size, max, h)
  {
  }

  lemma EmptyLeafIsSound<K(!new), V>(n: Node<K, V>, pool: set<Node<K, V>>, max: nat)
    requires n in pool && n.isLeaf
    ensures n in SoundPart(pool, max)
  {
  }

  /** Trees that are sound, over nodes that agree with their children, need only the sound part of them. */
  lemma SoundForest<K(!new), V>(pool: set<Node<K, V>>, trees: set<BTree<K, V>>, cmp: (K, K) -> int, max: nat)
    requires TotalOrder(cmp) && 4 <= max <= 256 && LooseAll(pool, max)
    requires forall u <- trees ::
      HasRoot(u, pool) && u.compare == cmp && u.maxNodeSize == max &&
      Sound(cmp, u.root.tree, u.size, max, u.root.height)
    ensures Forest(SoundPart(pool, max), trees, cmp, max)
  {
    hide LooseNode, LooseAll, Sorted, TotalOrder, Contents, Coherent;
    SoundPartCoherent(pool, max);
    forall u | u in trees ensures u.root in SoundPart(pool, max) {
      AboutRoot(u.root, pool, max);
    }
  }

  lemma DeletedContents<K(!new), V>(
      cmp: (K, K) -> int, t: Tree<K, V>, low: K, high: K, includeHigh: bool, max: nat, h: nat)
    requires TotalOrder(cmp) && RootShape(t, max, h) && Sorted(cmp, Contents(t))
    ensures var e := EditNode(cmp, t, low, high, includeHigh, max, h);
      && Contents(e) == Outside(cmp, Contents(t), low, high, includeHigh) && Contents(Collapse(e)) == Contents(e)
      && Sorted(cmp, Contents(e)) && (Collapse(e).Inner? ==> Collapse(e).Size() >= 2)
      && |Contents(e)| <= |Contents(t)|
  {
    hide EditNode, Contents, Collapse, Outside, Shape, Loose;
    var e := EditNode(cmp, t, low, high, includeHigh, max, h);
    EditNodeContents(cmp, t, low, high, includeHigh, max, h);
    CollapseContents(e);
    OutsideSorted(cmp, Contents(t), low, high, includeHigh);
    CollapseIsLoose(e, max, h);
    EditCountRight(cmp, t, low, high, includeHigh, max, h);
  }
}
