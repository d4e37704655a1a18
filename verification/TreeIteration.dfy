/** Walking a B+ tree in key order without parent pointers: the iterator keeps, for each level above the leaves, the
    list of siblings it is in and its place among them. */
module TreeIteration {
  import opened Options
  import opened SortedPairs
  import opened TreeSpec
  import opened TreeNodes

  /** The pairs from a key on; all of them when no key is given. */
  ghost function From<K(!new), V>(cmp: (K, K) -> int, s: seq<Pair<K, V>>, low: Option<K>): seq<Pair<K, V>> {
    match low
    case None => s
    case Some(k) => s[Place(cmp, s, k)..]
  }

  /** Those are the pairs with a key that is not below the given one, in order: the last ones of all. */
  lemma FromExactly<K(!new), V>(cmp: (K, K) -> int, s: seq<Pair<K, V>>, low: Option<K>, p: Pair<K, V>)
    requires TotalOrder(cmp) && Sorted(cmp, s)
    ensures p in From(cmp, s, low) <==> p in s && (low.None? || cmp(p.key, low.value) >= 0)
    ensures |From(cmp, s, low)| <= |s| && From(cmp, s, low) == s[|s| - |From(cmp, s, low)|..]
  {
    hide Place, Sorted, TotalOrder;
    if low.Some? {
      var n := Place(cmp, s, low.value);
      if p in s {
        var i :| 0 <= i < |s| && s[i] == p;
        FromPlaceOn(cmp, s, low.value, i);
        assert i >= n ==> s[n..][i - n] == p;
      }
      if p in s[n..] {
        var j :| 0 <= j < |s| - n && s[n..][j] == p;
        FromPlaceOn(cmp, s, low.value, n + j);
        assert s[n + j] == p;
      }
    }
  }

  lemma FromPlaceOn<K(!new), V>(cmp: (K, K) -> int, s: seq<Pair<K, V>>, k: K, i: nat)
    requires TotalOrder(cmp) && Sorted(cmp, s) && i < |s|
    ensures i >= Place(cmp, s, k) <==> cmp(s[i].key, k) >= 0
  {
    if i > Place(cmp, s, k) {
      Beyond(cmp, s[Place(cmp, s, k)].key, s[i].key, k);
    }
  }

  /** Where the iteration stands at each level from that one up. */
  ghost predicate InLevels<T>(levels: seq<seq<T>>, index: seq<int>, level: nat) {
    && |levels| == |index| && level <= |levels|
    && forall l :: level <= l < |levels| ==> 0 <= index[l] < |levels[l]|
  }

  /** What the levels from that one up still have to offer: the siblings after the current one, level by level. */
  ghost function Rest<K, V>(levels: seq<seq<Tree<K, V>>>, index: seq<int>, level: nat): seq<Pair<K, V>>
    requires InLevels(levels, index, level)
    decreases |levels| - level
  {
    if level == |levels| then [] else Flat(levels[level][index[level] + 1..]) + Rest(levels, index, level + 1)
  }

  lemma {:induction false} RestSame<K, V>(
      levels: seq<seq<Tree<K, V>>>, index: seq<int>, levels': seq<seq<Tree<K, V>>>, index': seq<int>, level: nat)
    requires InLevels(levels, index, level) && |levels'| == |levels| == |index'|
    requires forall l :: level <= l < |levels| ==> levels'[l] == levels[l] && index'[l] == index[l]
    ensures InLevels(levels', index', level) && Rest(levels', index', level) == Rest(levels, index, level)
    decreases |levels| - level
  {
    if level < |levels| {
      RestSame(levels, index, levels', index', level + 1);
    }
  }

  function Reversed<T>(s: seq<T>): (r: seq<T>)
    ensures |r| == |s| && forall i :: 0 <= i < |s| ==> r[i] == s[|s| - 1 - i]
  {
    seq(|s|, i requires 0 <= i < |s| => s[|s| - 1 - i])
  }

  /** Rest, for levels listed from the root down: the last d of them. */
  ghost function RestDown<K, V>(levels: seq<seq<Tree<K, V>>>, index: seq<int>, d: nat): seq<Pair<K, V>>
    requires InLevels(levels, index, 0) && d <= |levels|
  {
    if d == 0 then [] else Flat(levels[d - 1][index[d - 1] + 1..]) + RestDown(levels, index, d - 1)
  }

  lemma {:induction false} RestReversed<K, V>(levels: seq<seq<Tree<K, V>>>, index: seq<int>, d: nat)
    requires InLevels(levels, index, 0) && d <= |levels|
    ensures InLevels(Reversed(levels), Reversed(index), 0)
    ensures Rest(Reversed(levels), Reversed(index), |levels| - d) == RestDown(levels, index, d)
  {
    hide Flat;
    if d > 0 {
      RestReversed(levels, index, d - 1);
    }
  }

  lemma {:induction false} RestDownSame<K, V>(
      levels: seq<seq<Tree<K, V>>>, index: seq<int>, more: seq<Tree<K, V>>, i: int, d: nat)
    requires InLevels(levels, index, 0) && d <= |levels| && 0 <= i < |more|
    ensures RestDown(levels + [more], index + [i], d) == RestDown(levels, index, d)
  {
    if d > 0 {
      RestDownSame(levels, index, more, i, d - 1);
    }
  }

  lemma RestDownMore<K, V>(levels: seq<seq<Tree<K, V>>>, index: seq<int>, more: seq<Tree<K, V>>, i: int)
    requires InLevels(levels, index, 0) && 0 <= i < |more|
    ensures InLevels(levels + [more], index + [i], 0)
    ensures RestDown(levels + [more], index + [i], |levels| + 1)
      == Flat(more[i + 1..]) + RestDown(levels, index, |levels|)
  {
    hide Flat;
    RestDownSame(levels, index, more, i, |levels|);
  }

  /** One step down: what is from k on under a node is what is from k on under its child for k, and all later
      children. */
  lemma FromChild<K(!new), V>(cmp: (K, K) -> int, cs: seq<Tree<K, V>>, low: Option<K>, i: nat, max: nat, h: nat)
    requires TotalOrder(cmp) && |cs| > 0 && Shapes(cs, max, h) && Sorted(cmp, Flat(cs))
    requires i == if low.None? then 0 else Rank(cmp, MaxKeys(cs, max, h), low.value)
    ensures i < |cs| ==> From(cmp, Flat(cs), low) == From(cmp, Contents(cs[i]), low) + Flat(cs[i + 1..])
    ensures i == |cs| ==> From(cmp, Flat(cs), low) == []
  {
    hide Contents, Flat, MaxKey, Shape, From, Sorted, Rank;
    if i == |cs| {
      ChildrenBelow(cmp, cs, |cs|, low.value, max, h);
      assert cs[..|cs|] == cs;
      FromNone(cmp, Flat(cs), low.value);
    } else {
      FlatAround(cs, i);
      if low.Some? {
        ChildIndexSeparates(cmp, cs, low.value, max, h);
      } else {
        FlatNone<K, V>();
      }
      FromMiddle(cmp, Flat(cs[..i]), Contents(cs[i]), Flat(cs[i + 1..]), low);
    }
  }

  lemma FromNone<K(!new), V>(cmp: (K, K) -> int, s: seq<Pair<K, V>>, k: K)
    requires AllBelow(cmp, s, k)
    ensures From(cmp, s, Some(k)) == []
  {
    hide Place;
  }

  lemma FlatNone<K, V>()
    ensures Flat<K, V>([]) == []
  {
  }

  lemma FromMiddle<K(!new), V>(
      cmp: (K, K) -> int, a: seq<Pair<K, V>>, b: seq<Pair<K, V>>, c: seq<Pair<K, V>>, low: Option<K>)
    requires if low.None? then a == [] else AllBelow(cmp, a, low.value) && AllAbove(cmp, c, low.value)
    ensures From(cmp, a + b + c, low) == From(cmp, b, low) + c
  {
    hide Place, Found;
    if low.None? {
      assert a + b + c == b + c;
    } else {
      PlaceInMiddle(cmp, a, b, c, low.value);
      DropInMiddle(a, b, c, Place(cmp, b, low.value));
    }
  }

  lemma DropInMiddle<T>(a: seq<T>, b: seq<T>, c: seq<T>, n: nat)
    requires n <= |b|
    ensures (a + b + c)[|a| + n..] == b[n..] + c
  {
  }

  /** A level at its last sibling has nothing more to offer. */
  lemma RestExhausted<K, V>(levels: seq<seq<Tree<K, V>>>, index: seq<int>, level: nat)
    requires InLevels(levels, index, level) && level < |levels| && index[level] + 1 == |levels[level]|
    ensures InLevels(levels, index[level := index[level] + 1], level + 1)
    ensures Rest(levels, index[level := index[level] + 1], level + 1) == Rest(levels, index, level)
  {
    RestSame(levels, index, levels, index[level := index[level] + 1], level + 1);
  }

  /** A level that moves to its next sibling offers what is under it, and then the rest. */
  lemma RestNext<K, V>(levels: seq<seq<Tree<K, V>>>, index: seq<int>, level: nat)
    requires InLevels(levels, index, level) && level < |levels| && index[level] + 1 < |levels[level]|
    ensures InLevels(levels, index[level := index[level] + 1], level)
    ensures Rest(levels, index, level) == Contents(levels[level][index[level] + 1])
      + Rest(levels, index[level := index[level] + 1], level)
  {
    hide Flat, Contents;
    var index' := index[level := index[level] + 1];
    RestSame(levels, index, levels, index', level + 1);
    FlatFrom(levels[level], index[level] + 1);
  }

  lemma FlatFrom<K, V>(ts: seq<Tree<K, V>>, i: nat)
    requires i < |ts|
    ensures Flat(ts[i..]) == Contents(ts[i]) + Flat(ts[i + 1..])
  {
    hide Contents;
    assert ts[i..][1..] == ts[i + 1..];
  }

  /** Going down: what is under a node is what is under its first child, and under that child's siblings. */
  lemma RestDescend<K, V>(levels: seq<seq<Tree<K, V>>>, index: seq<int>, level: nat, cs: seq<Tree<K, V>>)
    requires InLevels(levels, index, level) && 0 < level < |levels| && |cs| > 0
    requires levels[level][index[level]] == Inner(cs)
    ensures InLevels(levels[level - 1 := cs], index[level - 1 := 0], level - 1)
    ensures Contents(cs[0]) + Rest(levels[level - 1 := cs], index[level - 1 := 0], level - 1)
      == Contents(levels[level][index[level]]) + Rest(levels, index, level)
  {
    RestSame(levels, index, levels[level - 1 := cs], index[level - 1 := 0], level);
  }

  // ---------------------------------------------------------------- findPath

  /** A list of sibling nodes at that height, and what they mean. */
  ghost predicate Siblings<K(!new), V>(ns: seq<Node<K, V>>, ts: seq<Tree<K, V>>, all: set<Node<K, V>>, max: nat, h: int)
    reads all
  {
    && |ns| == |ts| && h >= 0
    && forall j :: 0 <= j < |ns| ==> ns[j] in all && ns[j].height == h && ns[j].tree == ts[j] && Shape(ts[j], max, h)
  }

  lemma ChildrenAreSiblings<K(!new), V>(n: Node<K, V>, all: set<Node<K, V>>, max: nat)
    requires n in all && n.Local(all, max) && !n.isLeaf
    ensures Siblings(n.children, n.tree.children, all, max, n.height - 1) && |n.children| > 0
    ensures forall i {:trigger n.children[i]} ::
      0 <= i < |n.children| ==> n.children[i] in all && n.HasChild(i, n.children[i], max)
  {
    forall j | 0 <= j < |n.children|
      ensures n.HasChild(j, n.children[j], max) && Shape(n.tree.children[j], max, n.height - 1)
    {
      assert n.HasChild(j, n.children[j], max);
    }
  }

  /** Not all keys of the tree are below the key. */
  ghost predicate Reaches<K(!new), V>(cmp: (K, K) -> int, t: Tree<K, V>, key: Option<K>, max: nat, h: nat) {
    key.Some? ==> Shape(t, max, h) && cmp(MaxKey(t, max, h), key.value) >= 0
  }

  /** On the way down from a tree that holds s: t is the node reached, and levels and index are the way to it. */
  ghost predicate Descended<K(!new), V>(cmp: (K, K) -> int, s: seq<Pair<K, V>>, key: Option<K>, t: Tree<K, V>,
      levels: seq<seq<Tree<K, V>>>, index: seq<int>, max: nat, h: nat)
  {
    && InLevels(levels, index, 0) && RootShape(t, max, h) && Sorted(cmp, Contents(t))
    && From(cmp, s, key) == From(cmp, Contents(t), key) + RestDown(levels, index, |levels|)
    && (|levels| > 0 ==> Reaches(cmp, t, key, max, h))
  }

  lemma DescendStart<K(!new), V>(cmp: (K, K) -> int, t: Tree<K, V>, key: Option<K>, max: nat, h: nat)
    requires RootShape(t, max, h) && Sorted(cmp, Contents(t))
    ensures Descended(cmp, Contents(t), key, t, [], [], max, h)
  {
  }

  lemma DescendedSorted<K(!new), V>(cmp: (K, K) -> int, s: seq<Pair<K, V>>, key: Option<K>, t: Tree<K, V>,
      levels: seq<seq<Tree<K, V>>>, index: seq<int>, max: nat, h: nat)
    requires Descended(cmp, s, key, t, levels, index, max, h)
    ensures Sorted(cmp, Contents(t))
  {
  }

  lemma AllLocal<K(!new), V>(n: Node<K, V>, all: set<Node<K, V>>, max: nat)
    requires n in all && Coherent(all, max)
    ensures n.Local(all, max)
  {
  }

  lemma ValidRoot<K(!new), V>(t: BTree<K, V>)
    requires t.Valid()
    ensures RootShape(t.root.tree, t.maxNodeSize, t.root.height) && Sorted(t.compare, Contents(t.root.tree))
  {
  }

  lemma DescendStep<K(!new), V>(cmp: (K, K) -> int, s: seq<Pair<K, V>>, key: Option<K>, cs: seq<Tree<K, V>>,
      levels: seq<seq<Tree<K, V>>>, index: seq<int>, i: nat, max: nat, h: nat)
    requires TotalOrder(cmp) && h > 0 && Descended(cmp, s, key, Inner(cs), levels, index, max, h)
    requires i == if key.None? then 0 else Rank(cmp, MaxKeys(cs, max, h - 1), key.value)
    ensures if i == |cs| then From(cmp, s, key) == []
      else Descended(cmp, s, key, cs[i], levels + [cs], index + [i], max, h - 1)
  {
    hide Contents, Flat, MaxKey, Shape, Sorted, From, Place, RestDown, InLevels;
    AboutInner(cs, max, h);
    FromChild(cmp, cs, key, i, max, h - 1);
    if i == |cs| {
      assert |levels| == 0;
      NothingBelow(levels, index);
    } else {
      RestDownMore(levels, index, cs, i);
      ChildSorted(cmp, cs, i);
    }
  }

  lemma AboutInner<K, V>(cs: seq<Tree<K, V>>, max: nat, h: nat)
    requires RootShape(Inner(cs), max, h)
    ensures Contents(Inner(cs)) == Flat(cs) && h > 0 && 0 < |cs| && Shapes(cs, max, h - 1)
    ensures Shape(Inner(cs), max, h) && MaxKey(Inner(cs), max, h) == MaxKey(cs[|cs| - 1], max, h - 1)
  {
  }

  lemma NothingBelow<K, V>(levels: seq<seq<Tree<K, V>>>, index: seq<int>)
    requires InLevels(levels, index, 0) && |levels| == 0
    ensures RestDown(levels, index, |levels|) == []
  {
  }

  lemma DescendEnd<K(!new), V>(cmp: (K, K) -> int, s: seq<Pair<K, V>>, key: Option<K>, t: Tree<K, V>,
      levels: seq<seq<Tree<K, V>>>, index: seq<int>, max: nat, h: nat)
    requires Descended(cmp, s, key, t, levels, index, max, h)
    ensures InLevels(Reversed(levels), Reversed(index), 0) && Sorted(cmp, Contents(t))
    ensures From(cmp, s, key) == From(cmp, Contents(t), key) + Rest(Reversed(levels), Reversed(index), 0)
  {
    RestReversed(levels, index, |levels|);
  }

  /** The lists of siblings from below a node of that height down. */
  ghost predicate LevelsDown<K(!new), V>(
      queue: seq<seq<Node<K, V>>>, levels: seq<seq<Tree<K, V>>>, all: set<Node<K, V>>, max: nat, h: nat)
    reads all
  {
    |queue| == |levels| <= h && forall d :: 0 <= d < |queue| ==> Siblings(queue[d], levels[d], all, max, h - 1 - d)
  }

  /** The lists of siblings from the leaves up. */
  ghost predicate LevelsUp<K(!new), V>(
      queue: seq<seq<Node<K, V>>>, levels: seq<seq<Tree<K, V>>>, all: set<Node<K, V>>, max: nat)
    reads all
  {
    |queue| == |levels| && forall l :: 0 <= l < |queue| ==> Siblings(queue[l], levels[l], all, max, l)
  }

  lemma LevelsUpLengths<K(!new), V>(
      queue: seq<seq<Node<K, V>>>, levels: seq<seq<Tree<K, V>>>, all: set<Node<K, V>>, max: nat)
    requires LevelsUp(queue, levels, all, max)
    ensures |queue| == |levels| && forall l :: 0 <= l < |queue| ==> |queue[l]| == |levels[l]|
  {
  }

  lemma LevelsUpAt<K(!new), V>(
      queue: seq<seq<Node<K, V>>>, levels: seq<seq<Tree<K, V>>>, all: set<Node<K, V>>, max: nat, l: nat, i: int)
    requires LevelsUp(queue, levels, all, max) && l < |levels| && 0 <= i < |levels[l]|
    ensures l < |queue| && i < |queue[l]|
    ensures var n := queue[l][i]; n in all && n.height == l && n.tree == levels[l][i] && Shape(n.tree, max, l)
  {
  }

  lemma LevelsUpWith<K(!new), V>(queue: seq<seq<Node<K, V>>>, levels: seq<seq<Tree<K, V>>>, all: set<Node<K, V>>,
      max: nat, l: nat, ns: seq<Node<K, V>>, ts: seq<Tree<K, V>>)
    requires LevelsUp(queue, levels, all, max) && l < |levels| && Siblings(ns, ts, all, max, l)
    ensures |queue| == |levels| && LevelsUp(queue[l := ns], levels[l := ts], all, max)
  {
  }

  lemma AboutLeaf<K, V>(t: Tree<K, V>, max: nat, h: nat)
    requires t.Leaf? && Shape(t, max, h)
    ensures Contents(t) == t.entries[0..] && |t.entries| > 0
  {
  }

  lemma NothingLeft<K, V>(levels: seq<seq<Tree<K, V>>>, index: seq<int>)
    requires |levels| == |index|
    ensures Rest(levels, index, |levels|) == []
  {
  }

  lemma NoLevels<K(!new), V>(all: set<Node<K, V>>, max: nat, h: nat)
    ensures LevelsDown<K, V>([], [], all, max, h)
  {
  }

  lemma LevelsDownMore<K(!new), V>(queue: seq<seq<Node<K, V>>>, levels: seq<seq<Tree<K, V>>>, ns: seq<Node<K, V>>,
      ts: seq<Tree<K, V>>, all: set<Node<K, V>>, max: nat, h: nat)
    requires LevelsDown(queue, levels, all, max, h) && |queue| < h && Siblings(ns, ts, all, max, h - 1 - |queue|)
    ensures LevelsDown(queue + [ns], levels + [ts], all, max, h)
  {
  }

  lemma LevelsReversed<K(!new), V>(
      queue: seq<seq<Node<K, V>>>, levels: seq<seq<Tree<K, V>>>, all: set<Node<K, V>>, max: nat, h: nat)
    requires LevelsDown(queue, levels, all, max, h) && |queue| == h
    ensures LevelsUp(Reversed(queue), Reversed(levels), all, max)
  {
    forall l | 0 <= l < |queue| ensures Siblings(Reversed(queue)[l], Reversed(levels)[l], all, max, l) {
      assert Siblings(queue[h - 1 - l], levels[h - 1 - l], all, max, h - 1 - (h - 1 - l));
    }
  }

  datatype Path<K(!new), V> = Path(nodequeue: seq<seq<Node<K, V>>>, nodeindex: seq<int>, leaf: Node<K, V>)

  /** The path to the leaf where the iteration from key starts, bottom-up; none if every key is below it. */
  method FindPath<K(!new), V>(t: BTree<K, V>, key: Option<K>, ghost all: set<Node<K, V>>)
    returns (path: Option<Path<K, V>>, ghost levels: seq<seq<Tree<K, V>>>)
    requires t.root in all && Coherent(all, t.maxNodeSize) && t.Valid() && TotalOrder(t.compare)
    ensures path.None? ==> From(t.compare, t.Pairs(), key) == []
    ensures path.Some? ==>
      && InLevels(levels, path.value.nodeindex, 0) && |path.value.nodequeue| == |levels|
      && LevelsUp(path.value.nodequeue, levels, all, t.maxNodeSize)
      && path.value.leaf in all && path.value.leaf.isLeaf && Sorted(t.compare, Contents(path.value.leaf.tree))
      && From(t.compare, t.Pairs(), key) == From(t.compare, Contents(path.value.leaf.tree), key)
        + Rest(levels, path.value.nodeindex, 0)
  {
    hide InLevels, Rest, HalfFull, Shape, RootShape, Sorted, MaxKey, Descended, Coherent, Siblings, From, Contents,
      LevelsDown, LevelsUp, Reversed;
    var max := t.maxNodeSize;
    var next := t.root;
    var queue: seq<seq<Node<K, V>>>, index: seq<int> := [], [];
    levels := [];
    AllLocal(next, all, max);
    ValidRoot(t);
    assert LevelsDown(queue, levels, all, max, t.root.height) by {
      NoLevels(all, max, t.root.height);
    }
    DescendStart(t.compare, t.root.tree, key, max, t.root.height);
    while !next.isLeaf
      invariant next in all && next.Local(all, max) && next.height <= t.root.height
      invariant |queue| == t.root.height - next.height && LevelsDown(queue, levels, all, max, t.root.height)
      invariant Descended(t.compare, t.Pairs(), key, next.tree, levels, index, max, next.height)
      decreases next.height
    {
      var i := Entered(t, key, next, all, levels, index);
      if i >= |next.children| {
        return None, levels;
      }
      LevelsDownMore(queue, levels, next.children, next.tree.children, all, max, t.root.height);
      queue, index, levels := queue + [next.children], index + [i], levels + [next.tree.children];
      next := next.children[i];
    }
    DescendEnd(t.compare, t.Pairs(), key, next.tree, levels, index, max, next.height);
    LevelsReversed(queue, levels, all, max, t.root.height);
    levels := Reversed(levels);
    path := Some(Path(Reversed(queue), Reversed(index), next));
  }

  /** Where the descent goes on: at the first child, or at the first whose greatest key is not below the key. */
  method Entered<K(!new), V>(t: BTree<K, V>, key: Option<K>, n: Node<K, V>, ghost all: set<Node<K, V>>,
      ghost levels: seq<seq<Tree<K, V>>>, ghost index: seq<int>) returns (i: nat)
    requires n in all && n.Local(all, t.maxNodeSize) && Coherent(all, t.maxNodeSize) && !n.isLeaf
    requires TotalOrder(t.compare)
    requires Descended(t.compare, t.Pairs(), key, n.tree, levels, index, t.maxNodeSize, n.height)
    ensures i <= |n.children| == |n.tree.children|
    ensures Siblings(n.children, n.tree.children, all, t.maxNodeSize, n.height - 1)
    ensures i == |n.children| ==> From(t.compare, t.Pairs(), key) == []
    ensures i < |n.children| ==>
      && n.children[i] in all && n.children[i].Local(all, t.maxNodeSize) && n.children[i].height == n.height - 1
      && Descended(t.compare, t.Pairs(), key, n.children[i].tree, levels + [n.tree.children], index + [i],
        t.maxNodeSize, n.height - 1)
  {
    hide Coherent, Descended, Sorted, From, Contents, Flat, MaxKey, Shape, HalfFull, Rank, Siblings, Reaches;
    DescendedSorted(t.compare, t.Pairs(), key, n.tree, levels, index, t.maxNodeSize, n.height);
    ChildrenAreSiblings(n, all, t.maxNodeSize);
    i := 0;
    if key.Some? {
      i := n.FirstChildFor(key.value, t, all);
    }
    DescendStep(t.compare, t.Pairs(), key, n.tree.children, levels, index, i, t.maxNodeSize, n.height);
    if i < |n.children| {
      AllLocal(n.children[i], all, t.maxNodeSize);
    }
  }

  // ---------------------------------------------------------------- entries

  /** The iterator that entries returns. The states are the source's: 0 on a leaf, 2 to go to the next leaf, 3 done. */
  class Entries<K(!new), V> {
    var nodequeue: seq<seq<Node<K, V>>>
    var nodeindex: seq<int>
    var leaf: Node?<K, V>
    var i: int
    var state: nat

    ghost var levels: seq<seq<Tree<K, V>>>
    ghost const all: set<Node<K, V>>
    ghost const max: nat

    ghost predicate Valid()
      reads this, all
    {
      && Coherent(all, max) && LevelsUp(nodequeue, levels, all, max) && state in {0, 2, 3}
      && (state != 3 ==> InLevels(levels, nodeindex, 0) && OnLeaf(leaf) && -1 <= i)
      && (state == 0 ==> i < |leaf.keys|)
    }

    ghost predicate OnLeaf(n: Node?<K, V>)
      reads all
    {
      n != null && n in all && n.Local(all, max) && n.isLeaf
    }

    /** What is still to come. */
    ghost function Remaining(): seq<Pair<K, V>>
      requires Valid()
      reads this, all
    {
      if state == 3 then []
      else (if state == 0 then leaf.tree.entries[i + 1..] else []) + Rest(levels, nodeindex, 0)
    }

    constructor (path: Option<Path<K, V>>, i: int, ghost levels: seq<seq<Tree<K, V>>>, ghost all: set<Node<K, V>>,
        ghost max: nat)
      requires Coherent(all, max)
      requires path.Some? ==>
        InLevels(levels, path.value.nodeindex, 0) && LevelsUp(path.value.nodequeue, levels, all, max)
      requires path.Some? ==> path.value.leaf in all && path.value.leaf.isLeaf && -1 <= i < |path.value.leaf.keys|
      ensures Valid() && this.all == all && this.max == max
      ensures path.None? ==> Remaining() == []
      ensures path.Some? ==>
        path.value.leaf.Local(all, max) && Remaining()
        == path.value.leaf.tree.entries[i + 1..] + Rest(levels, path.value.nodeindex, 0)
    {
      this.all, this.max, this.i := all, max, i;
      if path.None? {
        nodequeue, nodeindex, leaf, state, this.levels := [], [], null, 3, [];
      } else {
        nodequeue, nodeindex, leaf, state, this.levels :=
          path.value.nodequeue, path.value.nodeindex, path.value.leaf, 0, levels;
      }
      new;
      assert path.Some? ==> path.value.leaf.Local(all, max);
    }

    /** Yields the next pair, or none at the end and ever after. */
    method Next() returns (r: Option<Pair<K, V>>)
      requires Valid()
      modifies this
      ensures Valid()
      ensures if old(Remaining()) == [] then r == None && Remaining() == []
        else r == Some(old(Remaining())[0]) && Remaining() == old(Remaining())[1..]
    {
      hide Rest, LevelsUp, InLevels, Coherent, OnLeaf;
      while true
        invariant Valid() && Remaining() == old(Remaining())
        decreases if state == 3 then 0 else if state == 2 then 2 else if leaf != null && i + 1 < |leaf.keys| then 1
          else 3
      {
        if state == 0 {
          r := NextEntry();
          if r.Some? {
            return;
          }
        } else if state == 2 {
          NextLeaf();
        } else {
          r := None;
          return;
        }
      }
    }

    method NextEntry() returns (r: Option<Pair<K, V>>)
      requires Valid() && state == 0
      modifies this`i, this`state
      ensures Valid()
      ensures r.Some? ==>
        |old(Remaining())| > 0 && r.value == old(Remaining())[0] && Remaining() == old(Remaining())[1..]
      ensures r.None? ==> leaf != null && old(i) + 1 >= |leaf.keys| && state == 2 && Remaining() == old(Remaining())
    {
      hide Rest, LevelsUp, InLevels, Coherent;
      i := i + 1;
      if i < |leaf.keys| {
        r := Some(Pair(leaf.keys[i], leaf.values[i]));
      } else {
        r := None;
        state := 2;
      }
    }

    /** The lowest level that has a next sibling moves on to it, and the levels below start from its first child. */
    method NextLeaf()
      requires Valid() && state == 2
      modifies this
      ensures Valid() && Remaining() == old(Remaining())
      ensures state == 3 || (state == 0 && i == -1 && leaf != null && |leaf.keys| > 0)
    {
      var level := NextSibling();
      if level < |nodequeue| {
        FirstLeafUnder(level);
      }
    }

    method NextSibling() returns (level: nat)
      requires Valid() && state == 2
      modifies this`nodeindex, this`state
      ensures level <= |nodequeue| && Valid'(level)
      ensures level == |nodequeue| ==> state == 3 && old(Remaining()) == []
      ensures level < |nodequeue| ==>
        && state == 2
        && old(Remaining()) == Contents(levels[level][nodeindex[level]]) + Rest(levels, nodeindex, level)
    {
      hide Rest, Contents, Flat, Coherent, LevelsUp;
      level := 0;
      LevelsUpLengths(nodequeue, levels, all, max);
      while level < |nodequeue|
        invariant level <= |nodequeue| && Valid'(level) && state == 2
        invariant Rest(levels, nodeindex, level) == old(Remaining())
      {
        ghost var was := nodeindex;
        nodeindex := nodeindex[level := nodeindex[level] + 1];
        if nodeindex[level] < |nodequeue[level]| {
          RestNext(levels, was, level);
          return;
        }
        RestExhausted(levels, was, level);
        level := level + 1;
      }
      NothingLeft(levels, nodeindex);
      state := 3;
    }

    /** Valid, with the levels below that one left behind. */
    ghost predicate Valid'(level: nat)
      reads this, all
    {
      Coherent(all, max) && LevelsUp(nodequeue, levels, all, max) && InLevels(levels, nodeindex, level)
    }

    method FirstLeafUnder(from: nat)
      requires from < |nodequeue| && Valid'(from)
      modifies this
      ensures Valid() && Remaining() == old(Contents(levels[from][nodeindex[from]]) + Rest(levels, nodeindex, from))
      ensures state == 0 && i == -1 && |leaf.keys| > 0
    {
      hide Rest, Contents, Flat, LevelsUp;
      LevelsUpLengths(nodequeue, levels, all, max);
      ghost var offer := Contents(levels[from][nodeindex[from]]) + Rest(levels, nodeindex, from);
      var level: nat := from;
      while level > 0
        invariant level < |nodequeue| == |levels| && Valid'(level)
        invariant Contents(levels[level][nodeindex[level]]) + Rest(levels, nodeindex, level) == offer
      {
        LevelsUpAt(nodequeue, levels, all, max, level, nodeindex[level]);
        var n := nodequeue[level][nodeindex[level]];
        assert n.Local(all, max);
        ChildrenAreSiblings(n, all, max);
        RestDescend(levels, nodeindex, level, n.tree.children);
        LevelsUpWith(nodequeue, levels, all, max, level - 1, n.children, n.tree.children);
        levels := levels[level - 1 := n.tree.children];
        nodequeue, nodeindex := nodequeue[level - 1 := n.children], nodeindex[level - 1 := 0];
        level := level - 1;
      }
      LevelsUpAt(nodequeue, levels, all, max, 0, nodeindex[0]);
      leaf := nodequeue[0][nodeindex[0]];
      assert leaf.Local(all, max);
      AboutLeaf(leaf.tree, max, 0);
      i := -1;
      state := 0;
    }
  }

  /** BTree.entries: an iterator that yields the pairs from lowestKey on. */
  method EntriesFrom<K(!new), V>(t: BTree<K, V>, lowestKey: Option<K>, ghost all: set<Node<K, V>>)
      returns (it: Entries<K, V>)
    requires t.root in all && Coherent(all, t.maxNodeSize) && t.Valid() && TotalOrder(t.compare)
    ensures fresh(it) && it.Valid() && it.Remaining() == From(t.compare, t.Pairs(), lowestKey)
  {
    hide HalfFull, RootShape, Shape, Rest, LevelsUp, InLevels, Place, Coherent;
    ghost var levels;
    var path;
    path, levels := FindPath(t, lowestKey, all);
    var i: int := -1;
    if path.Some? && lowestKey.Some? {
      AllLocal(path.value.leaf, all, t.maxNodeSize);
      var place: int := path.value.leaf.SearchLeaf(lowestKey.value, t.compare, all, t.maxNodeSize);
      i := place - 1;
    }
    it := new Entries(path, i, levels, all, t.maxNodeSize);
  }

  /** The pair with the least key above k. */
  ghost predicate IsNextHigher<K(!new), V>(cmp: (K, K) -> int, s: seq<Pair<K, V>>, k: K, r: Option<Pair<K, V>>) {
    match r
    case None => forall p <- s :: cmp(p.key, k) <= 0
    case Some(q) => q in s && cmp(q.key, k) > 0 && forall p <- s ::
      cmp(p.key, k) > 0 ==> p == q || cmp(q.key, p.key) < 0
  }

  /** BTree.nextHigherPair. */
  method NextHigherPair<K(!new), V>(t: BTree<K, V>, key: K, ghost all: set<Node<K, V>>) returns (r: Option<Pair<K, V>>)
    requires t.root in all && Coherent(all, t.maxNodeSize) && t.Valid() && TotalOrder(t.compare)
    ensures IsNextHigher(t.compare, t.Pairs(), key, r)
  {
    hide IsNextHigher, From, Coherent, TotalOrder;
    AboveIsFirstOrSecond(t, key);
    var it := EntriesFrom(t, Some(key), all);
    ghost var rest := it.Remaining();
    r := it.Next();
    if r.Some? && t.compare(r.value.key, key) <= 0 {
      r := it.Next();
    }
  }

  /** Of the pairs from the key on, the one with the least key above it is the first or the second. */
  lemma AboveIsFirstOrSecond<K(!new), V>(t: BTree<K, V>, key: K)
    requires t.Valid() && TotalOrder(t.compare)
    ensures var rest := From(t.compare, t.Pairs(), Some(key));
      var above := if rest != [] && t.compare(rest[0].key, key) <= 0 then rest[1..] else rest;
      IsNextHigher(t.compare, t.Pairs(), key, if above == [] then None else Some(above[0]))
  {
    hide IsNextHigher;
    FirstAbove(t.compare, t.Pairs(), key);
  }

  /** The pair after k is the one where what is above k begins. */
  lemma FirstAbove<K(!new), V>(cmp: (K, K) -> int, s: seq<Pair<K, V>>, k: K)
    requires TotalOrder(cmp) && Sorted(cmp, s)
    ensures IsNextHigher(cmp, s, k, if PlaceAfter(cmp, s, k) < |s| then Some(s[PlaceAfter(cmp, s, k)]) else None)
  {
    var n := PlaceAfter(cmp, s, k);
    forall i | 0 <= i < |s| ensures i < n ==> cmp(s[i].key, k) <= 0 {
    }
    AboveAfterPlace(cmp, s, k);
  }
}
