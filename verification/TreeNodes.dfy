/** The nodes of the B+ tree as the source has them: objects whose arrays are edited in place,
    which several trees may share until one of them is changed.

    Two ghost fields carry the argument. `tree` is what a node means as a value; `parent` is the
    only node that refers to this one as long as it is not shared. Sharing is sound because a
    node is written only when it is not shared and was reached through nodes that are not. */
module TreeNodes {
  import opened Options
  import opened SortedPairs
  import opened TreeSpec

  ghost function Zip<K, V>(ks: seq<K>, vs: seq<V>): (s: seq<Pair<K, V>>)
    requires |ks| == |vs|
    ensures |s| == |ks| && forall i :: 0 <= i < |ks| ==> s[i] == Pair(ks[i], vs[i])
  {
    seq(|ks|, i requires 0 <= i < |ks| => Pair(ks[i], vs[i]))
  }

  /** Inserting and then cutting is cutting and then inserting in one of the halves. */
  lemma SpliceThenCut<T>(s: seq<T>, i: nat, half: nat, x: T)
    requires i <= |s| && half <= |s|
    ensures i > half ==>
      && Splice(s, i, i, [x])[..half] == s[..half]
      && Splice(s, i, i, [x])[half..] == Splice(s[half..], i - half, i - half, [x])
    ensures i <= half ==>
      && Splice(s, i, i, [x])[..half + 1] == Splice(s[..half], i, i, [x])
      && Splice(s, i, i, [x])[half + 1..] == s[half..]
  {
  }

  /** What a full node and its new right sibling hold once r, to go after child i, is in the half it belongs in. */
  ghost function LeftPart<K, V>(cs: seq<Tree<K, V>>, i: nat, r: Tree<K, V>): Tree<K, V>
    requires i < |cs|
  {
    var half := |cs| / 2;
    Inner(if i + 1 >= half then cs[..half] else Splice(cs[..half], i + 1, i + 1, [r]))
  }

  ghost function RightPart<K, V>(cs: seq<Tree<K, V>>, i: nat, r: Tree<K, V>): Tree<K, V>
    requires i < |cs|
  {
    var half := |cs| / 2;
    Inner(if i + 1 >= half then Splice(cs[half..], i + 1 - half, i + 1 - half, [r]) else cs[half..])
  }

  lemma PartsAfterSplit<K(!new), V>(cs: seq<Tree<K, V>>, i: nat, r: Tree<K, V>, max: nat)
    requires i < |cs| && |cs| >= max && |cs| >= 2
    ensures SplitChild(cs, i, cs[i], r, max) == Split(LeftPart(cs, i, r), RightPart(cs, i, r))
  {
    SplitChildInSteps(cs, i, cs[i], r, max);
    assert cs[i := cs[i]] == cs;
    if i + 1 >= |cs| / 2 {
      var half := |cs| / 2;
      assert Splice(cs, i + 1, i + 1, [r])[..half] == cs[..half];
      assert Splice(cs, i + 1, i + 1, [r])[half..] == Splice(cs[half..], i + 1 - half, i + 1 - half, [r]);
    } else {
      SpliceThenCut(cs, i + 1, |cs| / 2, r);
    }
  }

  /** Every node up to a height agrees with its children. */
  ghost predicate Agree<K(!new), V>(all: set<Node<K, V>>, max: nat, h: nat)
    reads all
  {
    forall n {:trigger n.Local(all, max)} :: n in all && n.height <= h ==> n.Local(all, max)
  }

  /** What an edit of the tree under `top` may do to a node: nothing, unless it is top itself or an
      unshared node below it. Marking a node shared is always allowed. */
  twostate predicate Kept<K(!new), V>(n: Node<K, V>)
    reads n
  {
    && KeptInside(n)
    && n.parent == old(n.parent) && n.holder == old(n.holder)
    && (old(n.isShared) ==> n.isShared)
  }

  twostate predicate KeptInside<K(!new), V>(n: Node<K, V>)
    reads n
  {
    && n.keys == old(n.keys) && n.values == old(n.values)
    && n.children == old(n.children) && n.tree == old(n.tree)
  }

  /** What an edit of the tree under a node of that height may write besides the node: nodes further down that
      are some node's own. Nodes that are shared, and other trees' roots, are not among them. */
  ghost function Below<K(!new), V>(all: set<Node<K, V>>, h: nat): set<Node<K, V>>
    reads all
  {
    set n | n in all && n.height < h && !n.isShared && n.parent != null
  }

  /** Nodes may become shared but never stop being so; from a height up they stay as they are. */
  twostate predicate SharedKept<K(!new), V>(all: set<Node<K, V>>, h: nat)
    reads all
  {
    forall n <- all :: (old(n.isShared) ==> n.isShared) && (n.height >= h ==> n.isShared == old(n.isShared))
  }

  /** The nodes up to a height, but for some. */
  ghost function UpTo<K(!new), V>(all: set<Node<K, V>>, h: nat, except: set<Node<K, V>>): set<Node<K, V>> {
    set n | n in all && n.height <= h && n !in except
  }

  /** Changes to nodes that are no child of ns, or some other node's alone, do not disturb ns. */
  twostate lemma Undisturbed<K(!new), V>(
      new ns: set<Node<K, V>>, new touched: set<Node<K, V>>, new all: set<Node<K, V>>, new all': set<Node<K, V>>,
      max: nat)
    requires old(allocated(ns) && allocated(touched) && allocated(all))
    requires ns <= all <= all'
    requires forall n <- ns :: old(n.Local(all, max)) && KeptInside(n)
    requires forall m <- all :: m !in touched ==> Kept(m)
    requires forall m <- touched, n <- ns :: n.height == m.height + 1 ==> !old(m.isShared) && old(m.parent) != n
    ensures forall n <- ns :: n.Local(all', max)
  {
    forall n, i | n in ns && 0 <= i < |n.children|
      ensures old(n.HasChild(i, n.children[i], max)) && Kept(n.children[i])
    {
      assert old(n.HasChild(i, n.children[i], max));
    }
  }

  /** When only top, two of its own children and what is below them have changed, and these three agree with
      their children again, all nodes agree. */
  twostate lemma AgreeAround<K(!new), V>(
      new top: Node<K, V>, new a: Node<K, V>, new b: Node<K, V>, new all: set<Node<K, V>>, max: nat)
    requires old(allocated(top) && allocated(a) && allocated(b) && allocated(all))
    requires top in all && a in all && b in all && old(Agree(all, max, top.height))
    requires top.Local(all, max) && a.Local(all, max) && b.Local(all, max)
    requires a.height == top.height - 1 && b.height == top.height - 1
    requires old(!a.isShared && a.parent == top && !b.isShared && b.parent == top)
    requires forall n <- all :: n != top && n != a && n != b ==> KeptInside(n)
    requires forall n <- all ::
      n != top && n != a && n != b ==> Kept(n) || (n.height < a.height && !old(n.isShared) && old(n.parent) == b)
    ensures Agree(all, max, top.height)
  {
    var moved := set n | n in all && !old(n.isShared) && old(n.parent) == b;
    Undisturbed(UpTo(all, top.height, {top, a, b}), {top, a, b} + moved, all, all, max);
  }

  /** A copy agrees with the children it has in common with the original, all of them now shared. */
  twostate lemma LocalCopied<K(!new), V>(
      new n: Node<K, V>, new c: Node<K, V>, new all: set<Node<K, V>>, new all': set<Node<K, V>>, max: nat)
    requires old(allocated(n) && allocated(all))
    requires old(n.Local(all, max)) && Kept(n) && all <= all'
    requires forall i :: 0 <= i < |n.children| ==> Kept(n.children[i]) && n.children[i].isShared
    requires c.isLeaf == n.isLeaf && c.height == n.height && c.tree == n.tree
    requires c.keys == n.keys && c.values == n.values && c.children == n.children
    ensures c.Local(all', max)
  {
    forall i | 0 <= i < |c.children| ensures c.HasChild(i, c.children[i], max) {
      assert old(n.HasChild(i, n.children[i], max));
    }
  }

  /** A node agrees with its children after a new one, meaning the same, has taken the place of one of them. */
  twostate lemma LocalReplaced<K(!new), V>(
      new n: Node<K, V>, new i: nat, new c: Node<K, V>, new all: set<Node<K, V>>, new all': set<Node<K, V>>, max: nat)
    requires old(allocated(n) && allocated(all))
    requires old(n.Local(all, max)) && all <= all' && i < old(|n.children|)
    requires n.keys == old(n.keys) && n.values == old(n.values) && n.tree == old(n.tree)
    requires n.children == old(n.children)[i := c]
    requires forall j :: 0 <= j < old(|n.children|) ==> Kept(old(n.children[j]))
    requires c in all' && c !in all && c.height == n.height - 1 && c.parent == n && c.tree == old(n.children[i].tree)
    ensures n.Local(all', max)
  {
    forall j | 0 <= j < |n.children| ensures n.HasChild(j, n.children[j], max) {
      assert old(n.HasChild(j, n.children[j], max));
    }
  }

  /** A node agrees with its children after child i has lent its first item to child i - 1. */
  twostate lemma LocalLent<K(!new), V>(new n: Node<K, V>, new i: nat, new all: set<Node<K, V>>, max: nat)
    requires old(allocated(n) && allocated(all))
    requires old(n.Local(all, max)) && n.children == old(n.children) && n.values == old(n.values)
    requires !n.isLeaf && 0 < i < |n.children| && n.children[i].tree.Size() > 0
    requires old(n.HasChild(i - 1, n.children[i - 1], max) && n.HasChild(i, n.children[i], max))
    requires 1 < old(n.children[i].tree.Size()) && old(n.children[i - 1].tree.Size()) < max
    requires old(n.children[i - 1].tree.Leaf?) == old(n.children[i].tree.Leaf?)
    requires (n.children[i - 1].tree, n.children[i].tree)
      == Shifted(old(n.children[i - 1].tree), old(n.children[i].tree))
    requires n.tree == Inner(ShiftLeft(old(n.tree).children, i, max, n.height - 1))
    requires n.keys == old(n.keys)[i - 1 := FirstKey(old(n.children[i].tree), max, n.height - 1)]
    requires old(!n.children[i - 1].isShared && !n.children[i].isShared)
    requires n.children[i - 1].parent == n && n.children[i].parent == n
    requires !n.children[i - 1].isShared && !n.children[i].isShared
    requires forall m <- all :: m != n && m != n.children[i - 1] && m != n.children[i] ==>
      Kept(m) || (m.height < n.height - 1 && !old(m.isShared) && old(m.parent) == n.children[i])
    ensures n.Local(all, max)
  {
    assert old(n.HasChild(i - 1, n.children[i - 1], max) && n.HasChild(i, n.children[i], max));
    ShiftLeftShape(old(n.tree).children, i, max, n.height - 1);
    ShiftedMax(old(n.children[i - 1].tree), old(n.children[i].tree), max, n.height - 1);
    forall j | 0 <= j < |n.children| ensures n.HasChild(j, n.children[j], max) {
      assert old(n.HasChild(j, n.children[j], max));
      assert j != i && j != i - 1 ==> Kept(n.children[j]);
    }
  }

  /** A node agrees with its children after one was put in. */
  twostate lemma LocalInserted<K(!new), V>(
      new n: Node<K, V>, new at: nat, new c: Node<K, V>, new all: set<Node<K, V>>, max: nat)
    requires old(allocated(n) && allocated(c) && allocated(all))
    requires n in all && c in all && !n.isLeaf && old(n.Local(all, max)) && at <= old(|n.children|) < max
    requires c.height == n.height - 1 && !c.isShared && c.parent == n && old(c.parent) == null
    requires Shape(c.tree, max, n.height - 1)
    requires n.children == Splice(old(n.children), at, at, [c]) && n.values == old(n.values)
    requires n.keys == Splice(old(n.keys), at, at, [MaxKey(c.tree, max, n.height - 1)])
    requires n.tree == Inner(Splice(old(n.tree).children, at, at, [c.tree]))
    requires forall m <- all :: m.height < n.height && m != c ==> Kept(m)
    requires KeptInside(c) && old(!c.isShared)
    ensures n.Local(all, max)
  {
    forall k | 0 <= k < old(|n.children|) ensures old(n.children[k]) != c {
      assert old(n.HasChild(k, n.children[k], max));
    }
    forall j | 0 <= j < |n.children| ensures n.children[j] in all && n.HasChild(j, n.children[j], max) {
      var k := if j < at then j else j - 1;
      assert j != at ==> n.children[j] == old(n.children)[k] && old(n.HasChild(k, n.children[k], max));
    }
    forall j, k | 0 <= j < k < |n.children| && n.children[j] == n.children[k] ensures n.children[j].isShared {
      var j', k' := if j < at then j else j - 1, if k < at then k else k - 1;
      assert j != at ==> n.children[j] == old(n.children)[j'];
      assert k != at ==> n.children[k] == old(n.children)[k'];
    }
  }

  /** Both halves of a node that was cut in two agree with their children. */
  twostate lemma LocalHalves<K(!new), V>(
      new n: Node<K, V>, new r: Node<K, V>, new half: nat, new all: set<Node<K, V>>, new all': set<Node<K, V>>,
      max: nat)
    requires old(allocated(n) && allocated(all))
    requires !n.isLeaf && old(n.Local(all, max)) && 0 < half < old(|n.children|) && all <= all'
    requires !r.isLeaf && r.height == n.height && r.values == [] && n.values == old(n.values)
    requires n.children == old(n.children)[..half] && r.children == old(n.children)[half..]
    requires n.keys == old(n.keys)[..half] && r.keys == old(n.keys)[half..]
    requires n.tree == Inner(old(n.tree).children[..half]) && r.tree == Inner(old(n.tree).children[half..])
    requires forall c <- old(n.children) :: KeptInside(c) && c.isShared == old(c.isShared)
    requires forall c <- n.children :: c !in r.children ==> c.parent == old(c.parent)
    requires forall c <- r.children :: !c.isShared ==> c.parent == r
    ensures n.Local(all', max) && r.Local(all', max)
  {
    forall j | 0 <= j < half ensures n.children[j] in all' && n.HasChild(j, n.children[j], max) {
      assert n.children[j] == old(n.children)[j] && old(n.HasChild(j, n.children[j], max));
    }
    forall j | 0 <= j < |r.children| ensures r.children[j] in all' && r.HasChild(j, r.children[j], max) {
      assert r.children[j] == old(n.children)[half + j] && old(n.HasChild(half + j, n.children[half + j], max));
    }
  }

  /** All nodes agree but top, which has not yet taken notice of a change of its own child i. */
  ghost predicate AgreeButFor<K(!new), V>(top: Node<K, V>, i: nat, all: set<Node<K, V>>, max: nat)
    reads all
  {
    && top in all && i < |top.children|
    && top.LocalButFor(i, all, max)
    && forall n {:trigger n.Local(all, max)} :: n in all && n.height <= top.height && n != top ==> n.Local(all, max)
  }

  /** An edit of top's own child i leaves all other nodes in agreement. */
  twostate lemma ChildEdited<K(!new), V>(
      new top: Node<K, V>, new i: nat, new child: Node<K, V>, new all: set<Node<K, V>>, new all': set<Node<K, V>>,
      max: nat)
    requires old(allocated(top) && allocated(child) && allocated(all))
    requires child in all && !top.isLeaf && all <= all' && old(top.Settled(all, max))
    requires i < old(|top.children|) && child == old(top.children[i]) && old(!child.isShared && child.parent == top)
    requires old(top.HasChild(i, child, max))
    requires Agree(all', max, top.height - 1) && forall n <- all' :: n in all || n.height < top.height
    requires forall n <- all :: n != child && n !in old(Below(all, child.height)) ==> Kept(n)
    requires child.parent == top && !child.isShared
    ensures AgreeButFor(top, i, all', max)
  {
    assert Kept(top);
    forall j | 0 <= j < |top.children| && j != i
      ensures top.HasChild(j, top.children[j], max) && Kept(top.children[j])
    {
      var c := top.children[j];
      assert old(top.HasChild(j, c, max)) && c in all && c.height == child.height;
      assert c != child by {
        assert old(top.children[i]) == child && old(top.children[j]) == c;
      }
      assert Kept(c);
    }
    var level := set n | n in all && n.height == top.height && n != top;
    Undisturbed(level, {child} + old(Below(all, child.height)), all, all', max);
  }

  /** Once its separator and its meaning have followed child i, a node agrees with that child too. */
  twostate lemma LocalRenewed<K(!new), V>(new n: Node<K, V>, new i: nat, new all: set<Node<K, V>>, max: nat)
    requires old(allocated(n) && allocated(all))
    requires old(n.LocalButFor(i, all, max)) && n.children == old(n.children) && n.values == old(n.values)
    requires i < |n.children|
    requires forall m <- all :: m != n ==> Kept(m)
    requires Shape(n.children[i].tree, max, n.height - 1)
    requires n.tree == Inner(old(n.tree).children[i := n.children[i].tree])
    requires n.keys == old(n.keys)[i := MaxKey(n.children[i].tree, max, n.height - 1)]
    ensures n.Local(all, max)
  {
    forall j | 0 <= j < |n.children| ensures n.children[j] in all && n.HasChild(j, n.children[j], max) {
      assert j != i ==> old(n.HasChild(j, n.children[j], max));
    }
  }

  class Node<K(!new), V> {
    const isLeaf: bool
    var keys: seq<K>
    var values: seq<V>
    var children: seq<Node<K, V>>
    var isShared: bool

    ghost const height: nat
    ghost var tree: Tree<K, V>
    ghost var parent: Node?<K, V>
    ghost var holder: object?

    /** A node agrees with its children: their keys are cached, they are one level down, and those that are
        not shared are this node's alone. */
    ghost predicate Local(all: set<Node<K, V>>, max: nat)
      reads this, all
    {
      if isLeaf then
        height == 0 && |children| == 0 && |keys| == |values| <= max && tree == Leaf(Zip(keys, values))
      else
        && height > 0 && values == []
        && tree.Inner? && |keys| == |children| == |tree.children| && Shape(tree, max, height)
        && (forall c <- children :: c in all)
        && (forall i {:trigger HasChild(i, children[i], max)} :: 0 <= i < |children| ==> HasChild(i, children[i], max))
        && (forall i, j :: 0 <= i < j < |children| && children[i] == children[j] ==> children[i].isShared)
    }

    /** This node and all that are not above it agree with their children. */
    ghost predicate Settled(all: set<Node<K, V>>, max: nat)
      reads this, all
    {
      this in all && Local(all, max) && Agree(all, max, height)
    }

    /** Local, except that child i may mean something else than it did. */
    ghost predicate LocalButFor(i: nat, all: set<Node<K, V>>, max: nat)
      reads this, all
    {
      && !isLeaf && height > 0 && values == []
      && tree.Inner? && i < |keys| == |children| == |tree.children| && Shape(tree, max, height)
      && (forall c <- children :: c in all)
      && (forall j {:trigger HasChild(j, children[j], max)} ::
        0 <= j < |children| && j != i ==> HasChild(j, children[j], max))
      && (forall j, k :: 0 <= j < k < |children| && children[j] == children[k] ==> children[j].isShared)
      && children[i].height == height - 1 && !children[i].isShared && children[i].parent == this
      && keys[i] == MaxKey(tree.children[i], max, height - 1)
    }

    /** The i-th child is one level down, means the i-th subtree, and its greatest key is the i-th separator. */
    ghost predicate HasChild(i: nat, c: Node<K, V>, max: nat)
      requires height > 0 && tree.Inner? && i < |keys| == |tree.children| && Shape(tree, max, height)
      reads this, c
    {
      && c.height == height - 1
      && (c.isShared || c.parent == this)
      && c.tree == tree.children[i]
      && keys[i] == MaxKey(c.tree, max, height - 1)
    }

    /** A child, taken on its own. */
    lemma AboutChild(i: nat, all: set<Node<K, V>>, max: nat)
      requires Settled(all, max) && !isLeaf && i < |children|
      ensures HasChild(i, children[i], max) && children[i] in all && children[i].Local(all, max)
    {
      assert HasChild(i, children[i], max);
    }

    lemma AboutChildren(all: set<Node<K, V>>, max: nat)
      requires Local(all, max)
      ensures forall i {:trigger children[i]} :: 0 <= i < |children| ==> HasChild(i, children[i], max)
    {
    }

    constructor OfEntries(keys: seq<K>, values: seq<V>)
      requires |keys| == |values|
      ensures isLeaf && this.keys == keys && this.values == values && children == [] && !isShared
      ensures height == 0 && tree == Leaf(Zip(keys, values)) && parent == null && holder == null
    {
      isLeaf, this.keys, this.values, children, isShared := true, keys, values, [], false;
      height, tree, parent, holder := 0, Leaf(Zip(keys, values)), null, null;
    }

    constructor OfChildren(children: seq<Node<K, V>>, keys: seq<K>, ghost h: nat, ghost t: Tree<K, V>)
      ensures !isLeaf && this.keys == keys && this.children == children && values == [] && !isShared
      ensures height == h && tree == t && parent == null && holder == null
    {
      isLeaf, this.keys, values, this.children, isShared := false, keys, [], children, false;
      height, tree, parent, holder := h, t, null, null;
    }

    /** Binary search. An absent key gives its insertion index, complemented when failXor is -1. */
    method IndexOf(key: K, failXor: int, cmp: (K, K) -> int) returns (i: int)
      requires TotalOrder(cmp) && Ascending(cmp, keys) && (failXor == 0 || failXor == -1)
      ensures var r: int := Rank(cmp, keys, key);
        i == if failXor == 0 || (r < |keys| && cmp(keys[r], key) == 0) then r else -r - 1
    {
      var lo, hi := 0, |keys|;
      var mid := hi / 2;
      while lo < hi
        invariant 0 <= lo <= mid <= hi <= |keys|
        invariant mid == (lo + hi) / 2
        invariant forall j :: 0 <= j < lo ==> cmp(keys[j], key) < 0
        invariant forall j :: hi <= j < |keys| ==> cmp(keys[j], key) > 0
      {
        var c := cmp(keys[mid], key);
        if c < 0 {
          forall j | 0 <= j < mid ensures cmp(keys[j], key) < 0 {
            assert Lawful(cmp, keys[j], keys[mid], key);
          }
          lo := mid + 1;
        } else if c > 0 {
          forall j | mid < j < |keys| ensures cmp(keys[j], key) > 0 {
            Beyond(cmp, keys[mid], keys[j], key);
          }
          hi := mid;
        } else {
          forall j | 0 <= j < mid ensures cmp(keys[j], key) < 0 {
            Differ(cmp, keys[mid], key);
          }
          RankUnique(cmp, keys, key, mid);
          return mid;
        }
        mid := (lo + hi) / 2;
      }
      RankUnique(cmp, keys, key, mid);
      i := if failXor == 0 then mid else -mid - 1;
    }

    /** The parts of this node fit together. */
    ghost predicate WellMade()
      reads this
    {
      if isLeaf then height == 0 && |children| == 0 && |keys| == |values| && tree == Leaf(Zip(keys, values))
        else values == []
    }

    /** A copy of this node. Its children now have two nodes above them, so they become shared. */
    method Clone() returns (c: Node<K, V>)
      requires WellMade()
      modifies (set n | n in children)`isShared
      ensures fresh(c) && !c.isShared && c.parent == null && c.isLeaf == isLeaf && c.height == height && c.tree == tree
      ensures c.keys == keys && c.values == values && c.children == children
      ensures forall n <- children :: n.isShared
    {
      if isLeaf {
        c := new Node.OfEntries(keys, values);
      } else {
        var i := 0;
        while i < |children|
          invariant 0 <= i <= |children|
          invariant forall j :: 0 <= j < i ==> children[j].isShared
        {
          children[i].isShared := true;
          i := i + 1;
        }
        c := new Node.OfChildren(children, keys, height, tree);
      }
    }

    /** Before a child is written it is made this node's own: a shared child is replaced by a copy. */
    method Own(i: nat, ghost all: set<Node<K, V>>, ghost max: nat)
        returns (child: Node<K, V>, ghost all': set<Node<K, V>>)
      requires Settled(all, max) && !isLeaf && i < |children|
      modifies this`children, all`isShared
      ensures children == old(children)[i := child]
      ensures !child.isShared && child.parent == this && child.height == height - 1
      ensures child == old(children[i]) || fresh(child)
      ensures child.tree == old(children[i].tree)
      ensures all' == all + {child}
      ensures SharedKept(all, height - 1)
      ensures Settled(all', max)
    {
      hide Shape, MaxKey;
      child := children[i];
      all' := all;
      AboutChild(i, all, max);
      AboutChildren(all, max);
      child.AboutChildren(all, max);
      if child.isShared {
        child := child.Clone();
        child.parent := this;
        children := children[i := child];
        all' := all + {child};
        Undisturbed(UpTo(all, height, {this}), {this}, all, all', max);
        LocalReplaced(this, i, child, all, all', max);
        LocalCopied(old(children[i]), child, all, all', max);
      }
    }

    /** The keys at the ends of a node are those of what it means. */
    lemma EndKeys(all: set<Node<K, V>>, max: nat)
      requires Local(all, max) && Shape(tree, max, height)
      ensures |keys| == tree.Size() && keys[0] == FirstKey(tree, max, height)
      ensures MaxKeyHere() == MaxKey(tree, max, height)
    {
      if !isLeaf {
        assert HasChild(0, children[0], max) && HasChild(|keys| - 1, children[|keys| - 1], max);
      }
    }

    /** The greatest key at or below this node. */
    function MaxKeyHere(): K
      requires |keys| > 0
      reads this
    {
      keys[|keys| - 1]
    }

    // ------------------------------------------------------------- leaves

    method InsertInLeaf(i: nat, key: K, value: V, ghost all: set<Node<K, V>>, ghost max: nat)
      requires isLeaf && Local(all, max) && i <= |keys| < max
      modifies this`keys, this`values, this`tree
      ensures Local(all, max)
      ensures tree == Leaf(Splice(old(tree).entries, i, i, [Pair(key, value)]))
    {
      ghost var es := Zip(keys, values);
      keys := keys[..i] + [key] + keys[i..];
      values := values[..i] + [value] + values[i..];
      tree := Leaf(Zip(keys, values));
      assert Zip(keys, values) == es[..i] + [Pair(key, value)] + es[i..];
    }

    method SplitLeaf(ghost all: set<Node<K, V>>, ghost max: nat) returns (right: Node<K, V>)
      requires isLeaf && Local(all, max)
      modifies this`keys, this`values, this`tree
      ensures fresh(right) && right.isLeaf && right.height == 0 && !right.isShared && right.parent == null
      ensures Local(all, max) && right.Local(all, max)
      ensures var es, half := old(tree).entries, |old(tree).entries| / 2;
        tree == Leaf(es[..half]) && right.tree == Leaf(es[half..])
    {
      var half := |keys| / 2;
      ghost var es := Zip(keys, values);
      right := new Node.OfEntries(keys[half..], values[half..]);
      keys, values := keys[..half], values[..half];
      tree := Leaf(Zip(keys, values));
      assert Zip(keys, values) == es[..half];
      assert right.tree.entries == es[half..];
    }

    /** A full leaf splits, and the pair goes to the half it belongs in. */
    method SplitAndInsert(i: nat, key: K, value: V, ghost all: set<Node<K, V>>, ghost max: nat)
        returns (right: Node<K, V>)
      requires isLeaf && Local(all, max) && 4 <= max == |keys| && i <= |keys|
      modifies this`keys, this`values, this`tree
      ensures fresh(right) && right.isLeaf && right.height == 0 && !right.isShared && right.parent == null
      ensures Local(all, max) && right.Local(all, max)
      ensures var whole := Splice(old(tree).entries, i, i, [Pair(key, value)]); var half := old(|keys|) / 2;
        var cut := if i > half then half else half + 1;
        tree == Leaf(whole[..cut]) && right.tree == Leaf(whole[cut..])
    {
      SpliceThenCut(tree.entries, i, |keys| / 2, Pair(key, value));
      right := SplitLeaf(all, max);
      if i > |keys| {
        right.InsertInLeaf(i - |keys|, key, value, all, max);
      } else {
        InsertInLeaf(i, key, value, all, max);
      }
    }

    method ReplaceInLeaf(i: nat, key: K, value: V, ghost all: set<Node<K, V>>, ghost max: nat)
      requires isLeaf && Local(all, max) && i < |keys|
      modifies this`keys, this`values, this`tree
      ensures Local(all, max)
      ensures tree == Leaf(old(tree).entries[i := Pair(key, value)])
    {
      ghost var es := Zip(keys, values);
      keys, values := keys[i := key], values[i := value];
      tree := Leaf(Zip(keys, values));
      assert Zip(keys, values) == es[i := Pair(key, value)];
    }

    /** Where key is in this leaf, or the complement of where it belongs. */
    method PlaceInLeaf(key: K, cmp: (K, K) -> int, ghost all: set<Node<K, V>>, ghost max: nat) returns (i: int)
      requires isLeaf && Local(all, max) && TotalOrder(cmp) && Sorted(cmp, Contents(tree))
      ensures i >= 0 <==> Found(cmp, tree.entries, key)
      ensures Place(cmp, tree.entries, key) == if i >= 0 then i else -i - 1
    {
      assert KeysOf(tree.entries) == keys;
      assert forall j :: 0 <= j < |keys| ==> tree.entries[j].key == keys[j];
      i := IndexOf(key, -1, cmp);
    }

    /** Where key is in this leaf, or belongs. */
    method SearchLeaf(key: K, cmp: (K, K) -> int, ghost all: set<Node<K, V>>, ghost max: nat) returns (i: nat)
      requires isLeaf && Local(all, max)
      requires TotalOrder(cmp) && Sorted(cmp, Contents(tree))
      ensures i == Place(cmp, tree.entries, key) <= |keys|
    {
      assert KeysOf(tree.entries) == keys;
      assert forall j :: 0 <= j < |keys| ==> tree.entries[j].key == keys[j];
      i := IndexOf(key, 0, cmp);
    }

    /** This node and the right sibling it may have split off are what set makes of it. */
    ghost predicate Gives(res: SetResult<K, V>, added: bool, sibling: Node?<K, V>)
      reads this, sibling
    {
      match res
      case Done(t, a) => tree == t && added == a && sibling == null
      case Split(l, r) => tree == l && added && sibling != null && sibling.tree == r
    }

    /** Set in a leaf. The source returns one of false, true and a node; here added and sibling say which. */
    method SetInLeaf(key: K, value: V, overwrite: bool, t: BTree<K, V>, ghost all: set<Node<K, V>>)
      returns (added: bool, sibling: Node?<K, V>)
      requires isLeaf && Local(all, t.maxNodeSize) && 4 <= t.maxNodeSize
      requires TotalOrder(t.compare) && Sorted(t.compare, Contents(tree))
      modifies this`keys, this`values, this`tree, t`size
      ensures Gives(SetLeaf(t.compare, old(tree).entries, key, value, overwrite, t.maxNodeSize), added, sibling)
      ensures t.size == old(t.size) + if added then 1 else 0
      ensures Local(all, t.maxNodeSize)
      ensures sibling != null ==> fresh(sibling) && !sibling.isShared && sibling.height == 0 && sibling.parent == null
      ensures sibling != null ==> sibling.Local(all, t.maxNodeSize)
    {
      sibling := null;
      var i := PlaceInLeaf(key, t.compare, all, t.maxNodeSize);
      if i < 0 {
        i := -i - 1;
        t.size := t.size + 1;
        added := true;
        if |keys| < t.maxNodeSize {
          InsertInLeaf(i, key, value, all, t.maxNodeSize);
        } else {
          sibling := SplitAndInsert(i, key, value, all, t.maxNodeSize);
        }
      } else {
        added := false;
        if overwrite {
          ReplaceInLeaf(i, key, value, all, t.maxNodeSize);
        }
      }
    }

    // ----------------------------------------------------- internal nodes

    /** The first entry of the right sibling becomes this leaf's last. */
    method TakeEntryFromRight(rhs: Node<K, V>, ghost all: set<Node<K, V>>, ghost max: nat)
      requires isLeaf && rhs.isLeaf && this != rhs && Local(all, max) && rhs.Local(all, max)
      requires |keys| < max && |rhs.keys| > 0
      modifies this`keys, this`values, this`tree, rhs`keys, rhs`values, rhs`tree
      ensures (tree, rhs.tree) == Shifted(old(tree), old(rhs.tree))
      ensures Local(all, max) && rhs.Local(all, max)
    {
      ghost var es, rs := Zip(keys, values), Zip(rhs.keys, rhs.values);
      keys, values := keys + [rhs.keys[0]], values + [rhs.values[0]];
      rhs.keys, rhs.values := rhs.keys[1..], rhs.values[1..];
      tree, rhs.tree := Leaf(Zip(keys, values)), Leaf(Zip(rhs.keys, rhs.values));
      assert Zip(keys, values) == es + [rs[0]];
      assert Zip(rhs.keys, rhs.values) == rs[1..];
    }

    /** The first child of the right sibling becomes this node's last. */
    method TakeChildFromRight(rhs: Node<K, V>, ghost all: set<Node<K, V>>, ghost max: nat)
      requires !isLeaf && !rhs.isLeaf && this != rhs && height == rhs.height && Local(all, max) && rhs.Local(all, max)
      requires |keys| < max && |rhs.keys| > 1
      modifies this`keys, this`children, this`tree, rhs`keys, rhs`children, rhs`tree,
        (set n | n in rhs.children && !n.isShared)`parent
      ensures (tree, rhs.tree) == Shifted(old(tree), old(rhs.tree))
      ensures Local(all, max) && rhs.Local(all, max)
    {
      AboutChildren(all, max);
      rhs.AboutChildren(all, max);
      var moved := rhs.children[0];
      keys, rhs.keys := keys + [rhs.keys[0]], rhs.keys[1..];
      children, rhs.children := children + [moved], rhs.children[1..];
      ghost var lr := Shifted(tree, rhs.tree);
      tree, rhs.tree := lr.0, lr.1;
      if !moved.isShared {
        moved.parent := this;
      }
    }

    method TakeFromRight(rhs: Node<K, V>, ghost all: set<Node<K, V>>, ghost max: nat)
      requires this in all && rhs in all && this != rhs && height == rhs.height && Local(all, max)
      requires rhs.Local(all, max)
      requires |keys| < max && |rhs.keys| > 1
      modifies this`keys, this`values, this`children, this`tree
      modifies rhs`keys, rhs`values, rhs`children, rhs`tree, (set n | n in rhs.children && !n.isShared)`parent
      ensures (tree, rhs.tree) == Shifted(old(tree), old(rhs.tree))
      ensures Local(all, max) && rhs.Local(all, max)
    {
      if isLeaf {
        TakeEntryFromRight(rhs, all, max);
      } else {
        TakeChildFromRight(rhs, all, max);
      }
    }

    /** Child i lends its first item to child i - 1; both are this node's own. */
    method LendOwned(i: nat, ghost all: set<Node<K, V>>, ghost max: nat)
      requires Settled(all, max) && !isLeaf && 0 < i < |children|
      requires !children[i].isShared && !children[i - 1].isShared
      requires |children[i].keys| > 1 && |children[i - 1].keys| < max
      modifies this`keys, this`tree, children[i - 1], children[i],
        (set n | n in children[i].children && !n.isShared)`parent
      ensures |children| == old(|children|) && forall j ::
        i - 1 <= j <= i ==> children[j].parent == this && !children[j].isShared
      ensures tree == Inner(ShiftLeft(old(tree).children, i, max, height - 1))
      ensures Settled(all, max)
    {
      var other, child := children[i - 1], children[i];
      EndsOfNeighbours(i, all, max);
      child.AboutChildren(all, max);
      LendItem(i, other, child, all, max);
      LocalLent(this, i, all, max);
      AgreeAround(this, other, child, all, max);
    }

    /** The item moves, and the separator between the two children follows. */
    method LendItem(i: nat, other: Node<K, V>, child: Node<K, V>, ghost all: set<Node<K, V>>, ghost max: nat)
      requires Settled(all, max) && !isLeaf && 0 < i < |children| && children[i - 1] == other && children[i] == child
      requires !child.isShared && |child.keys| > 1 && |other.keys| < max
      requires other.tree.Leaf? == child.tree.Leaf? && child.tree.Size() > 0
      modifies this`keys, this`tree
      modifies other`keys, other`values, other`children, other`tree
      modifies child`keys, child`values, child`children, child`tree, (set n | n in child.children && !n.isShared)`parent
      ensures (other.tree, child.tree) == Shifted(old(other.tree), old(child.tree))
      ensures other.Local(all, max) && child.Local(all, max)
      ensures tree == Inner(ShiftLeft(old(tree).children, i, max, height - 1))
      ensures Shape(old(child.tree), max, height - 1)
      ensures keys == old(keys)[i - 1 := FirstKey(old(child.tree), max, height - 1)]
    {
      EndsOfNeighbours(i, all, max);
      child.AboutChildren(all, max);
      other.TakeFromRight(child, all, max);
      other.EndKeys(all, max);
      label taken:
      keys := keys[i - 1 := other.MaxKeyHere()];
      tree := Inner(ShiftLeft(tree.children, i, max, height - 1));
      Undisturbed@taken({other, child}, {this}, all, all, max);
    }

    lemma EndsOfNeighbours(i: nat, all: set<Node<K, V>>, max: nat)
      requires Settled(all, max) && !isLeaf && 0 < i < |children|
      requires !children[i].isShared && |children[i].keys| > 1 && |children[i - 1].keys| < max
      ensures HasChild(i - 1, children[i - 1], max) && children[i - 1].Local(all, max)
      ensures HasChild(i, children[i], max) && children[i].Local(all, max)
      ensures children[i].tree.Leaf? == children[i - 1].tree.Leaf? && children[i].tree.Size() > 1
      ensures children[i - 1].tree.Size() < max
      ensures var l, r := children[i - 1], children[i]; var (l', r') := Shifted(l.tree, r.tree);
        && l != r && Shape(l.tree, max, height - 1) && Shape(r.tree, max, height - 1)
        && Shape(l', max, height - 1) && Shape(r', max, height - 1)
        && MaxKey(l', max, height - 1) == FirstKey(r.tree, max, height - 1)
    {
      AboutChild(i - 1, all, max);
      AboutChild(i, all, max);
      children[i - 1].EndKeys(all, max);
      children[i].EndKeys(all, max);
      ShiftLeftShape(tree.children, i, max, height - 1);
      assert ShiftLeft(tree.children, i, max, height - 1)[i - 1] == Shifted(children[i - 1].tree, children[i].tree).0;
      assert ShiftLeft(tree.children, i, max, height - 1)[i] == Shifted(children[i - 1].tree, children[i].tree).1;
      ShiftedMax(children[i - 1].tree, children[i].tree, max, height - 1);
    }

    /** Child i, this node's own, lends its first item to its left neighbour. */
    method Lend(i: nat, ghost all: set<Node<K, V>>, ghost max: nat) returns (ghost all': set<Node<K, V>>)
      requires Settled(all, max) && !isLeaf && 0 < i < |children|
      requires !children[i].isShared && |children[i].keys| > 1 && |children[i - 1].keys| < max
      modifies this`keys, this`children, this`tree, Below(all, height), all`isShared
      ensures all <= all' && fresh(all' - all) && forall n <- all' :: n in all || n.height < height
      ensures |children| == old(|children|) && children == old(children)[i - 1 := children[i - 1]]
      ensures children[i].parent == this
      ensures SharedKept(all, height - 1)
      ensures tree == Inner(ShiftLeft(old(tree).children, i, max, height - 1))
      ensures Settled(all', max)
    {
      AboutChild(i - 1, all, max);
      AboutChild(i, all, max);
      children[i - 1].EndKeys(all, max);
      var other;
      other, all' := Own(i - 1, all, max);
      AboutChild(i - 1, all', max);
      AboutChild(i, all', max);
      children[i].AboutChildren(all', max);
      other.EndKeys(all', max);
      LendOwned(i, all', max);
    }

    /** The lengths and keys that the code looks at decide what the specification decides. */
    lemma ShiftDecision(i: nat, key: K, t: BTree<K, V>, all: set<Node<K, V>>)
      requires Settled(all, t.maxNodeSize) && !isLeaf && tree.Inner? && i < |children| == |tree.children|
      requires Shapes(tree.children, t.maxNodeSize, height - 1)
      ensures |children[i].keys| > 0 && |children[i].keys| == tree.children[i].Size()
      ensures ShiftsLeft(t.compare, tree.children, i, key, t.maxNodeSize, height - 1) <==>
        && |children[i].keys| >= t.maxNodeSize && i > 0 && |children[i - 1].keys| < t.maxNodeSize
        && t.compare(children[i].keys[0], key) < 0
      ensures i == ChildIndex(t.compare, tree.children, key, t.maxNodeSize, height - 1) && i + 1 < |children| ==>
        t.compare(children[i].MaxKeyHere(), key) >= 0
    {
      assert HasChild(i, children[i], t.maxNodeSize);
      children[i].EndKeys(all, t.maxNodeSize);
      if i > 0 {
        assert HasChild(i - 1, children[i - 1], t.maxNodeSize);
        children[i - 1].EndKeys(all, t.maxNodeSize);
      }
    }

    /** Child i becomes this node's own; if it is full it lends an item to its left neighbour when it can.
        The source also looks for room on the right, but then the key would belong under a later child. */
    method PrepareChild(i: nat, key: K, t: BTree<K, V>, ghost all: set<Node<K, V>>)
        returns (child: Node<K, V>, ghost all': set<Node<K, V>>)
      requires Settled(all, t.maxNodeSize) && !isLeaf && 4 <= t.maxNodeSize
      requires i == ChildIndex(t.compare, tree.children, key, t.maxNodeSize, height - 1)
      modifies this`keys, this`children, this`tree, Below(all, height), all`isShared
      ensures all <= all' && fresh(all' - all) && forall n <- all' :: n in all || n.height < height
      ensures SharedKept(all, height - 1)
      ensures i < |children| && child == children[i] && !child.isShared && child.parent == this
      ensures tree == Inner(MakeRoom(t.compare, old(tree).children, i, key, t.maxNodeSize, height - 1))
      ensures Settled(all', t.maxNodeSize)
    {
      child, all' := Own(i, all, t.maxNodeSize);
      ShiftDecision(i, key, t, all');
      if |child.keys| >= t.maxNodeSize {
        if i > 0 && |children[i - 1].keys| < t.maxNodeSize && t.compare(child.keys[0], key) < 0 {
          all' := Lend(i, all', t.maxNodeSize);
        } else if i + 1 < |children| && |children[i + 1].keys| < t.maxNodeSize &&
          t.compare(child.MaxKeyHere(), key) < 0 {
          assert false;
        }
      }
    }

    /** A new child, not under any node yet, is put in at position at. */
    method InsertChild(at: nat, c: Node<K, V>, ghost all: set<Node<K, V>>, ghost max: nat)
      requires Settled(all, max) && c in all && !isLeaf && at <= |children| < max
      requires !c.isShared && c.parent == null && c.height == height - 1 && Shape(c.tree, max, height - 1)
      modifies this`keys, this`children, this`tree, c`parent
      ensures tree == Inner(Splice(old(tree).children, at, at, [c.tree]))
      ensures c.parent == this
      ensures Settled(all, max)
    {
      c.EndKeys(all, max);
      children := children[..at] + [c] + children[at..];
      keys := keys[..at] + [c.MaxKeyHere()] + keys[at..];
      tree := Inner(Splice(tree.children, at, at, [c.tree]));
      c.parent := this;
      LocalInserted(this, at, c, all, max);
      Undisturbed(UpTo(all, height, {this}), {this, c}, all, all, max);
    }

    /** The right half of a node's children moves to a new sibling. */
    method SplitInner(ghost all: set<Node<K, V>>, ghost max: nat) returns (right: Node<K, V>)
      requires Settled(all, max) && !isLeaf && |children| >= 2
      modifies this`keys, this`children, this`tree, (set n | n in children && !n.isShared)`parent
      ensures fresh(right) && !right.isLeaf && right.height == height && !right.isShared && right.parent == null
      ensures var cs, half := old(tree).children, |old(tree).children| / 2;
        tree == Inner(cs[..half]) && right.tree == Inner(cs[half..])
      ensures |children| == old(|children|) / 2 && |right.children| == old(|children|) - old(|children|) / 2
      ensures Settled(all + {right}, max)
    {
      var half := |children| / 2;
      AboutChildren(all, max);
      right := CutOff(half);
      LocalHalves(this, right, half, all, all + {right}, max);
      Undisturbed(UpTo(all, height, {this}), {this} + (set n | n in right.children && !n.isShared), all, all + {right},
        max);
    }

    method CutOff(half: nat) returns (right: Node<K, V>)
      requires !isLeaf && tree.Inner? && half < |children| == |keys| == |tree.children| && this !in children
      modifies this`keys, this`children, this`tree, (set n | n in children && !n.isShared)`parent
      ensures fresh(right) && !right.isLeaf && right.height == height && !right.isShared && right.parent == null
      ensures right.values == []
      ensures children == old(children)[..half] && right.children == old(children)[half..]
      ensures keys == old(keys)[..half] && right.keys == old(keys)[half..]
      ensures tree == Inner(old(tree).children[..half]) && right.tree == Inner(old(tree).children[half..])
      ensures parent == old(parent)
      ensures forall n <- right.children :: !n.isShared ==> n.parent == right
      ensures forall n <- old(children) :: n !in right.children ==> n.parent == old(n.parent)
    {
      right := new Node.OfChildren(children[half..], keys[half..], height, Inner(tree.children[half..]));
      children, keys := children[..half], keys[..half];
      tree := Inner(tree.children[..half]);
      ghost var r := right;
      forall n | n in right.children && !n.isShared {
        n.parent := r;
      }
    }

    method SplitAndAdd(i: nat, c: Node<K, V>, t: BTree<K, V>, ghost all: set<Node<K, V>>) returns (sibling: Node<K, V>)
      requires Settled(all, t.maxNodeSize) && c in all && !isLeaf && i < |children| && 4 <= t.maxNodeSize <= |children|
      requires !c.isShared && c.parent == null && c.height == height - 1 && Shape(c.tree, t.maxNodeSize, height - 1)
      requires TotalOrder(t.compare) && Sorted(t.compare, Flat(Splice(tree.children, i + 1, i + 1, [c.tree])))
      modifies this`keys, this`children, this`tree, c`parent, (set n | n in children && !n.isShared)`parent
      ensures tree == LeftPart(old(tree).children, i, c.tree)
      ensures sibling.tree == RightPart(old(tree).children, i, c.tree)
      ensures fresh(sibling) && !sibling.isShared && sibling.height == height && sibling.parent == null
      ensures Settled(all + {sibling}, t.maxNodeSize)
    {
      ghost var cs := tree.children;
      AboutChildren(all, t.maxNodeSize);
      sibling := SplitInner(all, t.maxNodeSize);
      ghost var all' := all + {sibling};
      var goesRight := GoesRight(i, cs, c, t, all');
      AddToHalf(if goesRight then i + 1 - |children| else i + 1, c, if goesRight then sibling else this, t, all');
    }

    /** Once the right half cs[|cs| / 2..] is gone: whether a new child, to go after cs[i], belongs to it. */
    method GoesRight(i: nat, ghost cs: seq<Tree<K, V>>, c: Node<K, V>, t: BTree<K, V>, ghost all: set<Node<K, V>>)
        returns (right: bool)
      requires Settled(all, t.maxNodeSize) && c in all && height > 0
      requires i < |cs| <= t.maxNodeSize && |cs| >= 2 && Shapes(cs, t.maxNodeSize, height - 1)
      requires tree == Inner(cs[..|cs| / 2])
      requires c.height == height - 1 && Shape(c.tree, t.maxNodeSize, height - 1)
      requires TotalOrder(t.compare) && Sorted(t.compare, Flat(Splice(cs, i + 1, i + 1, [c.tree])))
      ensures right <==> i + 1 >= |cs| / 2
    {
      SplitSide(t.compare, cs, i, c.tree, t.maxNodeSize, height - 1);
      assert c.Local(all, t.maxNodeSize);
      c.EndKeys(all, t.maxNodeSize);
      EndKeys(all, t.maxNodeSize);
      MaxKeyOfPrefix(cs, |cs| / 2, t.maxNodeSize, height);
      right := t.compare(c.MaxKeyHere(), MaxKeyHere()) > 0;
    }

    method AddToHalf(at: nat, c: Node<K, V>, half: Node<K, V>, t: BTree<K, V>, ghost all: set<Node<K, V>>)
      requires half.Settled(all, t.maxNodeSize) && c in all && !half.isLeaf && half.height == height
      requires at <= |half.children| < t.maxNodeSize
      requires !c.isShared && c.parent == null && c.height == height - 1 && Shape(c.tree, t.maxNodeSize, height - 1)
      modifies half`keys, half`children, half`tree, c`parent
      ensures half.tree == Inner(Splice(old(half.tree).children, at, at, [c.tree]))
      ensures half.Settled(all, t.maxNodeSize)
    {
      half.InsertChild(at, c, all, t.maxNodeSize);
    }

    /** The right part of a split child is added after it, splitting this node too when it is full. */
    method AddChild(i: nat, c: Node<K, V>, t: BTree<K, V>, ghost all: set<Node<K, V>>)
        returns (sibling: Node?<K, V>, ghost all': set<Node<K, V>>)
      requires Settled(all, t.maxNodeSize) && c in all && !isLeaf && i < |children| && 4 <= t.maxNodeSize
      requires !c.isShared && c.parent == null && c.height == height - 1 && Shape(c.tree, t.maxNodeSize, height - 1)
      requires TotalOrder(t.compare) && Sorted(t.compare, Flat(Splice(tree.children, i + 1, i + 1, [c.tree])))
      modifies this`keys, this`children, this`tree, c`parent, (set n | n in children && !n.isShared)`parent
      ensures Gives(SplitChild(old(tree).children, i, old(tree).children[i], c.tree, t.maxNodeSize), true, sibling)
      ensures all <= all' && fresh(all' - all)
      ensures sibling != null ==>
        sibling in all' && fresh(sibling) && !sibling.isShared && sibling.height == height && sibling.parent == null
      ensures forall n <- all' :: n in all || n.height <= height
      ensures Settled(all', t.maxNodeSize)
    {
      if |keys| < t.maxNodeSize {
        assert Splice(tree.children, i, i + 1, [tree.children[i], c.tree])
          == Splice(tree.children, i + 1, i + 1, [c.tree]);
        InsertChild(i + 1, c, all, t.maxNodeSize);
        sibling, all' := null, all;
      } else {
        PartsAfterSplit(tree.children, i, c.tree, t.maxNodeSize);
        var right := SplitAndAdd(i, c, t, all);
        sibling, all' := right, all + {right};
      }
    }

    /** The child a key belongs under. */
    method ChildFor(key: K, t: BTree<K, V>, ghost all: set<Node<K, V>>) returns (i: nat)
      requires this in all && !isLeaf && Local(all, t.maxNodeSize)
      requires TotalOrder(t.compare) && Sorted(t.compare, Contents(tree))
      ensures i == ChildIndex(t.compare, tree.children, key, t.maxNodeSize, height - 1)
    {
      var r := FirstChildFor(key, t, all);
      i := if r < |children| then r else |children| - 1;
    }

    /** The first child whose greatest key is not below key; past the end if there is none. */
    method FirstChildFor(key: K, t: BTree<K, V>, ghost all: set<Node<K, V>>) returns (i: nat)
      requires this in all && !isLeaf && Local(all, t.maxNodeSize)
      requires TotalOrder(t.compare) && Sorted(t.compare, Contents(tree))
      ensures i == Rank(t.compare, MaxKeys(tree.children, t.maxNodeSize, height - 1), key)
    {
      forall j | 0 <= j < |keys| ensures keys[j] == MaxKeys(tree.children, t.maxNodeSize, height - 1)[j] {
        assert HasChild(j, children[j], t.maxNodeSize);
      }
      assert keys == MaxKeys(tree.children, t.maxNodeSize, height - 1);
      SeparatorsAscend(t.compare, tree.children, t.maxNodeSize, height - 1);
      i := IndexOf(key, 0, t.compare);
    }

    /** Set on this node's own child i. */
    method SetInChild(
        i: nat, key: K, value: V, overwrite: bool, t: BTree<K, V>, ghost all: set<Node<K, V>>, ghost r: SetResult<K, V>)
      returns (added: bool, sibling: Node?<K, V>, ghost all': set<Node<K, V>>)
      requires Settled(all, t.maxNodeSize) && !isLeaf && 4 <= t.maxNodeSize
      requires i < |children| && !children[i].isShared && children[i].parent == this
      requires TotalOrder(t.compare) && Sorted(t.compare, Contents(children[i].tree))
      requires Shape(children[i].tree, t.maxNodeSize, height - 1)
      requires r == SetNode(t.compare, children[i].tree, key, value, overwrite, t.maxNodeSize, height - 1)
      modifies children[i], Below(all, height - 1), all`isShared, t`size
      ensures all <= all' && fresh(all' - all) && forall n <- all' :: n in all || n.height < height
      ensures AgreeButFor(this, i, all', t.maxNodeSize) && children[i].Gives(r, added, sibling)
      ensures t.size == old(t.size) + if added then 1 else 0
      ensures sibling != null ==>
        sibling in all' && fresh(sibling) && !sibling.isShared && sibling.height == height - 1 && sibling.parent == null
      ensures SharedKept(all, height - 1)
      decreases height, 0, 0
    {
      hide SetNode;
      var child := children[i];
      assert HasChild(i, child, t.maxNodeSize);
      added, sibling, all' := child.Set(key, value, overwrite, t, all, r);
      assert SharedKept(all, child.height);
      forall n <- all | n != child && n !in old(Below(all, child.height)) ensures Kept(n) {
        assert KeptInside(n) && n.parent == old(n.parent) && n.holder == old(n.holder);
      }
      ChildEdited(this, i, child, all, all', t.maxNodeSize);
    }

    /** The separator above child i is brought up to date. The source does not write it when nothing was added. */
    method Renew(i: nat, added: bool, ghost all: set<Node<K, V>>, ghost max: nat)
      requires AgreeButFor(this, i, all, max) && Shape(children[i].tree, max, height - 1)
      requires !added ==> MaxKey(children[i].tree, max, height - 1) == MaxKey(tree.children[i], max, height - 1)
      modifies this`keys, this`tree
      ensures tree == Inner(old(tree).children[i := children[i].tree])
      ensures Settled(all, max)
    {
      children[i].EndKeys(all, max);
      if added {
        keys := keys[i := children[i].MaxKeyHere()];
      }
      tree := Inner(tree.children[i := children[i].tree]);
      LocalRenewed(this, i, all, max);
      Undisturbed(UpTo(all, height, {this}), {this}, all, all, max);
    }

    method SetInInner(
        key: K, value: V, overwrite: bool, t: BTree<K, V>, ghost all: set<Node<K, V>>, ghost r: SetResult<K, V>)
      returns (added: bool, sibling: Node?<K, V>, ghost all': set<Node<K, V>>)
      requires Settled(all, t.maxNodeSize) && !isLeaf && !isShared && 4 <= t.maxNodeSize
      requires TotalOrder(t.compare) && Sorted(t.compare, Contents(tree))
      requires r == SetNode(t.compare, tree, key, value, overwrite, t.maxNodeSize, height)
      modifies this`keys, this`values, this`children, this`tree, Below(all, height), all`isShared, t`size
      ensures all <= all' && fresh(all' - all) && forall n <- all' :: n in all || n.height <= height
      ensures Gives(r, added, sibling)
      ensures t.size == old(t.size) + if added then 1 else 0
      ensures sibling != null ==>
        sibling in all' && fresh(sibling) && !sibling.isShared && sibling.height == height && sibling.parent == null
      ensures Settled(all', t.maxNodeSize)
      ensures SharedKept(all, height)
      decreases height, 1
    {
      hide SetNode;
      var i := ChildFor(key, t, all);
      ghost var max, cs := t.maxNodeSize, tree.children;
      SetDescends(t.compare, cs, i, key, value, overwrite, max, height);
      var child;
      child, all' := PrepareChild(i, key, t, all);
      ghost var rc := SetNode(t.compare, tree.children[i], key, value, overwrite, max, height - 1);
      added, sibling, all' := SetPrepared(i, key, value, overwrite, t, all', rc);
    }

    /** Set in an internal node once the child it goes to has been prepared. */
    method SetPrepared(i: nat, key: K, value: V, overwrite: bool, t: BTree<K, V>, ghost all: set<Node<K, V>>,
        ghost rc: SetResult<K, V>)
      returns (added: bool, sibling: Node?<K, V>, ghost all': set<Node<K, V>>)
      requires Settled(all, t.maxNodeSize) && !isLeaf && 4 <= t.maxNodeSize
      requires i < |children| && !children[i].isShared && children[i].parent == this
      requires TotalOrder(t.compare) && tree.Inner?
      requires Descends(t.compare, tree.children, i, rc, t.maxNodeSize, height - 1)
      requires rc == SetNode(t.compare, tree.children[i], key, value, overwrite, t.maxNodeSize, height - 1)
      modifies this`keys, this`children, this`tree, Below(all, height), all`isShared, t`size
      ensures all <= all' && fresh(all' - all) && forall n <- all' :: n in all || n.height <= height
      ensures Gives(WithChild(old(tree).children, i, rc, t.maxNodeSize), added, sibling)
      ensures t.size == old(t.size) + if added then 1 else 0
      ensures sibling != null ==>
        sibling in all' && fresh(sibling) && !sibling.isShared && sibling.height == height && sibling.parent == null
      ensures Settled(all', t.maxNodeSize)
      ensures SharedKept(all, height - 1)
      decreases height, 0, 1
    {
      hide SetNode;
      AboutChildren(all, t.maxNodeSize);
      var split;
      added, split, all' := SetInChild(i, key, value, overwrite, t, all, rc);
      assert tree == old(tree) && children == old(children);
      sibling, all' := TakeIn(i, added, split, t, all', rc);
    }

    /** What set on child i has made of it becomes part of this node. */
    method TakeIn(
        i: nat, added: bool, split: Node?<K, V>, t: BTree<K, V>, ghost all: set<Node<K, V>>, ghost rc: SetResult<K, V>)
      returns (sibling: Node?<K, V>, ghost all': set<Node<K, V>>)
      requires AgreeButFor(this, i, all, t.maxNodeSize) && children[i].Gives(rc, added, split) && 4 <= t.maxNodeSize
      requires TotalOrder(t.compare) && Descends(t.compare, tree.children, i, rc, t.maxNodeSize, height - 1)
      requires split != null ==> split in all && !split.isShared && split.height == height - 1 && split.parent == null
      modifies this`keys, this`children, this`tree, (if split == null then {} else {split})`parent,
        (set n | n in children && !n.isShared)`parent
      ensures all <= all' && fresh(all' - all) && forall n <- all' :: n in all || n.height <= height
      ensures Gives(WithChild(old(tree).children, i, rc, t.maxNodeSize), added, sibling)
      ensures sibling != null ==>
        sibling in all' && fresh(sibling) && !sibling.isShared && sibling.height == height && sibling.parent == null
      ensures Settled(all', t.maxNodeSize)
    {
      ghost var cs := tree.children;
      Renew(i, added, all, t.maxNodeSize);
      if split == null {
        sibling, all' := null, all;
      } else {
        SplitChildInSteps(cs, i, rc.left, rc.right, t.maxNodeSize);
        sibling, all' := AddChild(i, split, t, all);
      }
    }

    /** Sets a key. The caller has made this node its tree's own. */
    method Set(key: K, value: V, overwrite: bool, t: BTree<K, V>, ghost all: set<Node<K, V>>, ghost r: SetResult<K, V>)
      returns (added: bool, sibling: Node?<K, V>, ghost all': set<Node<K, V>>)
      requires Settled(all, t.maxNodeSize) && !isShared && 4 <= t.maxNodeSize
      requires RootShape(tree, t.maxNodeSize, height)
      requires TotalOrder(t.compare) && Sorted(t.compare, Contents(tree))
      requires r == SetNode(t.compare, tree, key, value, overwrite, t.maxNodeSize, height)
      modifies this`keys, this`values, this`children, this`tree, Below(all, height), all`isShared, t`size
      ensures all <= all' && fresh(all' - all) && forall n <- all' :: n in all || n.height <= height
      ensures Gives(r, added, sibling)
      ensures t.size == old(t.size) + if added then 1 else 0
      ensures sibling != null ==>
        sibling in all' && fresh(sibling) && !sibling.isShared && sibling.height == height && sibling.parent == null
      ensures Settled(all', t.maxNodeSize)
      ensures SharedKept(all, height)
      decreases height, 2
    {
      if isLeaf {
        added, sibling := SetInLeaf(key, value, overwrite, t, all);
        all' := if sibling == null then all else all + {sibling};
        Undisturbed(UpTo(all, height, {this}), {this}, all, all', t.maxNodeSize);
      } else {
        added, sibling, all' := SetInInner(key, value, overwrite, t, all, r);
      }
    }

    /** Looks a key up. */
    method Get(key: K, t: BTree<K, V>, ghost all: set<Node<K, V>>) returns (v: Option<V>)
      requires Settled(all, t.maxNodeSize)
      requires TotalOrder(t.compare) && Sorted(t.compare, Contents(tree))
      ensures v == Lookup(t.compare, Contents(tree), key)
      decreases height
    {
      if isLeaf {
        var i := PlaceInLeaf(key, t.compare, all, t.maxNodeSize);
        v := if i < 0 then None else Some(values[i]);
      } else {
        var i := FirstChildFor(key, t, all);
        GoesToChild(t.compare, tree.children, key, t.maxNodeSize, height - 1);
        if i < |children| {
          assert HasChild(i, children[i], t.maxNodeSize);
          ChildSorted(t.compare, tree.children, i);
          v := children[i].Get(key, t, all);
        } else {
          v := None;
        }
      }
    }
  }

  /** Every node of the pool agrees with its children. */
  ghost predicate Coherent<K(!new), V>(all: set<Node<K, V>>, max: nat)
    reads all
  {
    forall n {:trigger n.Local(all, max)} :: n in all ==> n.Local(all, max)
  }

  /** Any number of trees over one pool of nodes: trees that were cloned from one another and the nodes that they,
      or trees since forgotten, have made. */
  ghost predicate Forest<K(!new), V>(all: set<Node<K, V>>, trees: set<BTree<K, V>>, cmp: (K, K) -> int, max: nat)
    reads all, trees
  {
    && TotalOrder(cmp) && 4 <= max <= 256
    && Coherent(all, max)
    && (forall t <- trees :: t.root in all && t.compare == cmp && t.maxNodeSize == max && t.Valid())
  }

  /** An edit of the tree under a node that no node is above, and that is not shared, leaves all nodes coherent. */
  twostate lemma RootEdited<K(!new), V>(
      new top: Node<K, V>, new all: set<Node<K, V>>, new all': set<Node<K, V>>, max: nat)
    requires old(allocated(top) && allocated(all))
    requires top in all && old(!top.isShared && top.parent == null) && old(Coherent(all, max))
    requires forall n <- all :: n != top && n !in old(Below(all, top.height)) ==> Kept(n)
    requires all <= all' && Agree(all', max, top.height) && forall n <- all' :: n in all || n.height <= top.height
    ensures Coherent(all', max)
  {
    var above := set n | n in all && n.height > top.height;
    Undisturbed(above, {top} + old(Below(all, top.height)), all, all', max);
  }

  /** Trees other than the edited one stay valid, holding what they held, when their roots are kept. */
  twostate lemma TreesKept<K(!new), V>(new owner: BTree<K, V>, new all: set<Node<K, V>>, new trees: set<BTree<K, V>>)
    requires old(allocated(all) && allocated(trees) && allocated(owner))
    requires forall t <- trees :: old(t.root) in all && old(t.Valid())
    requires forall t <- trees :: t != owner ==> t.root == old(t.root) && t.size == old(t.size) && Kept(t.root)
    ensures forall t <- trees :: t != owner ==> t.Valid() && t.root.tree == old(t.root.tree)
  {
    forall t | t in trees && t != owner ensures t.Valid() && t.root.tree == old(t.root.tree) {
      assert Kept(t.root);
    }
  }

  /** A node made of two agrees with both. */
  lemma LocalPair<K(!new), V>(n: Node<K, V>, l: Node<K, V>, r: Node<K, V>, all: set<Node<K, V>>, max: nat)
    requires 4 <= max && l in all && r in all && l != r && l.parent == n && r.parent == n
    requires n.height == l.height + 1 == r.height + 1
    requires Shape(l.tree, max, l.height) && Shape(r.tree, max, r.height)
    requires !n.isLeaf && n.children == [l, r] && n.values == [] && n.tree == Inner([l.tree, r.tree])
    requires n.keys == [MaxKey(l.tree, max, l.height), MaxKey(r.tree, max, r.height)]
    ensures n.Local(all, max)
  {
    assert [l.tree, r.tree][0] == l.tree && [l.tree, r.tree][1] == r.tree;
    assert n.HasChild(0, l, max) && n.HasChild(1, r, max);
  }

  /** What BTree.set makes of a root. */
  lemma SetRoot<K(!new), V>(
      cmp: (K, K) -> int, t: Tree<K, V>, r: SetResult<K, V>, k: K, v: V, overwrite: bool, size: nat, max: nat, h: nat)
    requires TotalOrder(cmp) && 4 <= max && Sound(cmp, t, size, max, h)
    requires r == SetNode(cmp, t, k, v, overwrite, max, h)
    ensures Sound(cmp, RootOf(r), if Added(r) then size + 1 else size, max, if r.Split? then h + 1 else h)
    ensures HalfFull(t, max) ==> HalfFull(RootOf(r), max)
    ensures Contents(RootOf(r)) == Updated(cmp, Contents(t), k, v, overwrite) && Added(r) == !Found(cmp, Contents(t), k)
    ensures r.Split? ==> Shape(r.left, max, h) && Shape(r.right, max, h)
  {
    SetKeepsInvariant(cmp, t, k, v, overwrite, max, h);
    SetUpdatesMap(cmp, t, k, v, overwrite, max, h, k);
    SetNodeContents(cmp, t, k, v, overwrite, max, h);
    SetNodeShape(cmp, t, k, v, overwrite, max, h);
    RootOfContents(r);
    if r.Done? && t.Leaf? {
      assert r == SetLeaf(cmp, t.entries, k, v, overwrite, max);
    }
  }

  /** What checkValid asks of a tree of that size and height, as a value, but for the fill of its nodes: leaves at one
      depth, nodes neither empty nor over full, an internal root with two children or more, keys in order, and the size
      right. */
  ghost predicate Sound<K(!new), V>(cmp: (K, K) -> int, t: Tree<K, V>, size: nat, max: nat, h: nat) {
    && RootShape(t, max, h) && (t.Inner? ==> t.Size() >= 2)
    && Sorted(cmp, Contents(t)) && size == |Contents(t)|
  }

  /** The node size a tree gets when one is asked for: between 4 and 256, 32 by default. */
  function NodeSize(asked: Option<nat>): (n: nat)
    ensures 4 <= n <= 256
    ensures asked.Some? && 4 <= asked.value <= 256 ==> n == asked.value
  {
    if asked.None? || asked.value < 4 then 32 else if asked.value > 256 then 256 else asked.value
  }

  class BTree<K(!new), V> {
    var root: Node<K, V>
    var size: nat
    const maxNodeSize: nat
    const compare: (K, K) -> int

    /** The tree is sound, and a root that is not shared is this tree's alone. */
    ghost predicate Valid()
      reads this, root
    {
      && Sound(compare, root.tree, size, maxNodeSize, root.height)
      && (root.isShared || (root.parent == null && root.holder == this))
    }

    /** Every node below the root is at least half full. */
    ghost predicate Balanced()
      reads this, root
    {
      HalfFull(root.tree, maxNodeSize)
    }

    /** What the tree holds. */
    ghost function Pairs(): seq<Pair<K, V>>
      reads this, root
    {
      Contents(root.tree)
    }

    constructor (emptyLeaf: Node<K, V>, compare: (K, K) -> int, maxNodeSize: Option<nat>)
      ensures root == emptyLeaf && size == 0 && this.compare == compare && this.maxNodeSize == NodeSize(maxNodeSize)
    {
      root, size, this.compare, this.maxNodeSize := emptyLeaf, 0, compare, NodeSize(maxNodeSize);
    }

    method Get(key: K, ghost all: set<Node<K, V>>, ghost trees: set<BTree<K, V>>) returns (v: Option<V>)
      requires this in trees && Forest(all, trees, compare, maxNodeSize)
      ensures v == Lookup(compare, Pairs(), key)
    {
      v := root.Get(key, this, all);
    }

    /** A second tree with the same contents, at the cost of marking the root shared. */
    method Clone(ghost all: set<Node<K, V>>, ghost trees: set<BTree<K, V>>)
        returns (copy: BTree<K, V>, ghost trees': set<BTree<K, V>>)
      requires this in trees && Forest(all, trees, compare, maxNodeSize)
      modifies root`isShared
      ensures fresh(copy) && trees' == trees + {copy} && Forest(all, trees', compare, maxNodeSize)
      ensures copy.Pairs() == old(Pairs()) && copy.size == size && copy.root == root && root.isShared
      ensures copy.compare == compare && copy.maxNodeSize == maxNodeSize
      ensures forall t <- trees :: t.Pairs() == old(t.Pairs()) && t.Balanced() == old(t.Balanced())
    {
      root.isShared := true;
      copy := new BTree(root, compare, Some(maxNodeSize));
      copy.size := size;
      trees' := trees + {copy};
      Undisturbed(all, {}, all, all, maxNodeSize);
    }

    /** Before the tree is edited a shared root is replaced by a copy that is this tree's own. */
    method OwnRoot(ghost all: set<Node<K, V>>, ghost trees: set<BTree<K, V>>) returns (ghost all': set<Node<K, V>>)
      requires this in trees && Forest(all, trees, compare, maxNodeSize)
      modifies this`root, all`isShared
      ensures all <= all' && fresh(all' - all) && Forest(all', trees, compare, maxNodeSize)
      ensures !root.isShared && root.tree == old(root.tree) && root.height == old(root.height)
      ensures root == old(root) || fresh(root)
      ensures forall t <- trees :: t != this ==> t.root == old(t.root) && t.root.tree == old(t.root.tree)
      ensures forall n <- all :: Kept(n)
    {
      all' := all;
      if root.isShared {
        all' := CopyRoot(all);
        TreesKept(this, all, trees);
      }
    }

    method CopyRoot(ghost all: set<Node<K, V>>) returns (ghost all': set<Node<K, V>>)
      requires root in all && Coherent(all, maxNodeSize) && root.isShared
      modifies this`root, all`isShared
      ensures all' == all + {root} && fresh(root) && Coherent(all', maxNodeSize)
      ensures !root.isShared && root.tree == old(root.tree) && root.height == old(root.height)
      ensures root.parent == null && root.holder == this
      ensures forall n <- all :: Kept(n)
    {
      assert root.Local(all, maxNodeSize);
      ghost var was := root;
      root.AboutChildren(all, maxNodeSize);
      root := root.Clone();
      root.holder := this;
      all' := all + {root};
      forall n | n in all ensures Kept(n) {
        assert KeptInside(n) && n.parent == old(n.parent) && n.holder == old(n.holder);
      }
      LocalCopied(was, root, all, all', maxNodeSize);
      Undisturbed(all, {}, all, all', maxNodeSize);
    }

    /** A root that has split becomes the left child of a new root. */
    method GrowRoot(right: Node<K, V>, ghost all: set<Node<K, V>>) returns (ghost all': set<Node<K, V>>)
      requires root in all && right in all && root != right && 4 <= maxNodeSize && Coherent(all, maxNodeSize)
      requires !root.isShared && root.parent == null && !right.isShared && right.parent == null
      requires right.height == root.height
      requires Shape(root.tree, maxNodeSize, root.height) && Shape(right.tree, maxNodeSize, root.height)
      modifies this`root, root`parent, right`parent
      ensures fresh(root) && all' == all + {root} && Coherent(all', maxNodeSize)
      ensures root.tree == Inner([old(root).tree, right.tree]) && root.height == old(root).height + 1
      ensures !root.isShared && root.parent == null && root.holder == this
    {
      ghost var left := root;
      assert root.Local(all, maxNodeSize) && right.Local(all, maxNodeSize);
      root.EndKeys(all, maxNodeSize);
      right.EndKeys(all, maxNodeSize);
      root := new Node.OfChildren([root, right], [root.MaxKeyHere(), right.MaxKeyHere()], root.height + 1,
        Inner([root.tree, right.tree]));
      left.parent, right.parent, root.holder := root, root, this;
      all' := all + {root};
      LocalPair(root, left, right, all', maxNodeSize);
      Undisturbed(all, {left, right}, all, all', maxNodeSize);
    }

    /** Sets a key in this tree. Every other tree, whatever nodes it shares with this one, holds what it held. */
    method Set(key: K, value: V, overwrite: bool, ghost all: set<Node<K, V>>, ghost trees: set<BTree<K, V>>)
      returns (added: bool, ghost all': set<Node<K, V>>)
      requires this in trees && Forest(all, trees, compare, maxNodeSize)
      modifies this`root, this`size, all
      ensures all <= all' && fresh(all' - all) && Forest(all', trees, compare, maxNodeSize)
      ensures Pairs() == Updated(compare, old(Pairs()), key, value, overwrite)
      ensures added == !Found(compare, old(Pairs()), key)
      ensures old(Balanced()) ==> Balanced()
      ensures forall t <- trees :: t != this ==> t.Pairs() == old(t.Pairs()) && t.Balanced() == old(t.Balanced())
      ensures forall n <- all :: old(n.isShared) ==> Kept(n)
    {
      all' := OwnRoot(all, trees);
      added, all' := SetOwned(key, value, overwrite, all', trees);
    }

    method SetOwned(key: K, value: V, overwrite: bool, ghost all: set<Node<K, V>>, ghost trees: set<BTree<K, V>>)
      returns (added: bool, ghost all': set<Node<K, V>>)
      requires this in trees && Forest(all, trees, compare, maxNodeSize) && !root.isShared
      modifies this`root, this`size, root, Below(all, root.height), all`isShared
      ensures all <= all' && fresh(all' - all) && Forest(all', trees, compare, maxNodeSize)
      ensures Pairs() == Updated(compare, old(Pairs()), key, value, overwrite)
      ensures added == !Found(compare, old(Pairs()), key)
      ensures old(Balanced()) ==> Balanced()
      ensures forall t <- trees :: t != this ==> t.root == old(t.root) && t.root.tree == old(t.root.tree)
      ensures forall n <- all :: old(n.isShared) ==> Kept(n)
    {
      hide SetNode;
      ghost var r := SetNode(compare, root.tree, key, value, overwrite, maxNodeSize, root.height);
      SetRoot(compare, root.tree, r, key, value, overwrite, size, maxNodeSize, root.height);
      assert forall t <- trees :: t != this ==> t.root != root;
      added, all' := SetAndGrow(key, value, overwrite, all, r);
      TreesKept(this, all, trees);
    }

    method SetAndGrow(key: K, value: V, overwrite: bool, ghost all: set<Node<K, V>>, ghost r: SetResult<K, V>)
      returns (added: bool, ghost all': set<Node<K, V>>)
      requires root in all && Coherent(all, maxNodeSize) && !root.isShared && root.parent == null
      requires root.holder == this && 4 <= maxNodeSize
      requires RootShape(root.tree, maxNodeSize, root.height)
      requires TotalOrder(compare) && Sorted(compare, Contents(root.tree))
      requires r == SetNode(compare, root.tree, key, value, overwrite, maxNodeSize, root.height)
      requires r.Split? ==> Shape(r.left, maxNodeSize, root.height) && Shape(r.right, maxNodeSize, root.height)
      modifies this`root, this`size, root, Below(all, root.height), all`isShared
      ensures all <= all' && fresh(all' - all) && root in all' && Coherent(all', maxNodeSize)
      ensures root.tree == RootOf(r) && root.height == old(root.height) + (if r.Split? then 1 else 0)
      ensures !root.isShared && root.parent == null && root.holder == this
      ensures added == Added(r) && size == old(size) + if added then 1 else 0
      ensures forall n <- all :: n != old(root) && n !in old(Below(all, root.height)) ==> Kept(n)
    {
      var sibling;
      added, sibling, all' := SetAtRoot(key, value, overwrite, all, r);
      if sibling != null {
        all' := GrowRoot(sibling, all');
      }
    }

    method SetAtRoot(key: K, value: V, overwrite: bool, ghost all: set<Node<K, V>>, ghost r: SetResult<K, V>)
      returns (added: bool, sibling: Node?<K, V>, ghost all': set<Node<K, V>>)
      requires root in all && Coherent(all, maxNodeSize) && !root.isShared && root.parent == null && 4 <= maxNodeSize
      requires RootShape(root.tree, maxNodeSize, root.height)
      requires TotalOrder(compare) && Sorted(compare, Contents(root.tree))
      requires r == SetNode(compare, root.tree, key, value, overwrite, maxNodeSize, root.height)
      modifies this`size, root`keys, root`values, root`children, root`tree, Below(all, root.height), all`isShared
      ensures all <= all' && fresh(all' - all) && Coherent(all', maxNodeSize)
      ensures root.Gives(r, added, sibling) && !root.isShared
      ensures size == old(size) + if added then 1 else 0
      ensures sibling != null ==>
        sibling in all' && fresh(sibling) && !sibling.isShared && sibling.height == root.height &&
        sibling.parent == null
      ensures forall n <- all :: n != root && n !in old(Below(all, root.height)) ==> Kept(n)
    {
      hide SetNode;
      assert root.Local(all, maxNodeSize);
      added, sibling, all' := root.Set(key, value, overwrite, this, all, r);
      assert SharedKept(all, root.height);
      forall n <- all | n != root && n !in old(Below(all, root.height)) ensures Kept(n) {
        assert KeptInside(n) && n.parent == old(n.parent) && n.holder == old(n.holder);
      }
      RootEdited(root, all, all', maxNodeSize);
    }

    /** A copy with the pair set, or this tree when the key was there and overwrite is not true. */
    method With(key: K, value: V, overwrite: Option<bool>, ghost all: set<Node<K, V>>, ghost trees: set<BTree<K, V>>)
      returns (result: BTree<K, V>, ghost all': set<Node<K, V>>, ghost trees': set<BTree<K, V>>)
      requires this in trees && Forest(all, trees, compare, maxNodeSize)
      modifies root`isShared, all
      ensures all <= all' && fresh(all' - all) && trees <= trees' && Forest(all', trees', compare, maxNodeSize)
      ensures if Found(compare, old(Pairs()), key) && overwrite != Some(true) then result == this
        else fresh(result) && result in trees' && result.Pairs() == Put(compare, old(Pairs()), key, value)
      ensures old(Balanced()) ==> result.Balanced()
      ensures forall t <- trees :: t.Pairs() == old(t.Pairs()) && t.Balanced() == old(t.Balanced())
      ensures forall n <- all :: old(n.isShared) ==> Kept(n)
    {
      var nu;
      nu, trees' := Clone(all, trees);
      label cloned:
      var added;
      added, all' := nu.Set(key, value, overwrite != Some(false), all, trees');
      forall n | n in all && old(n.isShared) ensures Kept(n) {
        assert Kept@cloned(n);
      }
      result := if added || overwrite == Some(true) then nu else this;
    }

    /** Forgets all pairs: the root becomes the one empty leaf, which is always shared. */
    method Clear(emptyLeaf: Node<K, V>, ghost all: set<Node<K, V>>, ghost trees: set<BTree<K, V>>)
      requires this in trees && Forest(all, trees, compare, maxNodeSize)
      requires emptyLeaf in all && emptyLeaf.isShared && emptyLeaf.isLeaf && emptyLeaf.keys == []
      modifies this`root, this`size
      ensures Forest(all, trees, compare, maxNodeSize) && Pairs() == [] && Balanced()
      ensures forall t <- trees :: t != this ==> t.Pairs() == old(t.Pairs()) && t.Balanced() == old(t.Balanced())
    {
      root := emptyLeaf;
      size := 0;
      assert emptyLeaf.Local(all, maxNodeSize);
    }
  }

  // --------------------------------------------------------------- histories

  datatype Op<K, V> =
    | NewTree
    | CloneOf(tree: nat)
    | SetIn(tree: nat, key: K, value: V, overwrite: bool)
    | WithIn(tree: nat, key: K, value: V, withOverwrite: Option<bool>)
    | ClearOf(tree: nat)

  /** What a history of operations on any number of trees means when each tree is a map of its own. */
  ghost function After<K(!new), V>(cmp: (K, K) -> int, maps: seq<seq<Pair<K, V>>>, op: Op<K, V>): seq<seq<Pair<K, V>>> {
    if op.NewTree? then maps + [[]]
    else if op.tree >= |maps| then maps
    else
      var s := maps[op.tree];
      match op
      case CloneOf(_) => maps + [s]
      case SetIn(i, k, v, overwrite) => maps[i := Updated(cmp, s, k, v, overwrite)]
      case WithIn(_, k, v, overwrite) => if Found(cmp, s, k) && overwrite != Some(true) then maps
        else maps + [Put(cmp, s, k, v)]
      case ClearOf(i) => maps[i := []]
      case NewTree => maps
  }

  ghost function AfterAll<K(!new), V>(cmp: (K, K) -> int, ops: seq<Op<K, V>>): seq<seq<Pair<K, V>>> {
    if |ops| == 0 then [] else After(cmp, AfterAll(cmp, ops[..|ops| - 1]), ops[|ops| - 1])
  }

  /** What an operation on maps of their own leaves under a key of each map: setting changes the one key of the one map,
      clearing empties it, and a new map is empty, or a copy, or a copy with one more pair. */
  lemma AfterLeaves<K(!new), V>(cmp: (K, K) -> int, maps: seq<seq<Pair<K, V>>>, op: Op<K, V>, i: nat, x: K)
    requires TotalOrder(cmp) && (forall m <- maps :: Sorted(cmp, m)) && i < |maps|
    requires !op.NewTree? ==> op.tree < |maps|
    ensures var after := After(cmp, maps, op);
      && |after| == |maps| + (
        if op.NewTree? || op.CloneOf? then 1
        else if op.WithIn? && (Lookup(cmp, maps[op.tree], op.key).None? || op.withOverwrite == Some(true)) then 1
        else 0)
      && Lookup(cmp, after[i], x) == (
        if op.ClearOf? && op.tree == i then None
        else if op.SetIn? && op.tree == i && x == op.key && (op.overwrite || Lookup(cmp, maps[i], x).None?)
          then Some(op.value) else Lookup(cmp, maps[i], x))
      && (|after| > |maps| ==>
          Lookup(cmp, after[|maps|], x) == if op.NewTree? then None
            else if op.WithIn? && x == op.key then Some(op.value) else Lookup(cmp, maps[op.tree], x))
  {
    if !op.NewTree? {
      assert maps[op.tree] in maps;
      if op.SetIn? || op.WithIn? {
        hide Put;
        PutLookup(cmp, maps[op.tree], op.key, op.value, x);
      }
    }
  }

  lemma OneMoreOperation<K(!new), V>(cmp: (K, K) -> int, ops: seq<Op<K, V>>, op: Op<K, V>)
    ensures AfterAll(cmp, ops + [op]) == After(cmp, AfterAll(cmp, ops), op)
  {
    hide After;
    assert (ops + [op])[..|ops|] == ops;
  }

  ghost function SetOf<T>(s: seq<T>): set<T> {
    set x | x in s
  }

  /** The trees hold the maps, tree by tree, and no two of them are the same. */
  ghost predicate Hold<K(!new), V>(trees: seq<BTree<K, V>>, maps: seq<seq<Pair<K, V>>>)
    reads trees, set t <- trees :: t.root
  {
    && |trees| == |maps|
    && (forall i :: 0 <= i < |trees| ==> trees[i].Pairs() == maps[i])
    && (forall i, j :: 0 <= i < j < |trees| ==> trees[i] != trees[j])
  }

  ghost predicate AllBalanced<K(!new), V>(trees: set<BTree<K, V>>)
    reads trees, set t <- trees :: t.root
  {
    forall t <- trees :: t.Balanced()
  }

  ghost predicate IsEmptyLeaf<K(!new), V>(n: Node<K, V>)
    reads n
  {
    n.isShared && n.isLeaf && n.keys == []
  }

  /** Only tree i has changed. */
  twostate lemma HoldChanged<K(!new), V>(
      new trees: seq<BTree<K, V>>, new maps: seq<seq<Pair<K, V>>>, new i: nat, new m: seq<Pair<K, V>>)
    requires old(allocated(trees) && allocated(maps)) && old(Hold(trees, maps)) && i < |trees|
    requires forall t <- SetOf(trees) :: t != trees[i] ==> t.Pairs() == old(t.Pairs())
    requires trees[i].Pairs() == m
    ensures Hold(trees, maps[i := m])
  {
    forall j | 0 <= j < |trees| && j != i ensures trees[j].Pairs() == maps[j] {
      assert trees[j] in SetOf(trees) && trees[j] != trees[i];
    }
  }

  /** No tree has changed, and there is a new one. */
  twostate lemma HoldMore<K(!new), V>(
      new trees: seq<BTree<K, V>>, new maps: seq<seq<Pair<K, V>>>, new t: BTree<K, V>, new m: seq<Pair<K, V>>)
    requires old(allocated(trees) && allocated(maps)) && old(Hold(trees, maps)) && t !in trees
    requires forall u <- SetOf(trees) :: u.Pairs() == old(u.Pairs())
    requires t.Pairs() == m
    ensures Hold(trees + [t], maps + [m]) && SetOf(trees + [t]) == SetOf(trees) + {t}
  {
    forall j | 0 <= j < |trees| ensures trees[j].Pairs() == maps[j] {
      assert trees[j] in SetOf(trees);
    }
  }

  /** A new tree starts with the empty leaf as its root. */
  method NewEmpty<K(!new), V>(emptyLeaf: Node<K, V>, cmp: (K, K) -> int, maxNodeSize: Option<nat>,
      ghost all: set<Node<K, V>>, ghost trees: set<BTree<K, V>>)
    returns (t: BTree<K, V>)
    requires Forest(all, trees, cmp, NodeSize(maxNodeSize))
    requires emptyLeaf in all && IsEmptyLeaf(emptyLeaf)
    ensures fresh(t) && t.Pairs() == [] && t.Balanced() && Forest(all, trees + {t}, cmp, NodeSize(maxNodeSize))
  {
    t := new BTree(emptyLeaf, cmp, maxNodeSize);
    assert emptyLeaf.Local(all, t.maxNodeSize);
  }

  /** One operation, on the trees that earlier ones have left. */
  method Apply<K(!new), V>(
      op: Op<K, V>, trees: seq<BTree<K, V>>, emptyLeaf: Node<K, V>, cmp: (K, K) -> int, maxNodeSize: Option<nat>,
      ghost all: set<Node<K, V>>, ghost maps: seq<seq<Pair<K, V>>>)
    returns (trees': seq<BTree<K, V>>, ghost all': set<Node<K, V>>)
    requires Forest(all, SetOf(trees), cmp, NodeSize(maxNodeSize)) && Hold(trees, maps)
    requires emptyLeaf in all && IsEmptyLeaf(emptyLeaf)
    modifies all, trees
    ensures all <= all' && fresh(all' - all) && fresh(SetOf(trees') - SetOf(trees))
    ensures Forest(all', SetOf(trees'), cmp, NodeSize(maxNodeSize)) && Hold(trees', After(cmp, maps, op))
    ensures IsEmptyLeaf(emptyLeaf)
    ensures old(AllBalanced(SetOf(trees))) ==> AllBalanced(SetOf(trees'))
  {
    hide Updated, Put, Found, Coherent;
    trees', all' := trees, all;
    if op.NewTree? {
      var t := NewEmpty(emptyLeaf, cmp, maxNodeSize, all, SetOf(trees));
      trees' := trees + [t];
      HoldMore(trees, maps, t, []);
    } else if op.tree < |trees| {
      trees', all' := ApplyTo(trees[op.tree], op, trees, emptyLeaf, cmp, NodeSize(maxNodeSize), all, maps);
    }
  }

  method ApplyTo<K(!new), V>(
      t: BTree<K, V>, op: Op<K, V>, trees: seq<BTree<K, V>>, emptyLeaf: Node<K, V>, cmp: (K, K) -> int, ghost max: nat,
      ghost all: set<Node<K, V>>, ghost maps: seq<seq<Pair<K, V>>>)
    returns (trees': seq<BTree<K, V>>, ghost all': set<Node<K, V>>)
    requires !op.NewTree? && op.tree < |trees| && t == trees[op.tree] && t in SetOf(trees) && t.compare == cmp
    requires t.maxNodeSize == max
    requires Forest(all, SetOf(trees), cmp, max) && Hold(trees, maps) && |trees| == |maps| && t.Pairs() == maps[op.tree]
    requires emptyLeaf in all && IsEmptyLeaf(emptyLeaf)
    modifies all, t
    ensures all <= all' && fresh(all' - all) && fresh(SetOf(trees') - SetOf(trees))
    ensures Forest(all', SetOf(trees'), cmp, max) && Hold(trees', After(cmp, maps, op))
    ensures IsEmptyLeaf(emptyLeaf)
    ensures old(AllBalanced(SetOf(trees))) ==> AllBalanced(SetOf(trees'))
  {
    hide Updated, Put, Found, Coherent, Hold;
    trees', all' := trees, all;
    match op {
      case CloneOf(i) =>
        var copy;
        ghost var ts;
        copy, ts := t.Clone(all, SetOf(trees));
        trees' := trees + [copy];
        HoldMore(trees, maps, copy, maps[i]);
      case SetIn(i, key, value, overwrite) =>
        var added;
        added, all' := t.Set(key, value, overwrite, all, SetOf(trees));
        HoldChanged(trees, maps, i, t.Pairs());
      case WithIn(i, key, value, overwrite) =>
        var result;
        ghost var ts;
        result, all', ts := t.With(key, value, overwrite, all, SetOf(trees));
        if result != t {
          trees' := trees + [result];
          HoldMore(trees, maps, result, result.Pairs());
        } else {
          HoldChanged(trees, maps, i, t.Pairs());
          assert maps[i := t.Pairs()] == maps;
        }
      case ClearOf(i) =>
        t.Clear(emptyLeaf, all, SetOf(trees));
        HoldChanged(trees, maps, i, []);
    }
  }

  /** Copy-on-write isolation: whatever the history, each tree holds what it would hold if it shared nothing. */
  method Run<K(!new), V>(ops: seq<Op<K, V>>, cmp: (K, K) -> int, maxNodeSize: Option<nat>)
      returns (trees: seq<BTree<K, V>>)
    requires TotalOrder(cmp)
    ensures |trees| == |AfterAll(cmp, ops)|
    ensures forall i :: 0 <= i < |trees| ==> trees[i].Pairs() == AfterAll(cmp, ops)[i]
    ensures forall t <- trees :: t.Valid() && t.Balanced()
    ensures forall i, j :: 0 <= i < j < |trees| ==> trees[i] != trees[j]
  {
    var emptyLeaf := new Node.OfEntries([], []);
    emptyLeaf.isShared := true;
    ghost var all := {emptyLeaf};
    trees := [];
    for i := 0 to |ops|
      invariant fresh(all) && fresh(SetOf(trees))
      invariant Forest(all, SetOf(trees), cmp, NodeSize(maxNodeSize)) && Hold(trees, AfterAll(cmp, ops[..i]))
      invariant emptyLeaf in all && IsEmptyLeaf(emptyLeaf) && AllBalanced(SetOf(trees))
    {
      assert ops[..i + 1][..i] == ops[..i];
      trees, all := Apply(ops[i], trees, emptyLeaf, cmp, maxNodeSize, all, AfterAll(cmp, ops[..i]));
    }
    assert ops[..|ops|] == ops;
  }
}
