/** Histories in which deletions take part. */
module NodeHistories {
  import opened Options
  import opened SortedPairs
  import opened TreeSpec
  import opened TreeNodes
  import opened TreeDelete
  import opened NodeDeletion

  datatype Step<K, V> =
    | Plain(op: Op<K, V>)
    | DeleteIn(tree: nat, low: K, high: K, includeHigh: bool)
    | WithoutIn(tree: nat, key: K, returnThis: bool)

  /** What a history means when each tree is a map of its own. */
  ghost function AfterStep<K(!new), V>(
      cmp: (K, K) -> int, maps: seq<seq<Pair<K, V>>>, step: Step<K, V>): seq<seq<Pair<K, V>>> {
    match step
    case Plain(op) => After(cmp, maps, op)
    case DeleteIn(i, low, high, includeHigh) => if i < |maps|
      then maps[i := Outside(cmp, maps[i], low, high, includeHigh)] else maps
    case WithoutIn(i, key, returnThis) =>
      if i >= |maps| then maps
      else
        var left := Outside(cmp, maps[i], key, key, true);
        if returnThis && left == maps[i] then maps else maps + [left]
  }

  /** The tree that a deletion leaves its marks in: the one it is called on, or the new one. */
  ghost predicate Stranded<K(!new), V>(trees: seq<BTree<K, V>>, step: Step<K, V>, max: nat)
    reads trees, set t <- trees :: t.root
  {
    !step.Plain? && var i := if step.DeleteIn? then step.tree else |trees| - 1;
    0 <= i < |trees| && !RootShape(trees[i].root.tree, max, trees[i].root.height)
  }

  /** A deletion in a tree whose root has children that are not leaves. */
  predicate IsDeep<K(!new), V>(trees: seq<BTree<K, V>>, step: Step<K, V>)
    reads trees, set t <- trees :: t.root
    reads set t <- trees, c <- t.root.children :: c
  {
    !step.Plain? && step.tree < |trees| && exists c <- trees[step.tree].root.children :: !c.isLeaf
  }

  lemma NotDeep<K(!new), V>(
      trees: seq<BTree<K, V>>, step: Step<K, V>, all: set<Node<K, V>>, cmp: (K, K) -> int, max: nat)
    requires Forest(all, SetOf(trees), cmp, max) && !step.Plain? && step.tree < |trees| && !IsDeep(trees, step)
    ensures trees[step.tree].root.height <= 1
  {
    hide TotalOrder;
    var top := trees[step.tree].root;
    assert trees[step.tree] in SetOf(trees);
    assert top.Local(all, max);
    if !top.isLeaf {
      assert top.HasChild(0, top.children[0], max);
      assert top.children[0].Local(all, max);
    }
  }

  ghost function AfterSteps<K(!new), V>(cmp: (K, K) -> int, steps: seq<Step<K, V>>): seq<seq<Pair<K, V>>> {
    if |steps| == 0 then [] else AfterStep(cmp, AfterSteps(cmp, steps[..|steps| - 1]), steps[|steps| - 1])
  }

  /** What a step leaves under a key of each map: a deletion takes the keys of the range out of the one map, and a copy
      without a key has all the others. */
  lemma AfterStepLeaves<K(!new), V>(
      cmp: (K, K) -> int, maps: seq<seq<Pair<K, V>>>, step: Step<K, V>, i: nat, p: Pair<K, V>)
    requires TotalOrder(cmp) && (forall m <- maps :: Sorted(cmp, m)) && i < |maps|
    requires !step.Plain? && step.tree < |maps|
    ensures var after := AfterStep(cmp, maps, step);
      && |after| >= |maps|
      && (p in after[i] <==>
          && p in maps[i]
          && !(step.DeleteIn? && step.tree == i && cmp(p.key, step.low) >= 0 &&
            cmp(p.key, step.high) < if step.includeHigh then 1 else 0))
      && (step.DeleteIn? || (step.returnThis && Lookup(cmp, maps[step.tree], step.key).None?) <==> |after| == |maps|)
      && (|after| > |maps| ==>
          |after| == |maps| + 1 && (p in after[|maps|] <==> p in maps[step.tree] && p.key != step.key))
  {
    match step
    case DeleteIn(_, low, high, includeHigh) =>
      OutsideMembers(cmp, maps[i], low, high, includeHigh, p);
    case WithoutIn(j, key, _) =>
      var s := maps[j];
      assert s in maps;
      OutsideMembers(cmp, s, key, key, true, p);
      Differ(cmp, p.key, key);
      KeepsAllWhenAbsent(cmp, s, key);
  }

  /** Deleting a key that is not there changes nothing, and only that. */
  lemma KeepsAllWhenAbsent<K(!new), V>(cmp: (K, K) -> int, s: seq<Pair<K, V>>, key: K)
    requires TotalOrder(cmp) && Sorted(cmp, s)
    ensures Outside(cmp, s, key, key, true) == s <==> Lookup(cmp, s, key).None?
  {
    hide Lookup;
    if Lookup(cmp, s, key).Some? {
      var p := Pair(key, Lookup(cmp, s, key).value);
      LookupMeansMember(cmp, s, key, p.val);
      OutsideMembers(cmp, s, key, key, true, p);
      Differ(cmp, key, key);
    } else {
      forall i | 0 <= i < |s| ensures !InRange(cmp, s[i].key, key, key, true) {
        Differ(cmp, s[i].key, key);
        LookupMeansMember(cmp, s, key, s[i].val);
        assert s[i] == Pair(s[i].key, s[i].val);
      }
      OutsideAll(cmp, s, key, key, true);
    }
  }

  lemma OneMoreStep<K(!new), V>(cmp: (K, K) -> int, steps: seq<Step<K, V>>, step: Step<K, V>)
    ensures AfterSteps(cmp, steps + [step]) == AfterStep(cmp, AfterSteps(cmp, steps), step)
  {
    hide AfterStep;
    assert (steps + [step])[..|steps|] == steps;
  }

  /** Whether a node and those below it hold something; part of what checkValid checks. */
  method NoEmptyNode<K(!new), V>(n: Node<K, V>, ghost pool: set<Node<K, V>>, ghost max: nat) returns (ok: bool)
    requires n in pool && LooseAll(pool, max)
    ensures ok <==> Shape(n.tree, max, n.height)
    decreases n.height
  {
    hide LooseNode, LooseAll;
    AboutRoot(n, pool, max);
    AboutFill(n, pool, max);
    ok := |n.keys| > 0;
    if ok && !n.isLeaf {
      for i := 0 to |n.children|
        invariant ok <==> forall j :: 0 <= j < i ==> Shape(n.tree.children[j], max, n.height - 1)
      {
        AboutChildOf(n, i, pool, max);
        var filled := NoEmptyNode(n.children[i], pool, max);
        ok := ok && filled;
      }
    }
  }

  lemma AboutFill<K(!new), V>(n: Node<K, V>, pool: set<Node<K, V>>, max: nat)
    requires n in pool && LooseAll(pool, max)
    ensures n.tree.Size() <= max
  {
    assert LooseNode(n, pool, max);
  }

  lemma AboutChildOf<K(!new), V>(n: Node<K, V>, i: nat, pool: set<Node<K, V>>, max: nat)
    requires n in pool && LooseAll(pool, max) && !n.isLeaf && i < |n.children|
    ensures n.children[i] in pool && n.children[i].height == n.height - 1
    ensures n.tree.Inner? && |n.tree.children| == |n.children| && n.children[i].tree == n.tree.children[i]
  {
    assert LooseNode(n, pool, max);
    assert LinkedTo(n, i, n.children[i], max);
  }

  /** Whether a deletion has left the tree without empty nodes. */
  method NoneStranded<K(!new), V>(t: BTree<K, V>, ghost pool: set<Node<K, V>>) returns (ok: bool)
    requires LooseAll(pool, t.maxNodeSize) && t.root in pool
    ensures ok <==> RootShape(t.root.tree, t.maxNodeSize, t.root.height)
  {
    hide LooseNode, LooseAll, Shape;
    AboutRoot(t.root, pool, t.maxNodeSize);
    AboutFill(t.root, pool, t.maxNodeSize);
    if t.root.isLeaf {
      ok := true;
      LeafRoot(t.root.tree, t.maxNodeSize);
    } else {
      ok := NoEmptyNode(t.root, pool, t.maxNodeSize);
    }
  }

  lemma LeafRoot<K, V>(t: Tree<K, V>, max: nat)
    requires t.Leaf? && t.Size() <= max
    ensures RootShape(t, max, 0)
  {
  }

  /** One deletion, on the trees that earlier operations have left. */
  method DeleteStep<K(!new), V>(i: nat, low: K, high: K, includeHigh: bool, trees: seq<BTree<K, V>>,
      emptyLeaf: Node<K, V>, cmp: (K, K) -> int, ghost max: nat,
      ghost all: set<Node<K, V>>, ghost maps: seq<seq<Pair<K, V>>>, marks: bool)
    returns (sound: bool, ghost all': set<Node<K, V>>)
    requires Forest(all, SetOf(trees), cmp, max) && Hold(trees, maps) && i < |trees| && emptyLeaf in all
    requires IsEmptyLeaf(emptyLeaf)
    requires marks || trees[i].root.height <= 1
    modifies all, trees
    ensures fresh(all' - all) && emptyLeaf in all' && IsEmptyLeaf(emptyLeaf)
    ensures Hold(trees, maps[i := Outside(cmp, maps[i], low, high, includeHigh)])
    ensures sound ==> Forest(all', SetOf(trees), cmp, max)
    ensures sound <==> RootShape(trees[i].root.tree, max, trees[i].root.height)
  {
    hide Coherent, Outside, LooseAll, RootShape, Shape;
    var t := trees[i];
    assert t in SetOf(trees);
    var deleted;
    ghost var pool;
    deleted, all', pool := DeleteRangeIn(t, low, high, false, includeHigh, emptyLeaf, all, SetOf(trees), marks);
    sound := NoneStranded(t, pool);
    HoldChanged(trees, maps, i, t.Pairs());
  }

  /** A copy that has lost a key, beside the trees that earlier operations have left. */
  method WithoutStep<K(!new), V>(
      i: nat, key: K, returnThis: bool, trees: seq<BTree<K, V>>, emptyLeaf: Node<K, V>, cmp: (K, K) -> int,
      ghost max: nat, ghost all: set<Node<K, V>>, ghost maps: seq<seq<Pair<K, V>>>, marks: bool)
    returns (trees': seq<BTree<K, V>>, sound: bool, ghost all': set<Node<K, V>>)
    requires Forest(all, SetOf(trees), cmp, max) && Hold(trees, maps) && i < |trees| && emptyLeaf in all
    requires IsEmptyLeaf(emptyLeaf)
    requires marks || trees[i].root.height <= 1
    modifies all
    ensures fresh(all' - all) && emptyLeaf in all' && IsEmptyLeaf(emptyLeaf) && forall t <- trees' ::
      t in trees || fresh(t)
    ensures |trees| == |maps| && Hold(trees', AfterStep(cmp, maps, WithoutIn(i, key, returnThis)))
    ensures Forest(all', SetOf(trees), cmp, max)
    ensures sound ==> Forest(all', SetOf(trees'), cmp, max)
    ensures !sound ==> Stranded(trees', WithoutIn(i, key, returnThis), max)
  {
    hide Coherent, Outside, LooseAll, RootShape, Shape;
    var t := trees[i];
    assert t in SetOf(trees);
    var result;
    ghost var pool;
    result, all', pool := WithoutRange(t, key, key, true, true, returnThis, emptyLeaf, all, SetOf(trees), marks);
    if result == t {
      trees', sound := trees, true;
      HoldChanged(trees, maps, i, t.Pairs());
      assert maps[i := t.Pairs()] == maps;
    } else {
      sound := NoneStranded(result, pool);
      trees' := trees + [result];
      HoldMore(trees, maps, result, result.Pairs());
    }
  }

  method OneStep<K(!new), V>(
      step: Step<K, V>, trees: seq<BTree<K, V>>, emptyLeaf: Node<K, V>, cmp: (K, K) -> int, maxNodeSize: Option<nat>,
      marks: bool, ghost all: set<Node<K, V>>, ghost maps: seq<seq<Pair<K, V>>>)
    returns (trees': seq<BTree<K, V>>, sound: bool, ghost all': set<Node<K, V>>)
    requires Forest(all, SetOf(trees), cmp, NodeSize(maxNodeSize)) && Hold(trees, maps) && emptyLeaf in all
    requires IsEmptyLeaf(emptyLeaf) && (marks || !IsDeep(trees, step))
    modifies all, trees
    ensures fresh(all' - all) && emptyLeaf in all' && IsEmptyLeaf(emptyLeaf)
    ensures forall t <- trees' :: t in trees || fresh(t)
    ensures Hold(trees', AfterStep(cmp, maps, step))
    ensures sound ==> Forest(all', SetOf(trees'), cmp, NodeSize(maxNodeSize))
    ensures !sound ==> Stranded(trees', step, NodeSize(maxNodeSize))
  {
    hide Forest, Coherent, Outside, RootShape, Shape, Hold;
    trees', sound, all' := trees, true, all;
    HoldLength(trees, maps);
    if !marks && !step.Plain? && step.tree < |trees| {
      NotDeep(trees, step, all, cmp, NodeSize(maxNodeSize));
    }
    match step {
      case Plain(op) =>
        trees', all' := Apply(op, trees, emptyLeaf, cmp, maxNodeSize, all, maps);
        assert forall t <- trees' :: t in SetOf(trees') && (t in SetOf(trees) || fresh(t));
      case DeleteIn(i, low, high, includeHigh) =>
        if i < |trees| {
          sound, all' := DeleteStep(i, low, high, includeHigh, trees, emptyLeaf, cmp, NodeSize(maxNodeSize), all, maps,
            marks);
        }
      case WithoutIn(i, key, returnThis) =>
        if i < |trees| {
          trees', sound, all' := WithoutStep(i, key, returnThis, trees, emptyLeaf, cmp, NodeSize(maxNodeSize), all,
            maps, marks);
        }
    }
  }

  /** Copy-on-write isolation with deletions: up to the first deletion that strands a node, and including it, each tree
      holds what it would hold if it shared nothing. Without the two marks, which the source lacks, that goes up to the
      first deletion in a tree of a height of two or more. */
  method RunSteps<K(!new), V>(steps: seq<Step<K, V>>, cmp: (K, K) -> int, maxNodeSize: Option<nat>, marks: bool)
      returns (trees: seq<BTree<K, V>>, done: nat)
    requires TotalOrder(cmp)
    ensures done <= |steps| && |trees| == |AfterSteps(cmp, steps[..done])|
    ensures forall i :: 0 <= i < |trees| ==> trees[i].Pairs() == AfterSteps(cmp, steps[..done])[i]
    ensures done < |steps| ==>
      || (done > 0 && !steps[done - 1].Plain? &&
          exists t <- trees :: !RootShape(t.root.tree, NodeSize(maxNodeSize), t.root.height))
      || (!marks && !steps[done].Plain? && steps[done].tree < |trees| &&
          exists c <- trees[steps[done].tree].root.children :: !c.isLeaf)
  {
    hide AfterSteps, Hold, TotalOrder, RootShape;
    trees, done := RunUpTo(steps, cmp, maxNodeSize, marks);
    HoldEach(trees, AfterSteps(cmp, steps[..done]));
  }

  method RunUpTo<K(!new), V>(steps: seq<Step<K, V>>, cmp: (K, K) -> int, maxNodeSize: Option<nat>, marks: bool)
      returns (trees: seq<BTree<K, V>>, done: nat)
    requires TotalOrder(cmp)
    ensures done <= |steps| && Hold(trees, AfterSteps(cmp, steps[..done]))
    ensures done < |steps| ==>
      || (done > 0 && Stranded(trees, steps[done - 1], NodeSize(maxNodeSize)))
      || (!marks && IsDeep(trees, steps[done]))
  {
    hide Coherent, Forest, Outside, RootShape, Shape, Hold, AfterStep, Stranded, IsDeep;
    var emptyLeaf := new Node.OfEntries([], []);
    emptyLeaf.isShared := true;
    ghost var all := {emptyLeaf};
    trees := [];
    done := 0;
    NothingYet(emptyLeaf, all, cmp, NodeSize(maxNodeSize));
    var sound := true;
    while done < |steps| && sound && (marks || !IsDeep(trees, steps[done]))
      invariant done <= |steps| && fresh(all) && forall t <- trees :: fresh(t)
      invariant Hold(trees, AfterSteps(cmp, steps[..done]))
      invariant emptyLeaf in all && IsEmptyLeaf(emptyLeaf)
      invariant sound ==> Forest(all, SetOf(trees), cmp, NodeSize(maxNodeSize))
      invariant !sound ==> done > 0 && Stranded(trees, steps[done - 1], NodeSize(maxNodeSize))
      decreases |steps| - done, sound
    {
      ghost var maps := AfterSteps(cmp, steps[..done]);
      assert steps[..done + 1][..done] == steps[..done];
      assert fresh(set t | t in trees);
      trees, sound, all := OneStep(steps[done], trees, emptyLeaf, cmp, maxNodeSize, marks, all, maps);
      done := done + 1;
    }
    assert done == |steps| ==> steps[..done] == steps;
  }

  lemma HoldEach<K(!new), V>(trees: seq<BTree<K, V>>, maps: seq<seq<Pair<K, V>>>)
    requires Hold(trees, maps)
    ensures |trees| == |maps| && forall i :: 0 <= i < |trees| ==> trees[i].Pairs() == maps[i]
  {
  }

  lemma HoldLength<K(!new), V>(trees: seq<BTree<K, V>>, maps: seq<seq<Pair<K, V>>>)
    requires Hold(trees, maps)
    ensures |trees| == |maps|
  {
  }

  lemma NothingYet<K(!new), V>(emptyLeaf: Node<K, V>, all: set<Node<K, V>>, cmp: (K, K) -> int, max: nat)
    requires TotalOrder(cmp) && 4 <= max <= 256 && all == {emptyLeaf}
    requires emptyLeaf.isLeaf && emptyLeaf.height == 0 && emptyLeaf.keys == [] && emptyLeaf.values == []
    requires emptyLeaf.children == [] && emptyLeaf.tree == Leaf(Zip([], []))
    ensures Forest(all, {}, cmp, max) && SetOf<BTree<K, V>>([]) == {} && Hold<K, V>([], AfterSteps(cmp, []))
  {
    assert emptyLeaf.Local(all, max);
  }
}
