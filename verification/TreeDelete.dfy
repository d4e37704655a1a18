/** What removing a range of keys does to a B+ tree: the leaves lose their part of the range, and small neighbours
    are merged on the way back up. The merging is lazy, and one of its cases leaves an empty node behind. */
module TreeDelete {
  import opened SortedPairs
  import opened TreeSpec

  // ---------------------------------------------------------------- meaning

  ghost predicate InRange<K(!new)>(cmp: (K, K) -> int, k: K, low: K, high: K, includeHigh: bool) {
    cmp(k, low) >= 0 && (cmp(k, high) < 0 || (includeHigh && cmp(k, high) == 0))
  }

  /** The pairs that are not in the range. */
  ghost function Outside<K(!new), V>(
      cmp: (K, K) -> int, s: seq<Pair<K, V>>, low: K, high: K, includeHigh: bool): seq<Pair<K, V>> {
    if |s| == 0 then []
    else
      var rest := Outside(cmp, s[1..], low, high, includeHigh);
      if InRange(cmp, s[0].key, low, high, includeHigh) then rest else [s[0]] + rest
  }

  lemma {:induction false} OutsideConcat<K(!new), V>(
      cmp: (K, K) -> int, a: seq<Pair<K, V>>, b: seq<Pair<K, V>>, low: K, high: K, includeHigh: bool)
    ensures Outside(cmp, a + b, low, high, includeHigh)
      == Outside(cmp, a, low, high, includeHigh) + Outside(cmp, b, low, high, includeHigh)
  {
    if |a| == 0 {
      assert a + b == b;
    } else {
      assert (a + b)[1..] == a[1..] + b;
      OutsideConcat(cmp, a[1..], b, low, high, includeHigh);
    }
  }

  lemma {:induction false} OutsideAll<K(!new), V>(
      cmp: (K, K) -> int, s: seq<Pair<K, V>>, low: K, high: K, includeHigh: bool)
    requires forall i :: 0 <= i < |s| ==> !InRange(cmp, s[i].key, low, high, includeHigh)
    ensures Outside(cmp, s, low, high, includeHigh) == s
  {
    if |s| > 0 {
      assert !InRange(cmp, s[0].key, low, high, includeHigh);
      assert forall i :: 0 <= i < |s| - 1 ==> s[1..][i] == s[i + 1];
      OutsideAll(cmp, s[1..], low, high, includeHigh);
    }
  }

  lemma {:induction false} OutsideNone<K(!new), V>(
      cmp: (K, K) -> int, s: seq<Pair<K, V>>, low: K, high: K, includeHigh: bool)
    requires forall i :: 0 <= i < |s| ==> InRange(cmp, s[i].key, low, high, includeHigh)
    ensures Outside(cmp, s, low, high, includeHigh) == []
  {
    if |s| > 0 {
      assert InRange(cmp, s[0].key, low, high, includeHigh);
      assert forall i :: 0 <= i < |s| - 1 ==> s[1..][i] == s[i + 1];
      OutsideNone(cmp, s[1..], low, high, includeHigh);
    }
  }

  /** Exactly the pairs outside the range remain. */
  lemma {:induction false} OutsideMembers<K(!new), V>(
      cmp: (K, K) -> int, s: seq<Pair<K, V>>, low: K, high: K, includeHigh: bool, p: Pair<K, V>)
    ensures p in Outside(cmp, s, low, high, includeHigh) <==>
      p in s && !(cmp(p.key, low) >= 0 && cmp(p.key, high) < if includeHigh then 1 else 0)
  {
    if |s| > 0 {
      OutsideMembers(cmp, s[1..], low, high, includeHigh, p);
      assert p in s <==> p == s[0] || p in s[1..];
    }
  }

  lemma {:induction false} OutsideSorted<K(!new), V>(
      cmp: (K, K) -> int, s: seq<Pair<K, V>>, low: K, high: K, includeHigh: bool)
    requires Sorted(cmp, s)
    ensures Sorted(cmp, Outside(cmp, s, low, high, includeHigh))
  {
    if |s| > 0 {
      var rest := Outside(cmp, s[1..], low, high, includeHigh);
      OutsideSorted(cmp, s[1..], low, high, includeHigh);
      forall i | 0 <= i < |rest| ensures cmp(s[0].key, rest[i].key) < 0 {
        OutsideMembers(cmp, s[1..], low, high, includeHigh, rest[i]);
        var j :| 0 <= j < |s[1..]| && s[1..][j] == rest[i];
        assert cmp(s[0].key, s[j + 1].key) < 0;
      }
    }
  }

  // -------------------------------------------------------------- algorithm

  /** All leaves at depth h and no node over full; nodes may be empty. */
  ghost predicate Loose<K, V>(t: Tree<K, V>, max: nat, h: nat) {
    t.Size() <= max &&
    match t
    case Leaf(_) => h == 0
    case Inner(cs) => h > 0 && forall i :: 0 <= i < |cs| ==> Loose(cs[i], max, h - 1)
  }

  ghost predicate AllLoose<K, V>(ts: seq<Tree<K, V>>, max: nat, h: nat) {
    forall i :: 0 <= i < |ts| ==> Loose(ts[i], max, h)
  }

  /** Where the part of a leaf that is in the range ends. */
  ghost function RangeEnd<K(!new), V>(cmp: (K, K) -> int, es: seq<Pair<K, V>>, high: K, includeHigh: bool): (r: nat)
    ensures r <= |es|
  {
    if includeHigh then PlaceAfter(cmp, es, high) else Place(cmp, es, high)
  }

  ghost function EditLeaf<K(!new), V>(
      cmp: (K, K) -> int, es: seq<Pair<K, V>>, low: K, high: K, includeHigh: bool): seq<Pair<K, V>> {
    var from, to := Place(cmp, es, low), RangeEnd(cmp, es, high, includeHigh);
    if from <= to then Splice(es, from, to, []) else es
  }

  /** mergeSibling: all of r goes to the end of l; then the two children that met may be merged too. */
  ghost function Join<K, V>(l: Tree<K, V>, r: Tree<K, V>, max: nat, h: nat): (t: Tree<K, V>)
    requires Loose(l, max, h) && Loose(r, max, h) && l.Size() + r.Size() <= max
    ensures Loose(t, max, h) && t.Size() <= l.Size() + r.Size()
    ensures l.Size() > 0 || r.Size() > 0 ==> t.Size() > 0
    decreases h, 0
  {
    match l
    case Leaf(es) => Leaf(es + r.entries)
    case Inner(cs) => Inner(TryMerge(cs + r.children, |cs| - 1, max, h - 1))
  }

  /** Merges child i with the next one if the two fit in one node. */
  ghost function TryMerge<K, V>(cs: seq<Tree<K, V>>, i: int, max: nat, h: nat): (r: seq<Tree<K, V>>)
    requires AllLoose(cs, max, h)
    ensures AllLoose(r, max, h) && |cs| - 1 <= |r| <= |cs| && (|cs| > 0 ==> |r| > 0)
    decreases h, 1
  {
    if 0 <= i < |cs| - 1 && cs[i].Size() + cs[i + 1].Size() <= max then
      Splice(cs, i, i + 2, [Join(cs[i], cs[i + 1], max, h)])
    else cs
  }

  /** The loop that looks for opportunities to merge, from child i down to child lo. */
  ghost function MergeDown<K, V>(cs: seq<Tree<K, V>>, i: int, lo: nat, max: nat, h: nat): (r: seq<Tree<K, V>>)
    requires AllLoose(cs, max, h) && i < |cs|
    ensures AllLoose(r, max, h) && |r| <= |cs| && (|cs| > 0 ==> |r| > 0)
    decreases i - lo + 1
  {
    if i < lo then cs
    else MergeDown(if cs[i].Size() <= max / 2 then TryMerge(cs, i, max, h) else cs, i - 1, lo, max, h)
  }

  ghost function DropEmpty<K, V>(cs: seq<Tree<K, V>>): seq<Tree<K, V>> {
    if |cs| > 0 && cs[0].Size() == 0 then cs[1..] else cs
  }

  /** forRange in edit mode, when every key in the range is to be deleted. */
  ghost function EditNode<K(!new), V>(
      cmp: (K, K) -> int, t: Tree<K, V>, low: K, high: K, includeHigh: bool, max: nat, h: nat): (r: Tree<K, V>)
    requires RootShape(t, max, h)
    ensures Loose(r, max, h)
    decreases h, 1
  {
    match t
    case Leaf(es) => Leaf(EditLeaf(cmp, es, low, high, includeHigh))
    case Inner(cs) => Inner(EditInner(cmp, cs, low, high, includeHigh, max, h - 1))
  }

  /** From the first child whose greatest key is not below low up to the child where high belongs. */
  ghost function EditInner<K(!new), V>(
      cmp: (K, K) -> int, cs: seq<Tree<K, V>>, low: K, high: K, includeHigh: bool, max: nat,
      h: nat): (r: seq<Tree<K, V>>)
    requires 0 < |cs| && Shapes(cs, max, h)
    ensures AllLoose(r, max, h) && |r| <= |cs|
    decreases h + 1, 0
  {
    var first, last := Rank(cmp, MaxKeys(cs, max, h), low), ChildIndex(cmp, cs, high, max, h);
    var edited := EditChildren(cmp, cs, first, last, low, high, includeHigh, max, h);
    if first > last then edited
    else DropEmpty(MergeDown(edited, last, if first > 0 then first - 1 else 0, max, h))
  }

  ghost function EditChildren<K(!new), V>(
      cmp: (K, K) -> int, cs: seq<Tree<K, V>>, first: nat, last: nat, low: K, high: K, includeHigh: bool, max: nat,
      h: nat): (r: seq<Tree<K, V>>)
    requires Shapes(cs, max, h)
    ensures |r| == |cs| && AllLoose(r, max, h)
    ensures forall i ::
      0 <= i < |cs| ==> r[i] == if first <= i <= last then EditNode(cmp, cs[i], low, high, includeHigh, max, h)
      else cs[i]
    decreases h, 2
  {
    ShapesAreLoose(cs, max, h);
    seq(|cs|, i requires 0 <= i < |cs| =>
      if first <= i <= last then EditNode(cmp, cs[i], low, high, includeHigh, max, h) else cs[i])
  }

  lemma {:induction false} ShapeIsLoose<K, V>(t: Tree<K, V>, max: nat, h: nat)
    requires Shape(t, max, h)
    ensures Loose(t, max, h)
  {
    if t.Inner? {
      forall i | 0 <= i < |t.children| ensures Loose(t.children[i], max, h - 1) {
        ShapeIsLoose(t.children[i], max, h - 1);
      }
    }
  }

  lemma ShapesAreLoose<K, V>(ts: seq<Tree<K, V>>, max: nat, h: nat)
    requires Shapes(ts, max, h)
    ensures AllLoose(ts, max, h)
  {
    forall i | 0 <= i < |ts| ensures Loose(ts[i], max, h) {
      ShapeIsLoose(ts[i], max, h);
    }
  }

  /** The loop at the end of editRange: a root with one child gives way to it, a root with none to the empty leaf. */
  ghost function Collapse<K, V>(t: Tree<K, V>): Tree<K, V> {
    match t
    case Leaf(_) => t
    case Inner(cs) => if |cs| == 0 then Leaf([]) else if |cs| == 1 then Collapse(cs[0]) else t
  }

  /** BTree.deleteRange, on the tree. */
  ghost function DeleteRange<K(!new), V>(
      cmp: (K, K) -> int, t: Tree<K, V>, low: K, high: K, includeHigh: bool, max: nat, h: nat): Tree<K, V>
    requires RootShape(t, max, h)
  {
    Collapse(EditNode(cmp, t, low, high, includeHigh, max, h))
  }

  // --------------------------------------------------------------- contents

  lemma EditLeafContents<K(!new), V>(cmp: (K, K) -> int, es: seq<Pair<K, V>>, low: K, high: K, includeHigh: bool)
    requires TotalOrder(cmp) && Sorted(cmp, es)
    ensures EditLeaf(cmp, es, low, high, includeHigh) == Outside(cmp, es, low, high, includeHigh)
  {
    hide Place, PlaceAfter;
    var from, to := Place(cmp, es, low), RangeEnd(cmp, es, high, includeHigh);
    RangeOfLeaf(cmp, es, low, high, includeHigh);
    if from <= to {
      OutsideCut(cmp, es, from, to, low, high, includeHigh);
    } else {
      OutsideAll(cmp, es, low, high, includeHigh);
    }
  }

  lemma OutsideCut<K(!new), V>(
      cmp: (K, K) -> int, s: seq<Pair<K, V>>, from: nat, to: nat, low: K, high: K, includeHigh: bool)
    requires from <= to <= |s|
    requires forall i :: 0 <= i < |s| ==> (InRange(cmp, s[i].key, low, high, includeHigh) <==> from <= i < to)
    ensures Outside(cmp, s, low, high, includeHigh) == Splice(s, from, to, [])
  {
    hide Outside, InRange;
    var a, b, c := s[..from], s[from..to], s[to..];
    assert s == a + (b + c);
    OutsideConcat(cmp, a, b + c, low, high, includeHigh);
    OutsideConcat(cmp, b, c, low, high, includeHigh);
    OutsideAll(cmp, a, low, high, includeHigh);
    OutsideNone(cmp, b, low, high, includeHigh);
    OutsideAll(cmp, c, low, high, includeHigh);
  }

  /** The entries in the range are those between the two places. */
  lemma RangeOfLeaf<K(!new), V>(cmp: (K, K) -> int, es: seq<Pair<K, V>>, low: K, high: K, includeHigh: bool)
    requires TotalOrder(cmp) && Sorted(cmp, es)
    ensures forall i :: 0 <= i < |es| ==>
      (InRange(cmp, es[i].key, low, high, includeHigh) <==>
        Place(cmp, es, low) <= i < RangeEnd(cmp, es, high, includeHigh))
  {
    forall i | 0 <= i < |es|
      ensures InRange(cmp, es[i].key, low, high, includeHigh) <==>
        Place(cmp, es, low) <= i < RangeEnd(cmp, es, high, includeHigh)
    {
      PlaceSplits(cmp, es, low, i);
      PlaceSplits(cmp, es, high, i);
    }
  }

  lemma PlaceSplits<K(!new), V>(cmp: (K, K) -> int, es: seq<Pair<K, V>>, k: K, i: nat)
    requires TotalOrder(cmp) && Sorted(cmp, es) && i < |es|
    ensures cmp(es[i].key, k) < 0 <==> i < Place(cmp, es, k)
    ensures cmp(es[i].key, k) > 0 <==> i >= PlaceAfter(cmp, es, k)
  {
    if i > Place(cmp, es, k) {
      Beyond(cmp, es[Place(cmp, es, k)].key, es[i].key, k);
    }
  }

  lemma {:induction false} EmptyContents<K, V>(t: Tree<K, V>)
    requires t.Size() == 0
    ensures Contents(t) == []
  {
  }

  /** Merging siblings keeps every pair, in order. */
  lemma {:induction false} JoinContents<K, V>(l: Tree<K, V>, r: Tree<K, V>, max: nat, h: nat)
    requires Loose(l, max, h) && Loose(r, max, h) && l.Size() + r.Size() <= max
    ensures Contents(Join(l, r, max, h)) == Contents(l) + Contents(r)
    decreases h, 0
  {
    if l.Inner? {
      TryMergeFlat(l.children + r.children, |l.children| - 1, max, h - 1);
      FlatConcat(l.children, r.children);
    }
  }

  lemma {:induction false} TryMergeFlat<K, V>(cs: seq<Tree<K, V>>, i: int, max: nat, h: nat)
    requires AllLoose(cs, max, h)
    ensures Flat(TryMerge(cs, i, max, h)) == Flat(cs)
    decreases h, 1
  {
    if 0 <= i < |cs| - 1 && cs[i].Size() + cs[i + 1].Size() <= max {
      JoinContents(cs[i], cs[i + 1], max, h);
      FlatSingle(Join(cs[i], cs[i + 1], max, h));
      FlatPair(cs[i], cs[i + 1]);
      assert cs[i..i + 2] == [cs[i], cs[i + 1]];
      FlatSpliceSame(cs, i, i + 2, [Join(cs[i], cs[i + 1], max, h)]);
    }
  }

  lemma {:induction false} MergeDownFlat<K, V>(cs: seq<Tree<K, V>>, i: int, lo: nat, max: nat, h: nat)
    requires AllLoose(cs, max, h) && i < |cs|
    ensures Flat(MergeDown(cs, i, lo, max, h)) == Flat(cs)
    decreases i - lo + 1
  {
    if i >= lo {
      TryMergeFlat(cs, i, max, h);
      MergeDownFlat(if cs[i].Size() <= max / 2 then TryMerge(cs, i, max, h) else cs, i - 1, lo, max, h);
    }
  }

  lemma DropEmptyFlat<K, V>(cs: seq<Tree<K, V>>)
    ensures Flat(DropEmpty(cs)) == Flat(cs)
  {
    if |cs| > 0 && cs[0].Size() == 0 {
      EmptyContents(cs[0]);
    }
  }

  /** A child that is not edited has no key in the range. */
  lemma NotEdited<K(!new), V>(
      cmp: (K, K) -> int, cs: seq<Tree<K, V>>, i: nat, low: K, high: K, includeHigh: bool, max: nat, h: nat)
    requires TotalOrder(cmp) && i < |cs| && Shapes(cs, max, h) && Sorted(cmp, Flat(cs))
    requires i < Rank(cmp, MaxKeys(cs, max, h), low) || i > ChildIndex(cmp, cs, high, max, h)
    ensures Outside(cmp, Contents(cs[i]), low, high, includeHigh) == Contents(cs[i])
  {
    hide Contents, Flat, MaxKey, Shape;
    if i < Rank(cmp, MaxKeys(cs, max, h), low) {
      ChildSorted(cmp, cs, i);
      MaxKeyIsLast(cs[i], max, h);
      LastBelow(cmp, Contents(cs[i]), |Contents(cs[i])|, low);
    } else {
      var last := ChildIndex(cmp, cs, high, max, h);
      ChildrenAbove(cmp, cs, last, high, max, h);
      FlatAround(cs[last + 1..], i - last - 1);
      PartAbove(cmp, Flat(cs[last + 1..][..i - last - 1]), Contents(cs[i]), Flat(cs[last + 1..][i - last..]), high);
    }
    OutsideAll(cmp, Contents(cs[i]), low, high, includeHigh);
  }

  lemma PartAbove<K(!new), V>(cmp: (K, K) -> int, a: seq<Pair<K, V>>, b: seq<Pair<K, V>>, c: seq<Pair<K, V>>, k: K)
    requires AllAbove(cmp, a + b + c, k)
    ensures AllAbove(cmp, b, k)
  {
    forall i | 0 <= i < |b| ensures cmp(b[i].key, k) > 0 {
      assert (a + b + c)[|a| + i] == b[i];
    }
  }

  lemma {:induction false} OutsideFlat<K(!new), V>(
      cmp: (K, K) -> int, cs: seq<Tree<K, V>>, xs: seq<Tree<K, V>>, low: K, high: K, includeHigh: bool)
    requires |xs| == |cs|
    requires forall i :: 0 <= i < |cs| ==> Contents(xs[i]) == Outside(cmp, Contents(cs[i]), low, high, includeHigh)
    ensures Flat(xs) == Outside(cmp, Flat(cs), low, high, includeHigh)
  {
    if |cs| > 0 {
      assert Contents(xs[0]) == Outside(cmp, Contents(cs[0]), low, high, includeHigh);
      OutsideConcat(cmp, Contents(cs[0]), Flat(cs[1..]), low, high, includeHigh);
      OutsideFlat(cmp, cs[1..], xs[1..], low, high, includeHigh);
    }
  }

  /** Range delete means range removal: what remains is what was outside the range. */
  lemma {:induction false} EditNodeContents<K(!new), V>(
      cmp: (K, K) -> int, t: Tree<K, V>, low: K, high: K, includeHigh: bool, max: nat, h: nat)
    requires TotalOrder(cmp) && RootShape(t, max, h) && Sorted(cmp, Contents(t))
    ensures Contents(EditNode(cmp, t, low, high, includeHigh, max, h))
      == Outside(cmp, Contents(t), low, high, includeHigh)
    decreases h, 1
  {
    match t
    case Leaf(es) => EditLeafContents(cmp, es, low, high, includeHigh);
    case Inner(cs) => EditInnerFlat(cmp, cs, low, high, includeHigh, max, h - 1);
  }

  lemma {:induction false} EditInnerFlat<K(!new), V>(
      cmp: (K, K) -> int, cs: seq<Tree<K, V>>, low: K, high: K, includeHigh: bool, max: nat, h: nat)
    requires TotalOrder(cmp) && 0 < |cs| && Shapes(cs, max, h) && Sorted(cmp, Flat(cs))
    ensures Flat(EditInner(cmp, cs, low, high, includeHigh, max, h)) == Outside(cmp, Flat(cs), low, high, includeHigh)
    decreases h + 1, 0
  {
    var first, last := Rank(cmp, MaxKeys(cs, max, h), low), ChildIndex(cmp, cs, high, max, h);
    var edited := EditChildren(cmp, cs, first, last, low, high, includeHigh, max, h);
    forall i | 0 <= i < |cs| ensures Contents(edited[i]) == Outside(cmp, Contents(cs[i]), low, high, includeHigh) {
      if first <= i <= last {
        ChildSorted(cmp, cs, i);
        EditNodeContents(cmp, cs[i], low, high, includeHigh, max, h);
      } else {
        NotEdited(cmp, cs, i, low, high, includeHigh, max, h);
      }
    }
    OutsideFlat(cmp, cs, edited, low, high, includeHigh);
    if first <= last {
      var lo := if first > 0 then first - 1 else 0;
      MergeDownFlat(edited, last, lo, max, h);
      DropEmptyFlat(MergeDown(edited, last, lo, max, h));
    }
  }

  lemma {:induction false} CollapseContents<K, V>(t: Tree<K, V>)
    ensures Contents(Collapse(t)) == Contents(t)
  {
    if t.Inner? && |t.children| == 1 {
      CollapseContents(t.children[0]);
      FlatSingle(t.children[0]);
      assert t.children == [t.children[0]];
    }
  }

  // ------------------------------------------------------------------ count

  /** How many pairs the edit deletes, counted leaf by leaf. */
  ghost function EditCount<K(!new), V>(
      cmp: (K, K) -> int, t: Tree<K, V>, low: K, high: K, includeHigh: bool, max: nat, h: nat): nat
    requires RootShape(t, max, h)
    decreases h, 1
  {
    match t
    case Leaf(es) =>
      var from, to := Place(cmp, es, low), RangeEnd(cmp, es, high, includeHigh);
      if from <= to then to - from else 0
    case Inner(cs) =>
      ChildrenCount(cmp, cs, Rank(cmp, MaxKeys(cs, max, h - 1), low), ChildIndex(cmp, cs, high, max, h - 1) + 1, low,
        high, includeHigh, max, h - 1)
  }

  ghost function ChildrenCount<K(!new), V>(
      cmp: (K, K) -> int, cs: seq<Tree<K, V>>, i: nat, to: nat, low: K, high: K, includeHigh: bool, max: nat,
      h: nat): nat
    requires Shapes(cs, max, h) && to <= |cs|
    decreases h, 2, to - i
  {
    if i >= to then 0
    else
      EditCount(cmp, cs[i], low, high, includeHigh, max, h)
      + ChildrenCount(cmp, cs, i + 1, to, low, high, includeHigh, max, h)
  }

  lemma {:induction false} EditCountRight<K(!new), V>(
      cmp: (K, K) -> int, t: Tree<K, V>, low: K, high: K, includeHigh: bool, max: nat, h: nat)
    requires TotalOrder(cmp) && RootShape(t, max, h) && Sorted(cmp, Contents(t))
    ensures EditCount(cmp, t, low, high, includeHigh, max, h)
      == |Contents(t)| - |Outside(cmp, Contents(t), low, high, includeHigh)|
    decreases h, 1
  {
    match t
    case Leaf(es) =>
      EditLeafContents(cmp, es, low, high, includeHigh);
    case Inner(cs) =>
      var from, to := Rank(cmp, MaxKeys(cs, max, h - 1), low), ChildIndex(cmp, cs, high, max, h - 1) + 1;
      ChildrenCountRight(cmp, cs, 0, from, to, low, high, includeHigh, max, h - 1);
      assert cs[0..] == cs;
  }

  lemma {:induction false} ChildrenCountRight<K(!new), V>(
      cmp: (K, K) -> int, cs: seq<Tree<K, V>>, i: nat, from: nat, to: nat, low: K, high: K, includeHigh: bool, max: nat,
      h: nat)
    requires TotalOrder(cmp) && 0 < |cs| && Shapes(cs, max, h) && Sorted(cmp, Flat(cs)) && i <= |cs|
    requires from == Rank(cmp, MaxKeys(cs, max, h), low) && to == ChildIndex(cmp, cs, high, max, h) + 1
    ensures ChildrenCount(cmp, cs, if i < from then from else i, to, low, high, includeHigh, max, h)
      == |Flat(cs[i..])| - |Outside(cmp, Flat(cs[i..]), low, high, includeHigh)|
    decreases h, 2, |cs| - i
  {
    hide EditCount, Contents, Rank, MaxKeys, ChildIndex, MaxKey;
    if i < |cs| {
      ChildrenCountRight(cmp, cs, i + 1, from, to, low, high, includeHigh, max, h);
      assert cs[i..][1..] == cs[i + 1..];
      OutsideConcat(cmp, Contents(cs[i]), Flat(cs[i + 1..]), low, high, includeHigh);
      if from <= i < to {
        ChildSorted(cmp, cs, i);
        EditCountRight(cmp, cs[i], low, high, includeHigh, max, h);
      } else {
        NotEdited(cmp, cs, i, low, high, includeHigh, max, h);
      }
    }
  }

  // ---------------------------------------------------- the emptiness check

  /** Of the children after i only the last may be empty. */
  ghost predicate OnlyLastEmpty<K, V>(cs: seq<Tree<K, V>>, i: int) {
    forall j :: 0 <= j < |cs| - 1 && j > i ==> cs[j].Size() > 0
  }

  lemma {:induction false} MergeDownFills<K, V>(cs: seq<Tree<K, V>>, i: int, lo: nat, max: nat, h: nat)
    requires AllLoose(cs, max, h) && i < |cs| && OnlyLastEmpty(cs, i) && lo <= i + 1
    ensures OnlyLastEmpty(MergeDown(cs, i, lo, max, h), lo - 1)
    ensures lo <= |MergeDown(cs, i, lo, max, h)| && forall j :: 0 <= j < lo ==> MergeDown(cs, i, lo, max, h)[j] == cs[j]
    decreases i - lo + 1
  {
    if i >= lo {
      MergeDownFills(if cs[i].Size() <= max / 2 then TryMerge(cs, i, max, h) else cs, i - 1, lo, max, h);
    }
  }

  /** The check that an edited node is completely empty when its first child is never fails. */
  lemma NoEmptinessBug<K(!new), V>(
      cmp: (K, K) -> int, cs: seq<Tree<K, V>>, low: K, high: K, includeHigh: bool, max: nat, h: nat)
    requires 0 < |cs| && Shapes(cs, max, h)
    ensures var first, last := Rank(cmp, MaxKeys(cs, max, h), low), ChildIndex(cmp, cs, high, max, h);
      var edited := EditChildren(cmp, cs, first, last, low, high, includeHigh, max, h);
      var merged := MergeDown(edited, last, if first > 0 then first - 1 else 0, max, h);
      first <= last && merged[0].Size() == 0 ==> |merged| == 1
  {
    hide EditNode, MergeDown, Rank, MaxKey, Loose;
    var first, last := Rank(cmp, MaxKeys(cs, max, h), low), ChildIndex(cmp, cs, high, max, h);
    var edited := EditChildren(cmp, cs, first, last, low, high, includeHigh, max, h);
    if first <= last {
      MergeDownFills(edited, last, if first > 0 then first - 1 else 0, max, h);
    }
  }

  /** The height of the tree once the root has collapsed. */
  ghost function CollapsedHeight<K, V>(t: Tree<K, V>, h: nat): nat {
    match t
    case Leaf(_) => h
    case Inner(cs) => if |cs| == 0 then 0 else if |cs| == 1 && h > 0 then CollapsedHeight(cs[0], h - 1) else h
  }

  lemma {:induction false} CollapseIsLoose<K, V>(t: Tree<K, V>, max: nat, h: nat)
    requires Loose(t, max, h)
    ensures Loose(Collapse(t), max, CollapsedHeight(t, h)) && CollapsedHeight(t, h) <= h
    ensures Collapse(t).Inner? ==> Collapse(t).Size() >= 2
  {
    if t.Inner? && |t.children| == 1 {
      CollapseIsLoose(t.children[0], max, h - 1);
    }
  }

  /** BTree.deleteRange removes exactly the pairs in the range, returns how many there were, keeps the rest in order,
      all leaves at one depth and no node over full, and leaves an internal root with two children or more. */
  lemma DeleteRangeRemovesRange<K(!new), V>(
      cmp: (K, K) -> int, t: Tree<K, V>, low: K, high: K, includeHigh: bool, max: nat, h: nat, p: Pair<K, V>)
    requires TotalOrder(cmp) && RootShape(t, max, h) && Sorted(cmp, Contents(t))
    ensures var u := DeleteRange(cmp, t, low, high, includeHigh, max, h);
      && Contents(u) == Outside(cmp, Contents(t), low, high, includeHigh)
      && (p in Contents(u) <==>
          p in Contents(t) && !(cmp(p.key, low) >= 0 && cmp(p.key, high) < if includeHigh then 1 else 0))
      && Sorted(cmp, Contents(u))
      && |Contents(u)| == |Contents(t)| - EditCount(cmp, t, low, high, includeHigh, max, h)
      && (exists h': nat :: h' <= h && Loose(u, max, h'))
      && (u.Inner? ==> u.Size() >= 2)
  {
    var e := EditNode(cmp, t, low, high, includeHigh, max, h);
    EditNodeContents(cmp, t, low, high, includeHigh, max, h);
    CollapseContents(e);
    OutsideMembers(cmp, Contents(t), low, high, includeHigh, p);
    OutsideSorted(cmp, Contents(t), low, high, includeHigh);
    EditCountRight(cmp, t, low, high, includeHigh, max, h);
    CollapseIsLoose(e, max, h);
  }
}
