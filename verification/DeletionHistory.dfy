/** A history in which deleting a key from a clone, which is what without does, changes the tree that was cloned.

    The copy is made node by node on the way to the key, and what a copied node refers to is marked as shared. But when
    a node of the copy absorbs a sibling that is still the other tree's, it comes to refer to nodes that are not marked;
    and when it then absorbs another one, the nodes at the seam are merged, and one that is not marked is written in
    place. */
module DeletionHistory {
  import opened NodeStores
  import opened DescendingTree

  // ------------------------------------------------- a deletion in the tree

  function Range1(): Store {
    [Empty(), Leaf(L3(1, 2, 3)), Leaf(L2(22, 23)), Inner(L3(3, 5, 7), L3(1, 16, 15)), Leaf(L2(20, 21)),
      Leaf(L2(18, 19)), Leaf(Nil), Inner(L2(21, 23), L2(4, 2)), Inner(L3(7, 11, 15), L3(3, 17, 14)),
      Leaf(L2(14, 15)), Leaf(L2(12, 13)), Inner(L2(17, 19), L2(6, 5)), Leaf(L2(10, 11)), Leaf(L2(8, 9)),
      Inner(L2(13, 15), L2(10, 9)), Leaf(L2(6, 7)), Leaf(L2(4, 5)), Inner(L2(9, 11), L2(13, 12)),
      Inner(L2(19, 23), L2(11, 7)), Inner(L2(15, 23), L2(8, 18))]
  }

  function Range2(): Store {
    [Empty(), Leaf(L3(1, 2, 3)), Leaf(L2(22, 23)), Inner(L3(3, 5, 7), L3(1, 16, 15)), Leaf(L2(20, 21)), Leaf(Nil),
      Leaf(Nil), Inner(L2(21, 23), L2(4, 2)), Inner(L3(7, 11, 15), L3(3, 17, 14)), Leaf(L2(14, 15)),
      Leaf(L2(12, 13)), Inner(L2(17, 19), L2(6, 5)), Leaf(L2(10, 11)), Leaf(L2(8, 9)), Inner(L2(13, 15), L2(10, 9)),
      Leaf(L2(6, 7)), Leaf(L2(4, 5)), Inner(L2(9, 11), L2(13, 12)), Inner(L2(19, 23), L2(11, 7)),
      Inner(L2(15, 23), L2(8, 18))]
  }

  function Range3(): Store {
    [Empty(), Leaf(L3(1, 2, 3)), Leaf(L2(22, 23)), Inner(L3(3, 5, 7), L3(1, 16, 15)), Leaf(L2(20, 21)), Leaf(Nil),
      Leaf(Nil), Inner(L2(21, 23), L2(4, 2)), Inner(L3(7, 11, 15), L3(3, 17, 14)), Leaf(L2(14, 15)),
      Leaf(L2(12, 13)), Inner(L1(17), L1(6)), Leaf(L2(10, 11)), Leaf(L2(8, 9)), Inner(L2(13, 15), L2(10, 9)),
      Leaf(L2(6, 7)), Leaf(L2(4, 5)), Inner(L2(9, 11), L2(13, 12)), Inner(L2(19, 23), L2(11, 7)),
      Inner(L2(15, 23), L2(8, 18))]
  }

  function Range4(): Store {
    [Empty(), Leaf(L3(1, 2, 3)), Leaf(L2(22, 23)), Inner(L3(3, 5, 7), L3(1, 16, 15)), Leaf(L2(20, 21)), Leaf(Nil),
      Leaf(Nil), Inner(L2(21, 23), L2(4, 2)), Inner(L3(7, 11, 15), L3(3, 17, 14)), Leaf(L2(14, 15)),
      Leaf(L2(12, 13)), Inner(Nil, Nil), Leaf(L2(10, 11)), Leaf(L2(8, 9)), Inner(L2(13, 15), L2(10, 9)),
      Leaf(L2(6, 7)), Leaf(L2(4, 5)), Inner(L2(9, 11), L2(13, 12)), Inner(L2(19, 23), L2(11, 7)),
      Inner(L2(15, 23), L2(8, 18))]
  }

  function Range5(): Store {
    [Empty(), Leaf(L3(1, 2, 3)), Leaf(L2(22, 23)), Inner(L3(3, 5, 7), L3(1, 16, 15)), Leaf(Nil), Leaf(Nil),
      Leaf(Nil), Inner(L2(21, 23), L2(4, 2)), Inner(L3(7, 11, 15), L3(3, 17, 14)), Leaf(L2(14, 15)),
      Leaf(L2(12, 13)), Inner(Nil, Nil), Leaf(L2(10, 11)), Leaf(L2(8, 9)), Inner(L2(13, 15), L2(10, 9)),
      Leaf(L2(6, 7)), Leaf(L2(4, 5)), Inner(L2(9, 11), L2(13, 12)), Inner(L2(19, 23), L2(11, 7)),
      Inner(L2(15, 23), L2(8, 18))]
  }

  function Range6(): Store {
    [Empty(), Leaf(L3(1, 2, 3)), Leaf(L2(22, 23)), Inner(L3(3, 5, 7), L3(1, 16, 15)), Leaf(L2(22, 23)), Leaf(Nil),
      Leaf(Nil), Inner(L1(23), L1(4)), Inner(L3(7, 11, 15), L3(3, 17, 14)), Leaf(L2(14, 15)), Leaf(L2(12, 13)),
      Inner(Nil, Nil), Leaf(L2(10, 11)), Leaf(L2(8, 9)), Inner(L2(13, 15), L2(10, 9)), Leaf(L2(6, 7)),
      Leaf(L2(4, 5)), Inner(L2(9, 11), L2(13, 12)), Inner(L2(19, 23), L2(11, 7)), Inner(L2(15, 23), L2(8, 18))]
  }

  function Range7(): Store {
    [Empty(), Leaf(L3(1, 2, 3)), Leaf(L2(22, 23)), Inner(L3(3, 5, 7), L3(1, 16, 15)), Leaf(L2(22, 23)), Leaf(Nil),
      Leaf(Nil), Inner(L1(23), L1(4)), Inner(L3(7, 11, 15), L3(3, 17, 14)), Leaf(L2(14, 15)), Leaf(L2(12, 13)),
      Inner(L1(23), L1(4)), Leaf(L2(10, 11)), Leaf(L2(8, 9)), Inner(L2(13, 15), L2(10, 9)), Leaf(L2(6, 7)),
      Leaf(L2(4, 5)), Inner(L2(9, 11), L2(13, 12)), Inner(L1(23), L1(11)), Inner(L2(15, 23), L2(8, 18))]
  }

  function Cloned(): Store {
    [Empty(), Leaf(L3(1, 2, 3)), Leaf(L2(22, 23)), Inner(L3(3, 5, 7), L3(1, 16, 15)), Leaf(L2(22, 23)), Leaf(Nil),
      Leaf(Nil), Inner(L1(23), L1(4)), Inner(L3(7, 11, 15), L3(3, 17, 14)), Leaf(L2(14, 15)), Leaf(L2(12, 13)),
      Inner(L1(23), L1(4)), Leaf(L2(10, 11)), Leaf(L2(8, 9)), Inner(L2(13, 15), L2(10, 9)), Leaf(L2(6, 7)),
      Leaf(L2(4, 5)), Inner(L2(9, 11), L2(13, 12)), Inner(L1(23), L1(11)), Shared(Inner(L2(15, 23), L2(8, 18)))]
  }

  function Copy1(): Store {
    [Empty(), Leaf(L3(1, 2, 3)), Leaf(L2(22, 23)), Inner(L3(3, 5, 7), L3(1, 16, 15)), Leaf(L2(22, 23)), Leaf(Nil),
      Leaf(Nil), Inner(L1(23), L1(4)), Shared(Inner(L3(7, 11, 15), L3(3, 17, 14))), Leaf(L2(14, 15)),
      Leaf(L2(12, 13)), Inner(L1(23), L1(4)), Leaf(L2(10, 11)), Leaf(L2(8, 9)), Inner(L2(13, 15), L2(10, 9)),
      Leaf(L2(6, 7)), Leaf(L2(4, 5)), Inner(L2(9, 11), L2(13, 12)), Shared(Inner(L1(23), L1(11))),
      Shared(Inner(L2(15, 23), L2(8, 18))), Inner(L2(15, 23), L2(8, 18))]
  }

  function Copy2(): Store {
    [Empty(), Leaf(L3(1, 2, 3)), Leaf(L2(22, 23)), Shared(Inner(L3(3, 5, 7), L3(1, 16, 15))), Leaf(L2(22, 23)),
      Leaf(Nil), Leaf(Nil), Inner(L1(23), L1(4)), Shared(Inner(L3(7, 11, 15), L3(3, 17, 14))), Leaf(L2(14, 15)),
      Leaf(L2(12, 13)), Inner(L1(23), L1(4)), Leaf(L2(10, 11)), Leaf(L2(8, 9)), Shared(Inner(L2(13, 15), L2(10, 9))),
      Leaf(L2(6, 7)), Leaf(L2(4, 5)), Shared(Inner(L2(9, 11), L2(13, 12))), Shared(Inner(L1(23), L1(11))),
      Shared(Inner(L2(15, 23), L2(8, 18))), Inner(L2(15, 23), L2(21, 18)), Inner(L3(7, 11, 15), L3(3, 17, 14))]
  }

  function Copy3(): Store {
    [Empty(), Leaf(L3(1, 2, 3)), Leaf(L2(22, 23)), Shared(Inner(L3(3, 5, 7), L3(1, 16, 15))), Leaf(L2(22, 23)),
      Leaf(Nil), Leaf(Nil), Inner(L1(23), L1(4)), Shared(Inner(L3(7, 11, 15), L3(3, 17, 14))), Leaf(L2(14, 15)),
      Leaf(L2(12, 13)), Inner(L1(23), L1(4)), Shared(Leaf(L2(10, 11))), Shared(Leaf(L2(8, 9))),
      Shared(Inner(L2(13, 15), L2(10, 9))), Leaf(L2(6, 7)), Leaf(L2(4, 5)), Shared(Inner(L2(9, 11), L2(13, 12))),
      Shared(Inner(L1(23), L1(11))), Shared(Inner(L2(15, 23), L2(8, 18))), Inner(L2(15, 23), L2(21, 18)),
      Inner(L3(7, 11, 15), L3(3, 22, 14)), Inner(L2(9, 11), L2(13, 12))]
  }

  function Copy4(): Store {
    [Empty(), Leaf(L3(1, 2, 3)), Leaf(L2(22, 23)), Shared(Inner(L3(3, 5, 7), L3(1, 16, 15))), Leaf(L2(22, 23)),
      Leaf(Nil), Leaf(Nil), Inner(L1(23), L1(4)), Shared(Inner(L3(7, 11, 15), L3(3, 17, 14))), Leaf(L2(14, 15)),
      Leaf(L2(12, 13)), Inner(L1(23), L1(4)), Shared(Leaf(L2(10, 11))), Shared(Leaf(L2(8, 9))),
      Shared(Inner(L2(13, 15), L2(10, 9))), Leaf(L2(6, 7)), Leaf(L2(4, 5)), Shared(Inner(L2(9, 11), L2(13, 12))),
      Shared(Inner(L1(23), L1(11))), Shared(Inner(L2(15, 23), L2(8, 18))), Inner(L2(15, 23), L2(21, 18)),
      Inner(L3(7, 11, 15), L3(3, 22, 14)), Inner(L2(9, 11), L2(23, 12)), Leaf(L2(8, 9))]
  }

  function Cut5(): Store {
    [Empty(), Leaf(L3(1, 2, 3)), Leaf(L2(22, 23)), Shared(Inner(L3(3, 5, 7), L3(1, 16, 15))), Leaf(L2(22, 23)),
      Leaf(Nil), Leaf(Nil), Inner(L1(23), L1(4)), Shared(Inner(L3(7, 11, 15), L3(3, 17, 14))), Leaf(L2(14, 15)),
      Leaf(L2(12, 13)), Inner(L1(23), L1(4)), Shared(Leaf(L2(10, 11))), Shared(Leaf(L2(8, 9))),
      Shared(Inner(L2(13, 15), L2(10, 9))), Leaf(L2(6, 7)), Leaf(L2(4, 5)), Shared(Inner(L2(9, 11), L2(13, 12))),
      Shared(Inner(L1(23), L1(11))), Shared(Inner(L2(15, 23), L2(8, 18))), Inner(L2(15, 23), L2(21, 18)),
      Inner(L3(7, 11, 15), L3(3, 22, 14)), Inner(L2(9, 11), L2(23, 12)), Leaf(L1(9))]
  }

  function Cut6(): Store {
    [Empty(), Leaf(L3(1, 2, 3)), Leaf(L2(22, 23)), Shared(Inner(L3(3, 5, 7), L3(1, 16, 15))), Leaf(L2(22, 23)),
      Leaf(Nil), Leaf(Nil), Inner(L1(23), L1(4)), Shared(Inner(L3(7, 11, 15), L3(3, 17, 14))), Leaf(L2(14, 15)),
      Leaf(L2(12, 13)), Inner(L1(23), L1(4)), Shared(Leaf(L2(10, 11))), Shared(Leaf(L2(8, 9))),
      Shared(Inner(L2(13, 15), L2(10, 9))), Leaf(L2(6, 7)), Leaf(L2(4, 5)), Shared(Inner(L2(9, 11), L2(13, 12))),
      Shared(Inner(L1(23), L1(11))), Shared(Inner(L2(15, 23), L2(8, 18))), Inner(L2(15, 23), L2(21, 18)),
      Inner(L3(7, 11, 15), L3(3, 22, 14)), Inner(L1(11), L1(23)), Leaf(L3(9, 10, 11))]
  }

  function Cut7(): Store {
    [Empty(), Leaf(L3(1, 2, 3)), Leaf(L2(22, 23)), Shared(Inner(L3(3, 5, 7), L3(1, 16, 15))), Leaf(L2(22, 23)),
      Leaf(Nil), Leaf(Nil), Inner(L1(23), L1(4)), Shared(Inner(L3(7, 11, 15), L3(3, 17, 14))), Leaf(L2(14, 15)),
      Leaf(L2(12, 13)), Inner(L1(23), L1(4)), Shared(Leaf(L2(10, 11))), Shared(Leaf(L2(8, 9))),
      Shared(Inner(L2(13, 15), L2(10, 9))), Leaf(L2(6, 7)), Leaf(L2(4, 5)), Shared(Inner(L2(9, 11), L2(13, 12))),
      Shared(Inner(L1(23), L1(11))), Shared(Inner(L2(15, 23), L2(8, 18))), Inner(L2(15, 23), L2(21, 18)),
      Inner(L2(7, 15), L2(3, 22)), Inner(L3(11, 13, 15), L3(23, 10, 9)), Leaf(L3(9, 10, 11))]
  }

  function Seam1(): Store {
    [Empty(), Leaf(L3(1, 2, 3)), Leaf(L2(22, 23)), Shared(Inner(L3(3, 5, 7), L3(1, 16, 15))), Leaf(L2(22, 23)),
      Leaf(Nil), Leaf(Nil), Inner(L1(23), L1(4)), Shared(Inner(L3(7, 11, 15), L3(3, 17, 14))), Leaf(L2(14, 15)),
      Leaf(L2(12, 13)), Inner(L1(23), L1(4)), Shared(Leaf(L2(10, 11))), Shared(Leaf(L2(8, 9))),
      Shared(Inner(L2(13, 15), L2(10, 9))), Leaf(L2(6, 7)), Leaf(L2(4, 5)), Shared(Inner(L2(9, 11), L2(13, 12))),
      Shared(Inner(L1(23), L1(11))), Shared(Inner(L2(15, 23), L2(8, 18))), Inner(L2(15, 23), L2(21, 18)),
      Inner(L3(7, 15, 23), L3(3, 22, 11)), Inner(L3(11, 13, 15), L3(23, 10, 9)), Leaf(L3(9, 10, 11))]
  }

  function Seam2(): Store {
    [Empty(), Leaf(L3(1, 2, 3)), Leaf(L2(22, 23)), Shared(Inner(L3(3, 5, 7), L3(1, 16, 15))), Leaf(L2(22, 23)),
      Leaf(Nil), Leaf(Nil), Inner(L1(23), L1(4)), Shared(Inner(L3(7, 11, 15), L3(3, 17, 14))), Leaf(L2(14, 15)),
      Leaf(L2(12, 13)), Inner(L1(23), L1(4)), Shared(Leaf(L2(10, 11))), Shared(Leaf(L2(8, 9))),
      Shared(Inner(L2(13, 15), L2(10, 9))), Leaf(L2(6, 7)), Leaf(L2(4, 5)), Shared(Inner(L2(9, 11), L2(13, 12))),
      Shared(Inner(L1(23), L1(11))), Shared(Inner(L2(15, 23), L2(8, 18))), Inner(L2(15, 23), L2(21, 18)),
      Inner(L3(7, 15, 23), L3(3, 22, 11)), Inner(L4(11, 13, 15, 23), L4(23, 10, 9, 4)), Leaf(L3(9, 10, 11))]
  }

  function Seam3(): Store {
    [Empty(), Leaf(L3(1, 2, 3)), Leaf(L2(22, 23)), Shared(Inner(L3(3, 5, 7), L3(1, 16, 15))), Leaf(L2(22, 23)),
      Leaf(Nil), Leaf(Nil), Inner(L1(23), L1(4)), Shared(Inner(L3(7, 11, 15), L3(3, 17, 14))),
      Leaf(L4(14, 15, 22, 23)), Leaf(L2(12, 13)), Inner(L1(23), L1(4)), Shared(Leaf(L2(10, 11))),
      Shared(Leaf(L2(8, 9))), Shared(Inner(L2(13, 15), L2(10, 9))), Leaf(L2(6, 7)), Leaf(L2(4, 5)),
      Shared(Inner(L2(9, 11), L2(13, 12))), Shared(Inner(L1(23), L1(11))), Shared(Inner(L2(15, 23), L2(8, 18))),
      Inner(L2(15, 23), L2(21, 18)), Inner(L3(7, 15, 23), L3(3, 22, 11)),
      Inner(L4(11, 13, 15, 23), L4(23, 10, 9, 4)), Leaf(L3(9, 10, 11))]
  }

  function Seam4(): Store {
    [Empty(), Leaf(L3(1, 2, 3)), Leaf(L2(22, 23)), Shared(Inner(L3(3, 5, 7), L3(1, 16, 15))), Leaf(L2(22, 23)),
      Leaf(Nil), Leaf(Nil), Inner(L1(23), L1(4)), Shared(Inner(L3(7, 11, 15), L3(3, 17, 14))),
      Leaf(L4(14, 15, 22, 23)), Leaf(L2(12, 13)), Inner(L1(23), L1(4)), Shared(Leaf(L2(10, 11))),
      Shared(Leaf(L2(8, 9))), Shared(Inner(L2(13, 15), L2(10, 9))), Leaf(L2(6, 7)), Leaf(L2(4, 5)),
      Shared(Inner(L2(9, 11), L2(13, 12))), Shared(Inner(L1(23), L1(11))), Shared(Inner(L2(15, 23), L2(8, 18))),
      Inner(L2(15, 23), L2(21, 18)), Inner(L3(7, 15, 23), L3(3, 22, 11)), Inner(L3(11, 13, 23), L3(23, 10, 9)),
      Leaf(L3(9, 10, 11))]
  }

  function Seam5(): Store {
    [Empty(), Leaf(L3(1, 2, 3)), Leaf(L2(22, 23)), Shared(Inner(L3(3, 5, 7), L3(1, 16, 15))), Leaf(L2(22, 23)),
      Leaf(Nil), Leaf(Nil), Inner(L1(23), L1(4)), Shared(Inner(L3(7, 11, 15), L3(3, 17, 14))),
      Leaf(L4(14, 15, 22, 23)), Leaf(L2(12, 13)), Inner(L1(23), L1(4)), Shared(Leaf(L2(10, 11))),
      Shared(Leaf(L2(8, 9))), Shared(Inner(L2(13, 15), L2(10, 9))), Leaf(L2(6, 7)), Leaf(L2(4, 5)),
      Shared(Inner(L2(9, 11), L2(13, 12))), Shared(Inner(L1(23), L1(11))), Shared(Inner(L2(15, 23), L2(8, 18))),
      Inner(L2(15, 23), L2(21, 18)), Inner(L2(7, 23), L2(3, 22)), Inner(L3(11, 13, 23), L3(23, 10, 9)),
      Leaf(L3(9, 10, 11))]
  }

  function Changed(): Store {
    [Empty(), Leaf(L3(1, 2, 3)), Leaf(L2(22, 23)), Shared(Inner(L3(3, 5, 7), L3(1, 16, 15))), Leaf(L2(22, 23)),
      Leaf(Nil), Leaf(Nil), Inner(L1(23), L1(4)), Shared(Inner(L3(7, 11, 15), L3(3, 17, 14))),
      Leaf(L4(14, 15, 22, 23)), Leaf(L2(12, 13)), Inner(L1(23), L1(4)), Shared(Leaf(L2(10, 11))),
      Shared(Leaf(L2(8, 9))), Shared(Inner(L2(13, 15), L2(10, 9))), Leaf(L2(6, 7)), Leaf(L2(4, 5)),
      Shared(Inner(L2(9, 11), L2(13, 12))), Shared(Inner(L1(23), L1(11))), Shared(Inner(L2(15, 23), L2(8, 18))),
      Inner(L1(23), L1(21)), Inner(L2(7, 23), L2(3, 22)), Inner(L3(11, 13, 23), L3(23, 10, 9)), Leaf(L3(9, 10, 11))]
  }

  /** A range that lies under one child. */
  lemma EditOne(s: Store, n: nat, i: nat, low: int, high: int, h: nat, own: Store, c: nat, edited: Store, merged: Store)
    requires h > 0 && i < Length(N(s, n).keys) && Rank(N(s, n).keys, low) == i
    requires Rank(N(s, n).keys, high) == i || (Rank(N(s, n).keys, high) > i && i == Length(N(s, n).keys) - 1)
    requires Own(s, n, i) == own && Child(own, n, i) == c && Renew(Edit(own, c, low, high, true, h - 1), n, i) == edited
    requires MergeDown(edited, n, i, if i > 0 then i - 1 else 0, h) == merged && Size(merged, Child(merged, n, 0)) > 0
    ensures Edit(s, n, low, high, true, h) == merged
  {
    hide Own, Renew, MergeDown;
    assert EditChildren(edited, n, i + 1, i, low, high, true, h) == edited;
    assert EditChildren(s, n, i, i, low, high, true, h) == edited;
  }

  lemma OwnAlready(s: Store, n: nat, i: nat)
    requires !N(s, Child(s, n, i)).isShared
    ensures Own(s, n, i) == s
  {
  }

  lemma NoMerge(s: Store, n: nat, i: int, h: nat)
    requires h > 0
    requires i < 0 || i + 1 >= Length(N(s, n).children) || Size(s, Child(s, n, i)) + Size(s, Child(s, n, i + 1)) > MAX
    ensures TryMerge(s, n, i, h) == s
  {
  }

  lemma AbsorbLeaf(s: Store, l: nat, r: nat, absorbed: Store)
    requires Put(s, l, Append(N(s, l).keys, N(s, r).keys), Append(N(s, l).children, N(s, r).children)) == absorbed
    ensures MergeSibling(s, l, r, 0) == absorbed
  {
  }

  lemma MergeOne(s: Store, n: nat, i: nat, h: nat, l: nat, r: nat, absorbed: Store, merged: Store)
    requires h > 0 && i + 1 < Length(N(s, n).children) && Size(s, l) + Size(s, r) <= MAX
    requires Child(s, n, i) == l && !N(s, l).isShared && Child(s, n, i + 1) == r
    requires MergeSibling(s, l, r, h - 1) == absorbed
    requires var c := N(absorbed, n);
      Renew(Put(absorbed, n, Remove(c.keys, i + 1), Remove(c.children, i + 1)), n, i) == merged
    ensures TryMerge(s, n, i, h) == merged
  {
    hide Renew, MergeSibling;
    OwnAlready(s, n, i);
  }

  lemma AbsorbOne(s: Store, l: nat, r: nat, h: nat, absorbed: Store, merged: Store)
    requires h > 0
    requires Put(s, l, Append(N(s, l).keys, N(s, r).keys), Append(N(s, l).children, N(s, r).children)) == absorbed
    requires TryMerge(absorbed, l, Size(s, l) - 1, h) == merged
    ensures MergeSibling(s, l, r, h) == merged
  {
    hide TryMerge;
  }

  /** What lies from low up to a key that is there goes. */
  lemma CutLeaf(s: Store, n: nat, low: int, high: int, iLow: nat, to: nat, cut: Store)
    requires iLow < to <= Length(N(s, n).keys) && Rank(N(s, n).keys, low) == iLow && Rank(N(s, n).keys, high) == to - 1
    requires At(N(s, n).keys, to - 1, 0) == high
    requires Write(s, n, N(s, n).(keys := Append(Take(N(s, n).keys, iLow), Drop(N(s, n).keys, to)))) == cut
    ensures EditLeaf(s, n, low, high, true) == cut
  {
  }

  /** Nodes 6 and 5, under node 11, are emptied, and it with them. */
  lemma RangeFirst()
    ensures Edit(From1(), 11, 16, 21, true, 1) == Range4()
  {
    hide Own, Renew, TryMerge, EditLeaf, DropEmpty;
    RangeFirstLeaf();
    RangeSecondLeaf();
    RangeNoMerge();
    RangeFirstMerge();
    RangeFirstDrop();
    assert EditChildren(Range2(), 11, 2, 1, 16, 21, true, 1) == Range2();
    assert EditChildren(Range1(), 11, 1, 1, 16, 21, true, 1) == Range2();
    assert EditChildren(From1(), 11, 0, 1, 16, 21, true, 1) == Range2();
    assert MergeDown(Range2(), 11, 0, 0, 1) == Range3();
    assert MergeDown(Range2(), 11, 1, 0, 1) == Range3();
    assert Rank(N(From1(), 11).keys, 16) == 0 && Rank(N(From1(), 11).keys, 21) == 2;
  }

  lemma RangeFirstLeaf()
    ensures Own(From1(), 11, 0) == From1()
    ensures Renew(EditLeaf(From1(), 6, 16, 21, true), 11, 0) == Range1()
  {
    OwnAlready(From1(), 11, 0);
  }

  lemma RangeSecondLeaf()
    ensures Own(Range1(), 11, 1) == Range1()
    ensures Renew(EditLeaf(Range1(), 5, 16, 21, true), 11, 1) == Range2()
  {
    OwnAlready(Range1(), 11, 1);
  }

  lemma RangeNoMerge()
    ensures TryMerge(Range2(), 11, 1, 1) == Range2()
  {
    hide TryMerge;
    NoMerge(Range2(), 11, 1, 1);
  }

  lemma RangeFirstMerge()
    ensures TryMerge(Range2(), 11, 0, 1) == Range3()
  {
    hide TryMerge, MergeSibling;
    AbsorbLeaf(Range2(), 6, 5, Range2());
    assert Renew(Put(Range2(), 11, L1(17), L1(6)), 11, 0) == Range3();
    MergeOne(Range2(), 11, 0, 1, 6, 5, Range2(), Range3());
  }

  lemma RangeFirstDrop()
    ensures DropEmpty(Range3(), 11) == Range4()
  {
  }

  lemma RangeThirdLeaf()
    ensures Renew(EditLeaf(Range4(), 4, 16, 21, true), 7, 0) == Range5()
  {
    CutLeaf(Range4(), 4, 16, 21, 0, 2, Range5());
  }

  lemma RangeSecondMerge()
    ensures TryMerge(Range5(), 7, 0, 1) == Range6()
  {
    hide TryMerge, MergeSibling;
    var absorbed := Put(Range5(), 4, L2(22, 23), Nil);
    AbsorbLeaf(Range5(), 4, 2, absorbed);
    assert Renew(Put(absorbed, 7, L1(23), L1(4)), 7, 0) == Range6();
    MergeOne(Range5(), 7, 0, 1, 4, 2, absorbed, Range6());
  }

  /** Node 4, under node 7, is emptied and merged with the last leaf. */
  lemma RangeSecond()
    ensures Edit(Range4(), 7, 16, 21, true, 1) == Range6()
  {
    hide Own, Renew, TryMerge;
    OwnAlready(Range4(), 7, 0);
    RangeThirdLeaf();
    RangeSecondMerge();
    EditOne(Range4(), 7, 0, 16, 21, 1, Range4(), 4, Range5(), Range6());
  }

  /** Node 11 absorbs node 7 and is left with one child, as node 18 is. */
  lemma RangeUnder18()
    ensures Edit(From1(), 18, 16, 21, true, 2) == Range7()
  {
    hide Own, Renew, TryMerge, Edit;
    RangeFirst();
    RangeSecond();
    RangeOwned();
    RangeMergeSteps();
    assert EditChildren(Range6(), 18, 2, 1, 16, 21, true, 2) == Range6();
    assert EditChildren(Range4(), 18, 1, 1, 16, 21, true, 2) == Range6();
    assert EditChildren(From1(), 18, 0, 1, 16, 21, true, 2) == Range6();
    assert MergeDown(Range6(), 18, 0, 0, 2) == Range7();
    assert MergeDown(Range6(), 18, 1, 0, 2) == Range7();
    EditTwo(From1(), 18, 16, 21, 2, Range6(), Range7());
  }

  lemma EditTwo(s: Store, n: nat, low: int, high: int, h: nat, edited: Store, merged: Store)
    requires h > 0 && Length(N(s, n).keys) == 2 && Rank(N(s, n).keys, low) == 0 && Rank(N(s, n).keys, high) == 1
    requires EditChildren(s, n, 0, 1, low, high, true, h) == edited
    requires MergeDown(edited, n, 1, 0, h) == merged && Size(merged, Child(merged, n, 0)) > 0
    ensures Edit(s, n, low, high, true, h) == merged
  {
    hide EditChildren, MergeDown;
  }

  lemma RangeMergeSteps()
    ensures TryMerge(Range6(), 18, 1, 2) == Range6() && TryMerge(Range6(), 18, 0, 2) == Range7()
  {
    hide TryMerge, MergeSibling;
    NoMerge(Range6(), 18, 1, 2);
    var absorbed := Put(Range6(), 11, L1(23), L1(4));
    NoMerge(absorbed, 11, -1, 1);
    AbsorbOne(Range6(), 11, 7, 1, absorbed, absorbed);
    assert Renew(Put(absorbed, 18, L1(23), L1(11)), 18, 0) == Range7();
    MergeOne(Range6(), 18, 0, 2, 11, 7, absorbed, Range7());
  }

  lemma RangeOwned()
    ensures Own(From1(), 18, 0) == From1() && Renew(Range4(), 18, 0) == Range4()
    ensures Own(Range4(), 18, 1) == Range4() && Renew(Range6(), 18, 1) == Range6()
  {
  }

  lemma RangeDeleted()
    ensures Perform(One(From1(), Tree(19, 3)), DeleteRange(0, 16, 21, true)) == One(Range7(), Tree(19, 3))
  {
    hide Own, Renew, Edit;
    RangeUnder18();
    OwnAlready(From1(), 19, 1);
    assert Renew(Range7(), 19, 1) == Range7() by { RangeNothingToRenew(); }
    assert MergeDown(Range7(), 19, 0, 0, 3) == Range7();
    assert MergeDown(Range7(), 19, 1, 0, 3) == Range7();
    EditOne(From1(), 19, 1, 16, 21, 3, From1(), 18, Range7(), Range7());
  }

  lemma RangeNothingToRenew()
    ensures Renew(Range7(), 19, 1) == Range7()
  {
  }

  // --------------------------------------------------------- and one in a clone

  lemma TreeCloned()
    ensures Perform(One(Range7(), Tree(19, 3)), CloneTree(0)) == State(Cloned(), L2(Tree(19, 3), Tree(19, 3)))
  {
  }

  /** The nodes on the way to the key are copied, and what they refer to is marked. */
  lemma RootCopied()
    ensures OwnRoot(Cloned(), Tree(19, 3)) == (Copy1(), Tree(20, 3))
  {
    assert Clone(Cloned(), 19) == Copy1();
  }

  lemma PathCopied()
    ensures Own(Copy1(), 20, 0) == Copy2() && Own(Copy2(), 21, 1) == Copy3() && Own(Copy3(), 22, 0) == Copy4()
  {
  }

  lemma LeafCutAlone()
    ensures Renew(EditLeaf(Copy4(), 23, 8, 8, true), 22, 0) == Cut5()
  {
  }

  lemma LeafMerged()
    ensures TryMerge(Cut5(), 22, 0, 1) == Cut6()
  {
    hide TryMerge, MergeSibling;
    var absorbed := Put(Cut5(), 23, L3(9, 10, 11), Nil);
    AbsorbLeaf(Cut5(), 23, 12, absorbed);
    assert Renew(Put(absorbed, 22, L1(11), L1(23)), 22, 0) == Cut6();
    MergeOne(Cut5(), 22, 0, 1, 23, 12, absorbed, Cut6());
  }

  lemma LeafCut()
    ensures Edit(Copy3(), 22, 8, 8, true, 1) == Cut6()
  {
    hide Own, Renew, TryMerge;
    PathCopied();
    LeafCutAlone();
    LeafMerged();
    EditOne(Copy3(), 22, 0, 8, 8, 1, Copy4(), 23, Cut5(), Cut6());
  }

  /** Node 22 absorbs node 14, which is the other tree's: it refers to two leaves now that are not marked. */
  lemma InnerCut()
    ensures Edit(Copy2(), 21, 8, 8, true, 2) == Cut7()
  {
    hide Own, Renew, TryMerge, Edit;
    PathCopied();
    LeafCut();
    InnerSteps();
    assert MergeDown(Cut7(), 21, 0, 0, 2) == Cut7();
    assert MergeDown(Cut6(), 21, 1, 0, 2) == Cut7();
    EditOne(Copy2(), 21, 1, 8, 8, 2, Copy3(), 22, Cut6(), Cut7());
  }

  lemma InnerSteps()
    ensures Renew(Cut6(), 21, 1) == Cut6() && TryMerge(Cut6(), 21, 1, 2) == Cut7()
  {
    hide TryMerge, MergeSibling;
    var absorbed := Put(Cut6(), 22, L3(11, 13, 15), L3(23, 10, 9));
    NoMerge(absorbed, 22, 0, 1);
    AbsorbOne(Cut6(), 22, 14, 1, absorbed, absorbed);
    assert Renew(Put(absorbed, 21, L2(7, 15), L2(3, 22)), 21, 1) == Cut7();
    MergeOne(Cut6(), 21, 1, 2, 22, 14, absorbed, Cut7());
  }

  /** Leaf 9, which the other tree refers to and which is not marked, absorbs a leaf in place. */
  lemma LeavesMerged()
    ensures TryMerge(Seam2(), 22, 2, 1) == Seam4()
  {
    assert MergeSibling(Seam2(), 9, 4, 0) == Seam3();
    assert Renew(Put(Seam3(), 22, L3(11, 13, 15), L3(23, 10, 9)), 22, 2) == Seam4();
    MergeOne(Seam2(), 22, 2, 1, 9, 4, Seam3(), Seam4());
  }

  /** It does so at the seam where node 22 absorbs node 11. */
  lemma InnersMerged()
    ensures TryMerge(Seam1(), 21, 1, 2) == Seam5()
  {
    hide TryMerge;
    LeavesMerged();
    assert Put(Seam1(), 22, L4(11, 13, 15, 23), L4(23, 10, 9, 4)) == Seam2();
    AbsorbOne(Seam1(), 22, 11, 1, Seam2(), Seam4());
    assert Renew(Put(Seam4(), 21, L2(7, 15), L2(3, 22)), 21, 1) == Seam5();
    MergeOne(Seam1(), 21, 1, 2, 22, 11, Seam4(), Seam5());
  }

  /** And that is at the seam where node 21 absorbs node 18. */
  lemma SeamMerged()
    ensures TryMerge(Cut7(), 20, 0, 3) == Changed()
  {
    hide TryMerge;
    InnersMerged();
    assert Put(Cut7(), 21, L3(7, 15, 23), L3(3, 22, 11)) == Seam1();
    AbsorbOne(Cut7(), 21, 18, 2, Seam1(), Seam5());
    assert Renew(Put(Seam5(), 20, L1(15), L1(21)), 20, 0) == Changed();
    MergeOne(Cut7(), 20, 0, 3, 21, 18, Seam5(), Changed());
  }

  lemma KeyDeleted()
    ensures Perform(State(Cloned(), L2(Tree(19, 3), Tree(19, 3))), DeleteRange(1, 8, 8, true))
      == State(Changed(), L2(Tree(19, 3), Tree(21, 2)))
  {
    hide Own, OwnRoot, Renew, TryMerge, Edit;
    RootCopied();
    PathCopied();
    InnerCut();
    SeamMerged();
    assert Renew(Cut7(), 20, 0) == Cut7() by { NothingToRenew(); }
    assert MergeDown(Cut7(), 20, 0, 0, 3) == Changed();
    EditOne(Copy1(), 20, 0, 8, 8, 3, Copy2(), 21, Cut7(), Changed());
    assert Collapse(Changed(), Tree(20, 3)) == Tree(21, 2);
  }

  lemma NothingToRenew()
    ensures Renew(Cut7(), 20, 0) == Cut7()
  {
  }

  // ------------------------------------------------------------ the whole story

  /** So many numbers from one on, and then the rest. */
  function Numbers(from: int, n: nat, rest: List<int>): List<int>
    decreases n
  {
    if n == 0 then rest else Cons(from, Numbers(from + 1, n - 1, rest))
  }

  lemma AppendNil<T>(s: List<T>)
    ensures Append(s, Nil) == s
  {
  }

  lemma {:induction false} AppendNumbers(from: int, n: nat, a: List<int>, b: List<int>)
    ensures Append(Numbers(from, n, a), b) == Numbers(from, n, Append(a, b))
    decreases n
  {
    if n > 0 {
      AppendNumbers(from + 1, n - 1, a, b);
    }
  }

  lemma ListedAt(s: Store, trees: List<Tree>, a: List<int>, b: List<int>, c: List<int>, d: List<int>)
    requires trees.Cons? && trees.head == Tree(19, 3)
    requires N(s, 19).children == L2(8, 18) && N(s, 8).children == L3(3, 17, 14)
    requires Keys(s, 3, 1) == a && Keys(s, 17, 1) == b && Keys(s, 14, 1) == c && Keys(s, 18, 2) == d
    ensures Contents(State(s, trees), 0) == Append(Append(a, Append(b, c)), d)
  {
    hide Append;
    AppendNil(c);
    AppendNil(d);
    assert Keys(s, 8, 2) == KeysOf(s, L3(3, 17, 14), 2);
    assert KeysOf(s, L3(3, 17, 14), 2) == Append(a, KeysOf(s, L2(17, 14), 2));
    assert KeysOf(s, L2(17, 14), 2) == Append(b, KeysOf(s, L1(14), 2));
    assert KeysOf(s, L2(8, 18), 3) == Append(Keys(s, 8, 2), KeysOf(s, L1(18), 3));
  }

  /** Joining the keys of three leaves, which end in any others. */
  lemma JoinNumbers(last: List<int>, rest: List<int>)
    ensures Append(Append(Numbers(1, 7, Nil), Append(Numbers(8, 4, Nil), Numbers(12, 4, last))), rest)
      == Numbers(1, 15, Append(last, rest))
  {
    AppendNumbers(8, 4, Nil, Numbers(12, 4, last));
    AppendNumbers(1, 7, Nil, Numbers(8, 4, Numbers(12, 4, last)));
    SplitNumbers(1, 15, 11, last);
    SplitNumbers(1, 11, 7, Numbers(12, 4, last));
    AppendNumbers(1, 15, last, rest);
  }

  lemma {:induction false} SplitNumbers(from: int, n: nat, m: nat, last: List<int>)
    requires m <= n
    ensures Numbers(from, n, last) == Numbers(from, m, Numbers(from + m, n - m, last))
    decreases m
  {
    if m > 0 {
      SplitNumbers(from + 1, n - 1, m - 1, last);
    }
  }

  lemma LeavesBefore()
    ensures Keys(Cloned(), 3, 1) == Numbers(1, 7, Nil) && Keys(Cloned(), 17, 1) == Numbers(8, 4, Nil)
    ensures Keys(Cloned(), 14, 1) == Numbers(12, 4, Nil)
  {
  }

  lemma LastBefore()
    ensures Keys(Cloned(), 18, 2) == L2(22, 23)
  {
  }

  lemma ListedBefore()
    ensures Contents(State(Cloned(), L2(Tree(19, 3), Tree(19, 3))), 0) == Numbers(1, 15, L2(22, 23))
  {
    hide Keys, Numbers, Contents, Append;
    LeavesBefore();
    LastBefore();
    JoinNumbers(Nil, L2(22, 23));
    NilFirst(L2(22, 23));
    ListedAt(Cloned(), L2(Tree(19, 3), Tree(19, 3)),
      Numbers(1, 7, Nil), Numbers(8, 4, Nil), Numbers(12, 4, Nil), L2(22, 23));
  }

  lemma NilFirst(a: List<int>)
    ensures Append(Nil, a) == a
  {
  }

  lemma TwiceTwo()
    ensures Append(L2(22, 23), L2(22, 23)) == L4(22, 23, 22, 23)
  {
  }

  lemma FirstAfter()
    ensures Keys(Changed(), 3, 1) == Numbers(1, 7, Nil)
  {
  }

  lemma SecondAfter()
    ensures Keys(Changed(), 17, 1) == Numbers(8, 4, Nil)
  {
  }

  /** Leaf 9, under node 14, lists the keys that were put behind its own. */
  lemma ThirdAfter()
    ensures Keys(Changed(), 14, 1) == Numbers(12, 4, L2(22, 23))
  {
  }

  lemma LastAfter()
    ensures Keys(Changed(), 18, 2) == L2(22, 23)
  {
  }

  lemma ListedAfter()
    ensures Contents(State(Changed(), L2(Tree(19, 3), Tree(21, 2))), 0) == Numbers(1, 15, L4(22, 23, 22, 23))
  {
    hide Keys, Numbers, Contents, Append;
    FirstAfter();
    SecondAfter();
    ThirdAfter();
    LastAfter();
    JoinNumbers(L2(22, 23), L2(22, 23));
    TwiceTwo();
    ListedAt(Changed(), L2(Tree(19, 3), Tree(21, 2)),
      Numbers(1, 7, Nil), Numbers(8, 4, Nil), Numbers(12, 4, L2(22, 23)), L2(22, 23));
  }

  /** From the empty tree on: keys are set, some of them are deleted, the tree is cloned, and one key is deleted from
      the clone, as without does it. The tree that was cloned then lists two keys twice. */
  lemma WithoutChangesOriginal()
    ensures var st := Perform(Perform(Sets(Start(), 23, 1), DeleteRange(0, 16, 21, true)), CloneTree(0));
      && Contents(st, 0) == Numbers(1, 15, L2(22, 23))
      && Contents(Perform(st, DeleteRange(1, 8, 8, true)), 0) == Numbers(1, 15, L4(22, 23, 22, 23))
  {
    hide Perform, Contents, Numbers, One;
    Built();
    RangeDeleted();
    TreeCloned();
    KeyDeleted();
    ListedBefore();
    ListedAfter();
  }
}
