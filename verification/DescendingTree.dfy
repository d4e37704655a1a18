/** A tree with 23 keys, set in descending order: each goes to the first leaf, every other one splits it. */
module DescendingTree {
  import opened NodeStores

  function L1<T>(a: T): List<T> { Cons(a, Nil) }
  function L2<T>(a: T, b: T): List<T> { Cons(a, L1(b)) }
  function L3<T>(a: T, b: T, c: T): List<T> { Cons(a, L2(b, c)) }
  function L4<T>(a: T, b: T, c: T, d: T): List<T> { Cons(a, L3(b, c, d)) }

  function Leaf(keys: List<int>): Node { Node(true, keys, Nil, false) }
  function Inner(keys: List<int>, children: List<nat>): Node { Node(false, keys, children, false) }
  function Shared(n: Node): Node { Node(n.isLeaf, n.keys, n.children, true) }
  function Empty(): Node { Shared(Leaf(Nil)) }

  function One(s: Store, t: Tree): State { State(s, L1(t)) }

  /** The key goes to the first child, where there is nothing to shift. */
  lemma SetFirst(s: Store, n: nat, key: int, h: nat)
    requires h > 0 && N(s, n).children.Cons? && Rank(N(s, n).keys, key) == 0
    requires !N(s, Child(s, n, 0)).isShared && key <= MaxKey(s, Child(s, n, 0))
    ensures SetNode(s, n, key, h) ==
      var r := SetNode(s, Child(s, n, 0), key, h - 1);
      if r.split then AddChild(Renew(r.store, n, 0), n, 0, r.right) else SetOutcome(Renew(r.store, n, 0), false, 0)
  {
    hide SetLeaf, AddChild, Renew;
    assert Own(s, n, 0) == s && Shift(s, n, 0, key) == s;
  }

  // ---------------------------------------------- setting the smallest key

  /** Down to leaf 1, by first children, which are all the tree's own: the key is smaller than what is there. */
  predicate LeftEdge(s: Store, n: nat, h: nat, key: int)
    decreases h
  {
    && 0 < n < |s| && !s[n].isShared && s[n].keys.Cons? && key < s[n].keys.head
    && if h == 0 then n == 1 && s[n].isLeaf && s[n].children.Nil?
      else
        && n != 1 && s[n].children.Cons? && s[n].keys.head == MaxKey(s, s[n].children.head)
        && LeftEdge(s, s[n].children.head, h - 1, key)
  }

  /** The first leaf with one more key. */
  function Pushed(s: Store, key: int): Store {
    Put(s, 1, Cons(key, N(s, 1).keys), Nil)
  }

  lemma MaxKeyOfMore(s: Store, n: nat, key: int)
    requires N(s, n).keys.Cons? && (n == 1 ==> n < |s|)
    ensures MaxKey(Pushed(s, key), n) == MaxKey(s, n) && Size(Pushed(s, key), n) > 0
  {
  }

  lemma {:induction false} SetPushes(s: Store, n: nat, key: int, h: nat)
    requires LeftEdge(s, n, h, key) && Size(s, 1) < MAX
    ensures SetNode(s, n, key, h) == SetOutcome(Pushed(s, key), false, 0)
    ensures LeftEdge(Pushed(s, key), n, h, key - 1)
    decreases h
  {
    hide SetLeaf, AddChild, MaxKey;
    if h == 0 {
      LeafPushed(s, key);
    } else {
      var c := s[n].children.head;
      SetPushes(s, c, key, h - 1);
      FirstIsLeast(s, n, h, key);
      SetFirst(s, n, key, h);
      MaxKeyOfMore(s, c, key);
      assert Renew(Pushed(s, key), n, 0) == Pushed(s, key);
    }
  }

  lemma LeafPushed(s: Store, key: int)
    requires LeftEdge(s, 1, 0, key) && Size(s, 1) < MAX
    ensures SetLeaf(s, 1, key) == SetOutcome(Pushed(s, key), false, 0)
  {
  }

  lemma FirstIsLeast(s: Store, n: nat, h: nat, key: int)
    requires h > 0 && LeftEdge(s, n, h, key)
    ensures Rank(s[n].keys, key) == 0 && key <= MaxKey(s, s[n].children.head)
  {
  }

  lemma FourKeys(ks: List<int>)
    requires Length(ks) == 4
    ensures ks.Cons? && ks.tail.Cons? && ks.tail.tail.Cons? && ks.tail.tail.tail.Cons?
    ensures ks == L4(ks.head, ks.tail.head, ks.tail.tail.head, ks.tail.tail.tail.head)
    ensures Take(ks, 2) == L2(ks.head, ks.tail.head) && Drop(ks, 2) == ks.tail.tail
  {
    assert Length(ks.tail) == 3 && Length(ks.tail.tail) == 2 && Length(ks.tail.tail.tail) == 1;
    assert Length(ks.tail.tail.tail.tail) == 0;
    assert Take(ks.tail.tail, 0) == Nil && Take(ks.tail, 1) == L1(ks.tail.head);
    assert Drop(ks.tail.tail, 0) == ks.tail.tail && Drop(ks.tail, 1) == ks.tail.tail;
  }

  lemma LastKey(s: Store, n: nat)
    ensures forall a, b :: N(s, n).keys == L2(a, b) ==> MaxKey(s, n) == b && Size(s, n) == 2
    ensures forall a, b, c :: N(s, n).keys == L3(a, b, c) ==> MaxKey(s, n) == c && Size(s, n) == 3
    ensures forall a, b, c, d :: N(s, n).keys == L4(a, b, c, d) ==> MaxKey(s, n) == d && Size(s, n) == 4
  {
    forall a: int, b: int ensures At(L2(a, b), 1, 0) == b && Length(L2(a, b)) == 2 {
      assert At(L1(b), 0, 0) == b && Length(L1(b)) == 1;
    }
    forall a, b: int, c: int ensures At(L3(a, b, c), 2, 0) == c && Length(L3(a, b, c)) == 3 {
      assert At(L2(b, c), 1, 0) == c;
    }
    forall a, b: int, c: int, d ensures At(L4(a, b, c, d), 3, 0) == d && Length(L4(a, b, c, d)) == 4 {
      assert At(L3(b, c, d), 2, 0) == d;
    }
  }

  /** The first leaf, which is full, split, with one more key in its left part. */
  function LeafSplit(s: Store, key: int): Store
    requires 1 < |s| && Length(s[1].keys) == 4
  {
    var ks := s[1].keys;
    s[1 := Leaf(Cons(key, Take(ks, 2)))] + [Leaf(Drop(ks, 2))]
  }

  lemma LeafSplits(s: Store, key: int)
    requires LeftEdge(s, 1, 0, key) && Size(s, 1) == 4
    ensures SetLeaf(s, 1, key) == SetOutcome(LeafSplit(s, key), true, |s|)
  {
    var ks := s[1].keys;
    FourKeys(ks);
  }

  /** And the node above it with the right part behind the left one. */
  function Grown(s: Store, n: nat, key: int): Store
    requires 1 < |s| && Length(s[1].keys) == 4 && n < |s| && s[n].keys.Cons?
  {
    var ks, t := s[1].keys, LeafSplit(s, key);
    Put(t, n, Cons(At(ks, 1, 0), s[n].keys), Cons(1, Cons(|s|, Drop(s[n].children, 1))))
  }

  lemma PutTwice(s: Store, n: nat, ks: List<int>, cs: List<nat>, ks': List<int>, cs': List<nat>)
    ensures Put(Put(s, n, ks, cs), n, ks', cs') == Put(s, n, ks', cs')
  {
  }

  lemma SetGrows(s: Store, n: nat, key: int)
    requires LeftEdge(s, n, 1, key) && s[n].children.head == 1 && Size(s, 1) == 4 && Size(s, n) < MAX
    ensures SetNode(s, n, key, 1) == SetOutcome(Grown(s, n, key), false, 0)
    ensures MaxKey(Grown(s, n, key), n) == MaxKey(s, n) && Size(Grown(s, n, key), n) > 0
  {
    hide SetLeaf;
    var ks, t, r: nat := s[1].keys, LeafSplit(s, key), |s|;
    LeafSplits(s, key);
    FirstIsLeast(s, n, 1, key);
    SetFirst(s, n, key, 1);
    FourKeys(ks);
    LastKey(s, 1);
    LastKey(t, 1);
    var b, d, tail, cs := ks.tail.head, ks.tail.tail.tail.head, s[n].keys.tail, s[n].children;
    assert N(s, 1).keys == L4(ks.head, b, ks.tail.tail.head, d) && N(t, 1).keys == L3(key, ks.head, b);
    var u := Renew(t, n, 0);
    assert u == Put(t, n, Cons(b, tail), cs);
    LastKey(u, r);
    assert u[r].keys == L2(ks.tail.tail.head, d);
    assert Insert(tail, 0, d) == Cons(d, tail) && Insert(cs.tail, 0, r) == Cons(r, cs.tail) && Drop(cs, 1) == cs.tail;
    assert At(ks, 1, 0) == b;
    PutTwice(t, n, Cons(b, tail), cs, Cons(b, s[n].keys), Cons(1, Cons(r, cs.tail)));
    assert InsertChild(u, n, 1, r) == Grown(s, n, key);
  }

  lemma SetGrowsBelow(s: Store, n: nat, key: int)
    requires LeftEdge(s, n, 2, key)
    requires var c := s[n].children.head; s[c].children.head == 1 && Size(s, 1) == 4 && Size(s, c) < MAX
    ensures SetNode(s, n, key, 2) == SetOutcome(Grown(s, s[n].children.head, key), false, 0)
  {
    hide SetLeaf, AddChild;
    var c := s[n].children.head;
    SetGrows(s, c, key);
    FirstIsLeast(s, n, 2, key);
    SetFirst(s, n, key, 2);
    assert Renew(Grown(s, c, key), n, 0) == Grown(s, c, key);
  }

  lemma PerformSet(s: Store, t: Tree, key: int, s': Store)
    requires !N(s, t.root).isShared && SetNode(s, t.root, key, t.height) == SetOutcome(s', false, 0)
    ensures Perform(One(s, t), Set(0, key)) == One(s', t)
  {
    hide SetNode;
  }

  /** Two keys: the first fills the first leaf, the second splits it. */
  lemma SetTwo(s: Store, t: Tree, n: nat, key: int, s': Store)
    requires if t.height == 1 then n == t.root
      else t.height == 2 && t.root < |s| && s[t.root].children.Cons? && n == s[t.root].children.head
    requires LeftEdge(s, t.root, t.height, key + 1) && Size(s, 1) == 3 && Size(s, n) < MAX && N(s, n).children.Cons?
    requires N(s, n).children.head == 1
    requires Grown(Pushed(s, key + 1), n, key) == s'
    ensures Perform(Perform(One(s, t), Set(0, key + 1)), Set(0, key)) == One(s', t)
  {
    hide SetNode, Perform, Grown;
    var p := Pushed(s, key + 1);
    SetPushes(s, t.root, key + 1, t.height);
    PerformSet(s, t, key + 1, p);
    if t.height == 1 {
      SetGrows(p, n, key);
    } else {
      SetGrowsBelow(p, t.root, key);
    }
    PerformSet(p, t, key, s');
  }

  // ---------------------------------------------------------- the 23 keys

  function Sets(st: State, from: nat, to: nat): State
    decreases from - to
  {
    if from < to then st
    else if from == to then Perform(st, Set(0, to))
    else Perform(Sets(st, from, to + 1), Set(0, to))
  }

  lemma FirstKey()
    ensures Perform(Start(), Set(0, 23)) == One([Empty(), Leaf(L1(23))], Tree(1, 0))
  {
  }

  lemma FifthKey()
    ensures var s: Store := [Empty(), Leaf(L1(23))];
      Perform(One(Pushed(Pushed(Pushed(s, 22), 21), 20), Tree(1, 0)), Set(0, 19)) == One(From19(), Tree(3, 1))
  {
  }

  lemma TwoMore(st: State, from: int, to: nat)
    requires to + 1 < from
    ensures Sets(st, from, to) == Perform(Perform(Sets(st, from, to + 2), Set(0, to + 1)), Set(0, to))
  {
  }

  lemma PushedKeeps(s: Store, key: int, n: nat)
    requires n != 1
    ensures N(Pushed(s, key), n) == N(s, n) && |Pushed(s, key)| == |s|
  {
  }

  /** Two keys of which the second splits the first leaf and the node above it. */
  lemma SetTwoSplits(s: Store, n: nat, key: int, inner: Store, r: nat)
    requires LeftEdge(s, n, 1, key + 1) && s[n].children.head == 1 && Size(s, 1) == 3
    requires AddChild(Renew(LeafSplit(Pushed(s, key + 1), key), n, 0), n, 0, |s|) == SetOutcome(inner, true, r)
    ensures SetNode(Pushed(s, key + 1), n, key, 1) == SetOutcome(inner, true, r)
  {
    hide SetLeaf, AddChild, Renew, LeafSplit;
    var p := Pushed(s, key + 1);
    SetPushes(s, n, key + 1, 1);
    FirstIsLeast(p, n, 1, key);
    LeafSplits(p, key);
    SetFirst(p, n, key, 1);
  }

  function From19(): Store {
    [Empty(), Leaf(L3(19, 20, 21)), Leaf(L2(22, 23)), Inner(L2(21, 23), L2(1, 2))]
  }

  lemma To19()
    ensures Sets(Start(), 23, 19) == One(From19(), Tree(3, 1))
  {
    hide SetNode;
    var s: Store := [Empty(), Leaf(L1(23))];
    var one, four := Tree(1, 0), Pushed(Pushed(Pushed(s, 22), 21), 20);
    FirstKey();
    forall k, m: Store | LeftEdge(m, 1, 0, k) && Size(m, 1) < MAX
      ensures Perform(One(m, one), Set(0, k)) == One(Pushed(m, k), one)
    {
      SetPushes(m, 1, k, 0);
      PerformSet(m, one, k, Pushed(m, k));
    }
    assert Sets(Start(), 23, 21) == One(Pushed(Pushed(s, 22), 21), one);
    FifthKey();
  }

  function From17(): Store {
    [Empty(), Leaf(L3(17, 18, 19)), Leaf(L2(22, 23)), Inner(L3(19, 21, 23), L3(1, 4, 2)), Leaf(L2(20, 21))]
  }

  lemma To17()
    ensures Perform(Perform(One(From19(), Tree(3, 1)), Set(0, 18)), Set(0, 17)) == One(From17(), Tree(3, 1))
  {
    SetTwo(From19(), Tree(3, 1), 3, 17, From17());
  }

  function From15(): Store {
    [Empty(), Leaf(L3(15, 16, 17)), Leaf(L2(22, 23)), Inner(L4(17, 19, 21, 23), L4(1, 5, 4, 2)), Leaf(L2(20, 21)),
      Leaf(L2(18, 19))]
  }

  lemma To15()
    ensures Perform(Perform(One(From17(), Tree(3, 1)), Set(0, 16)), Set(0, 15)) == One(From15(), Tree(3, 1))
  {
    SetTwo(From17(), Tree(3, 1), 3, 15, From15());
  }

  function From13(): Store {
    [Empty(), Leaf(L3(13, 14, 15)), Leaf(L2(22, 23)), Inner(L3(15, 17, 19), L3(1, 6, 5)), Leaf(L2(20, 21)),
      Leaf(L2(18, 19)), Leaf(L2(16, 17)), Inner(L2(21, 23), L2(4, 2)), Inner(L2(19, 23), L2(3, 7))]
  }

  function At13Inner(): Store {
    [Empty(), Leaf(L3(13, 14, 15)), Leaf(L2(22, 23)), Inner(L3(15, 17, 19), L3(1, 6, 5)), Leaf(L2(20, 21)),
      Leaf(L2(18, 19)), Leaf(L2(16, 17)), Inner(L2(21, 23), L2(4, 2))]
  }

  lemma Inner13()
    ensures AddChild(Renew(LeafSplit(Pushed(From15(), 14), 13), 3, 0), 3, 0, 6) == SetOutcome(At13Inner(), true, 7)
  {
  }

  lemma To13()
    ensures Perform(Perform(One(From15(), Tree(3, 1)), Set(0, 14)), Set(0, 13)) == One(From13(), Tree(8, 2))
  {
    hide SetNode, AddChild, Renew, LeafSplit, Pushed;
    var s := From15();
    SetPushes(s, 3, 14, 1);
    PerformSet(s, Tree(3, 1), 14, Pushed(s, 14));
    Inner13();
    SetTwoSplits(s, 3, 13, At13Inner(), 7);
  }

  function From11(): Store {
    [Empty(), Leaf(L3(11, 12, 13)), Leaf(L2(22, 23)), Inner(L4(13, 15, 17, 19), L4(1, 9, 6, 5)), Leaf(L2(20, 21)),
      Leaf(L2(18, 19)), Leaf(L2(16, 17)), Inner(L2(21, 23), L2(4, 2)), Inner(L2(19, 23), L2(3, 7)), Leaf(L2(14, 15))]
  }

  lemma To11()
    ensures Perform(Perform(One(From13(), Tree(8, 2)), Set(0, 12)), Set(0, 11)) == One(From11(), Tree(8, 2))
  {
    SetTwo(From13(), Tree(8, 2), 3, 11, From11());
  }

  function From9(): Store {
    [Empty(), Leaf(L3(9, 10, 11)), Leaf(L2(22, 23)), Inner(L3(11, 13, 15), L3(1, 10, 9)), Leaf(L2(20, 21)),
      Leaf(L2(18, 19)), Leaf(L2(16, 17)), Inner(L2(21, 23), L2(4, 2)), Inner(L3(15, 19, 23), L3(3, 11, 7)),
      Leaf(L2(14, 15)), Leaf(L2(12, 13)), Inner(L2(17, 19), L2(6, 5))]
  }

  function At9Inner(): Store {
    [Empty(), Leaf(L3(9, 10, 11)), Leaf(L2(22, 23)), Inner(L3(11, 13, 15), L3(1, 10, 9)), Leaf(L2(20, 21)),
      Leaf(L2(18, 19)), Leaf(L2(16, 17)), Inner(L2(21, 23), L2(4, 2)), Inner(L2(19, 23), L2(3, 7)), Leaf(L2(14, 15)),
      Leaf(L2(12, 13)), Inner(L2(17, 19), L2(6, 5))]
  }

  lemma Inner9()
    ensures AddChild(Renew(LeafSplit(Pushed(From11(), 10), 9), 3, 0), 3, 0, 10) == SetOutcome(At9Inner(), true, 11)
  {
  }

  lemma Upper9()
    ensures AddChild(Renew(At9Inner(), 8, 0), 8, 0, 11) == SetOutcome(From9(), false, 0)
  {
  }

  lemma To9()
    ensures Perform(Perform(One(From11(), Tree(8, 2)), Set(0, 10)), Set(0, 9)) == One(From9(), Tree(8, 2))
  {
    hide SetNode, AddChild, Renew, LeafSplit, Pushed;
    var s := From11();
    SetPushes(s, 8, 10, 2);
    PerformSet(s, Tree(8, 2), 10, Pushed(s, 10));
    Inner9();
    SetTwoSplits(s, 3, 9, At9Inner(), 11);
    PushedKeeps(s, 10, 8);
    FirstIsLeast(Pushed(s, 10), 8, 2, 9);
    SetFirst(Pushed(s, 10), 8, 9, 2);
    Upper9();
    PerformSet(Pushed(s, 10), Tree(8, 2), 9, From9());
  }

  function From7(): Store {
    [Empty(), Leaf(L3(7, 8, 9)), Leaf(L2(22, 23)), Inner(L4(9, 11, 13, 15), L4(1, 12, 10, 9)), Leaf(L2(20, 21)),
      Leaf(L2(18, 19)), Leaf(L2(16, 17)), Inner(L2(21, 23), L2(4, 2)), Inner(L3(15, 19, 23), L3(3, 11, 7)),
      Leaf(L2(14, 15)), Leaf(L2(12, 13)), Inner(L2(17, 19), L2(6, 5)), Leaf(L2(10, 11))]
  }

  lemma To7()
    ensures Perform(Perform(One(From9(), Tree(8, 2)), Set(0, 8)), Set(0, 7)) == One(From7(), Tree(8, 2))
  {
    SetTwo(From9(), Tree(8, 2), 3, 7, From7());
  }

  function From5(): Store {
    [Empty(), Leaf(L3(5, 6, 7)), Leaf(L2(22, 23)), Inner(L3(7, 9, 11), L3(1, 13, 12)), Leaf(L2(20, 21)),
      Leaf(L2(18, 19)), Leaf(L2(16, 17)), Inner(L2(21, 23), L2(4, 2)), Inner(L4(11, 15, 19, 23), L4(3, 14, 11, 7)),
      Leaf(L2(14, 15)), Leaf(L2(12, 13)), Inner(L2(17, 19), L2(6, 5)), Leaf(L2(10, 11)), Leaf(L2(8, 9)),
      Inner(L2(13, 15), L2(10, 9))]
  }

  function At5Inner(): Store {
    [Empty(), Leaf(L3(5, 6, 7)), Leaf(L2(22, 23)), Inner(L3(7, 9, 11), L3(1, 13, 12)), Leaf(L2(20, 21)),
      Leaf(L2(18, 19)), Leaf(L2(16, 17)), Inner(L2(21, 23), L2(4, 2)), Inner(L3(15, 19, 23), L3(3, 11, 7)),
      Leaf(L2(14, 15)), Leaf(L2(12, 13)), Inner(L2(17, 19), L2(6, 5)), Leaf(L2(10, 11)), Leaf(L2(8, 9)),
      Inner(L2(13, 15), L2(10, 9))]
  }

  lemma Inner5()
    ensures AddChild(Renew(LeafSplit(Pushed(From7(), 6), 5), 3, 0), 3, 0, 13) == SetOutcome(At5Inner(), true, 14)
  {
  }

  lemma Upper5()
    ensures AddChild(Renew(At5Inner(), 8, 0), 8, 0, 14) == SetOutcome(From5(), false, 0)
  {
  }

  lemma To5()
    ensures Perform(Perform(One(From7(), Tree(8, 2)), Set(0, 6)), Set(0, 5)) == One(From5(), Tree(8, 2))
  {
    hide SetNode, AddChild, Renew, LeafSplit, Pushed;
    var s := From7();
    SetPushes(s, 8, 6, 2);
    PerformSet(s, Tree(8, 2), 6, Pushed(s, 6));
    Inner5();
    SetTwoSplits(s, 3, 5, At5Inner(), 14);
    PushedKeeps(s, 6, 8);
    FirstIsLeast(Pushed(s, 6), 8, 2, 5);
    SetFirst(Pushed(s, 6), 8, 5, 2);
    Upper5();
    PerformSet(Pushed(s, 6), Tree(8, 2), 5, From5());
  }

  function From3(): Store {
    [Empty(), Leaf(L3(3, 4, 5)), Leaf(L2(22, 23)), Inner(L4(5, 7, 9, 11), L4(1, 15, 13, 12)), Leaf(L2(20, 21)),
      Leaf(L2(18, 19)), Leaf(L2(16, 17)), Inner(L2(21, 23), L2(4, 2)), Inner(L4(11, 15, 19, 23), L4(3, 14, 11, 7)),
      Leaf(L2(14, 15)), Leaf(L2(12, 13)), Inner(L2(17, 19), L2(6, 5)), Leaf(L2(10, 11)), Leaf(L2(8, 9)),
      Inner(L2(13, 15), L2(10, 9)), Leaf(L2(6, 7))]
  }

  lemma To3()
    ensures Perform(Perform(One(From5(), Tree(8, 2)), Set(0, 4)), Set(0, 3)) == One(From3(), Tree(8, 2))
  {
    SetTwo(From5(), Tree(8, 2), 3, 3, From3());
  }

  function From1(): Store {
    [Empty(), Leaf(L3(1, 2, 3)), Leaf(L2(22, 23)), Inner(L3(3, 5, 7), L3(1, 16, 15)), Leaf(L2(20, 21)),
      Leaf(L2(18, 19)), Leaf(L2(16, 17)), Inner(L2(21, 23), L2(4, 2)), Inner(L3(7, 11, 15), L3(3, 17, 14)),
      Leaf(L2(14, 15)), Leaf(L2(12, 13)), Inner(L2(17, 19), L2(6, 5)), Leaf(L2(10, 11)), Leaf(L2(8, 9)),
      Inner(L2(13, 15), L2(10, 9)), Leaf(L2(6, 7)), Leaf(L2(4, 5)), Inner(L2(9, 11), L2(13, 12)),
      Inner(L2(19, 23), L2(11, 7)), Inner(L2(15, 23), L2(8, 18))]
  }

  function At1Inner(): Store {
    [Empty(), Leaf(L3(1, 2, 3)), Leaf(L2(22, 23)), Inner(L3(3, 5, 7), L3(1, 16, 15)), Leaf(L2(20, 21)),
      Leaf(L2(18, 19)), Leaf(L2(16, 17)), Inner(L2(21, 23), L2(4, 2)), Inner(L4(11, 15, 19, 23), L4(3, 14, 11, 7)),
      Leaf(L2(14, 15)), Leaf(L2(12, 13)), Inner(L2(17, 19), L2(6, 5)), Leaf(L2(10, 11)), Leaf(L2(8, 9)),
      Inner(L2(13, 15), L2(10, 9)), Leaf(L2(6, 7)), Leaf(L2(4, 5)), Inner(L2(9, 11), L2(13, 12))]
  }

  function At1Upper(): Store {
    [Empty(), Leaf(L3(1, 2, 3)), Leaf(L2(22, 23)), Inner(L3(3, 5, 7), L3(1, 16, 15)), Leaf(L2(20, 21)),
      Leaf(L2(18, 19)), Leaf(L2(16, 17)), Inner(L2(21, 23), L2(4, 2)), Inner(L3(7, 11, 15), L3(3, 17, 14)),
      Leaf(L2(14, 15)), Leaf(L2(12, 13)), Inner(L2(17, 19), L2(6, 5)), Leaf(L2(10, 11)), Leaf(L2(8, 9)),
      Inner(L2(13, 15), L2(10, 9)), Leaf(L2(6, 7)), Leaf(L2(4, 5)), Inner(L2(9, 11), L2(13, 12)),
      Inner(L2(19, 23), L2(11, 7))]
  }

  lemma Inner1()
    ensures AddChild(Renew(LeafSplit(Pushed(From3(), 2), 1), 3, 0), 3, 0, 16) == SetOutcome(At1Inner(), true, 17)
  {
  }

  lemma Upper1()
    ensures AddChild(Renew(At1Inner(), 8, 0), 8, 0, 17) == SetOutcome(At1Upper(), true, 18)
  {
  }

  lemma To1()
    ensures Perform(Perform(One(From3(), Tree(8, 2)), Set(0, 2)), Set(0, 1)) == One(From1(), Tree(19, 3))
  {
    hide SetNode, AddChild, Renew, LeafSplit, Pushed;
    var s := From3();
    SetPushes(s, 8, 2, 2);
    PerformSet(s, Tree(8, 2), 2, Pushed(s, 2));
    Inner1();
    SetTwoSplits(s, 3, 1, At1Inner(), 17);
    PushedKeeps(s, 2, 8);
    FirstIsLeast(Pushed(s, 2), 8, 2, 1);
    SetFirst(Pushed(s, 2), 8, 1, 2);
    Upper1();
  }

  lemma Built()
    ensures Sets(Start(), 23, 1) == One(From1(), Tree(19, 3))
  {
    hide Perform, One, Sets;
    To19();
    TwoMore(Start(), 23, 17);
    To17();
    TwoMore(Start(), 23, 15);
    To15();
    TwoMore(Start(), 23, 13);
    To13();
    TwoMore(Start(), 23, 11);
    To11();
    TwoMore(Start(), 23, 9);
    To9();
    TwoMore(Start(), 23, 7);
    To7();
    TwoMore(Start(), 23, 5);
    To5();
    TwoMore(Start(), 23, 3);
    To3();
    TwoMore(Start(), 23, 1);
    To1();
  }
}
