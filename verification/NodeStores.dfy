/** The operations of the tree exactly as the source has them, on nodes that a store keeps by their addresses: what is
    needed to follow a history step by step. Values go wherever their keys go, and are left out. */
module NodeStores {

  datatype List<+T> = Nil | Cons(head: T, tail: List<T>)

  function Length<T>(s: List<T>): nat {
    if s.Nil? then 0 else 1 + Length(s.tail)
  }

  function At<T>(s: List<T>, i: nat, d: T): T {
    if s.Nil? then d else if i == 0 then s.head else At(s.tail, i - 1, d)
  }

  function Update<T>(s: List<T>, i: nat, x: T): List<T> {
    if s.Nil? then s else if i == 0 then Cons(x, s.tail) else Cons(s.head, Update(s.tail, i - 1, x))
  }

  function Insert<T>(s: List<T>, i: nat, x: T): List<T> {
    if s.Nil? || i == 0 then Cons(x, s) else Cons(s.head, Insert(s.tail, i - 1, x))
  }

  function Remove<T>(s: List<T>, i: nat): List<T> {
    if s.Nil? then s else if i == 0 then s.tail else Cons(s.head, Remove(s.tail, i - 1))
  }

  function Take<T>(s: List<T>, n: nat): List<T> {
    if s.Nil? || n == 0 then Nil else Cons(s.head, Take(s.tail, n - 1))
  }

  function Drop<T>(s: List<T>, n: nat): List<T> {
    if s.Nil? || n == 0 then s else Drop(s.tail, n - 1)
  }

  function Append<T>(s: List<T>, r: List<T>): List<T> {
    if s.Nil? then r else Cons(s.head, Append(s.tail, r))
  }

  /** The number of keys that are less: where a key is, or would go. */
  function Rank(keys: List<int>, key: int): nat {
    if keys.Nil? || keys.head >= key then 0 else 1 + Rank(keys.tail, key)
  }

  const MAX := 4

  datatype Node = Node(isLeaf: bool, keys: List<int>, children: List<nat>, isShared: bool)

  /** New nodes go to the end. */
  type Store = seq<Node>

  function N(s: Store, n: nat): Node {
    if n < |s| then s[n] else Node(true, Nil, Nil, true)
  }

  function Write(s: Store, n: nat, c: Node): Store {
    if n < |s| then s[n := c] else s
  }

  function Size(s: Store, n: nat): nat {
    Length(N(s, n).keys)
  }

  function Minus(n: nat, m: nat): nat {
    if n >= m then n - m else 0
  }

  function MaxKey(s: Store, n: nat): int {
    At(N(s, n).keys, Minus(Size(s, n), 1), 0)
  }

  function Child(s: Store, n: nat, i: nat): nat {
    At(N(s, n).children, i, 0)
  }

  // ------------------------------------------------------------------- copying

  function Mark(s: Store, n: nat): Store {
    Write(s, n, Node(N(s, n).isLeaf, N(s, n).keys, N(s, n).children, true))
  }

  function MarkAll(s: Store, ns: List<nat>): Store
    decreases ns
  {
    if ns.Nil? then s else MarkAll(Mark(s, ns.head), ns.tail)
  }

  /** clone: the children become shared, and the copy goes to the end of the store. */
  function Clone(s: Store, n: nat): Store {
    MarkAll(s, N(s, n).children) + [Node(N(s, n).isLeaf, N(s, n).keys, N(s, n).children, false)]
  }

  function Relink(s: Store, n: nat, i: nat, c: nat): Store {
    Write(s, n, Node(N(s, n).isLeaf, N(s, n).keys, Update(N(s, n).children, i, c), N(s, n).isShared))
  }

  /** A shared child is copied before it is written. */
  function Own(s: Store, n: nat, i: nat): Store {
    if N(s, Child(s, n, i)).isShared then Relink(Clone(s, Child(s, n, i)), n, i, |s|) else s
  }

  // ------------------------------------------------------------------- setting

  /** The store, and the address of a right sibling when the node was split. */
  datatype SetOutcome = SetOutcome(store: Store, split: bool, right: nat)

  function Put(s: Store, n: nat, keys: List<int>, children: List<nat>): Store {
    Write(s, n, Node(N(s, n).isLeaf, keys, children, N(s, n).isShared))
  }

  function SetLeaf(s: Store, n: nat, key: int): SetOutcome {
    SetAt(s, n, Rank(N(s, n).keys, key), key)
  }

  function SetAt(s: Store, n: nat, i: nat, key: int): SetOutcome {
    if i < Size(s, n) && At(N(s, n).keys, i, 0) == key then SetOutcome(s, false, 0)
    else if Size(s, n) < MAX then SetOutcome(InsertKey(s, n, i, key), false, 0)
    else if i > Size(s, n) / 2 then
      SetOutcome(InsertKey(SplitOff(s, n, Size(s, n) / 2), |s|, i - Size(s, n) / 2, key), true, |s|)
    else SetOutcome(InsertKey(SplitOff(s, n, Size(s, n) / 2), n, i, key), true, |s|)
  }

  function InsertKey(s: Store, n: nat, i: nat, key: int): Store {
    Put(s, n, Insert(N(s, n).keys, i, key), Nil)
  }

  /** The right part of a node goes to a new one at the end of the store. */
  function SplitOff(s: Store, n: nat, half: nat): Store {
    Put(s, n, Take(N(s, n).keys, half), Take(N(s, n).children, half))
      + [Node(N(s, n).isLeaf, Drop(N(s, n).keys, half), Drop(N(s, n).children, half), false)]
  }

  function SetNode(s: Store, n: nat, key: int, h: nat): SetOutcome
    decreases h
  {
    if h == 0 then SetLeaf(s, n, key)
    else
      var last := Length(N(s, n).children) - 1;
      var rank := Rank(N(s, n).keys, key);
      var i := if rank <= last then rank else if last >= 0 then last else 0;
      var shifted := Shift(Own(s, n, i), n, i, key);
      var child := Child(shifted, n, i);
      var r := SetNode(shifted, child, key, h - 1);
      var renewed := Renew(r.store, n, i);
      if !r.split then SetOutcome(renewed, false, 0)
      else AddChild(renewed, n, i, r.right)
  }

  /** A full child makes room by giving an item to a sibling that has some. */
  function Shift(s: Store, n: nat, i: nat, key: int): Store {
    var child := Child(s, n, i);
    if Size(s, child) < MAX then s
    else if i > 0 && Size(s, Child(s, n, i - 1)) < MAX && At(N(s, child).keys, 0, 0) < key then
      var s' := Own(s, n, i - 1);
      Renew(TakeFromRight(s', Child(s', n, i - 1), child), n, i - 1)
    else if i + 1 < Length(N(s, n).children) && Size(s, Child(s, n, i + 1)) < MAX && MaxKey(s, child) < key then
      var s' := Own(s, n, i + 1);
      Renew(TakeFromLeft(s', Child(s', n, i + 1), child), n, i)
    else s
  }

  function TakeFromRight(s: Store, l: nat, r: nat): Store {
    var a, b := N(s, l), N(s, r);
    var s' := Put(s, l, Append(a.keys, Take(b.keys, 1)), Append(a.children, Take(b.children, 1)));
    Write(s', r, b.(keys := Drop(b.keys, 1), children := Drop(b.children, 1)))
  }

  function TakeFromLeft(s: Store, r: nat, l: nat): Store {
    var a, b := N(s, l), N(s, r);
    var k, c := if a.keys.Cons? then Length(a.keys) - 1 else 0, if a.children.Cons? then Length(a.children) - 1 else 0;
    var s' := Put(s, r, Append(Drop(a.keys, k), b.keys), Append(Drop(a.children, c), b.children));
    Write(s', l, a.(keys := Take(a.keys, k), children := Take(a.children, c)))
  }

  /** keys[i] = children[i].maxKey(); an empty child has none, and the key stays. */
  function Renew(s: Store, n: nat, i: nat): Store {
    if Size(s, Child(s, n, i)) == 0 then s
    else Put(s, n, Update(N(s, n).keys, i, MaxKey(s, Child(s, n, i))), N(s, n).children)
  }

  /** The right part of a child that was split goes behind it, in this node or, when it is full, in one of its
      halves. */
  function AddChild(s: Store, n: nat, i: nat, r: nat): SetOutcome {
    if Size(s, n) < MAX then SetOutcome(InsertChild(s, n, i + 1, r), false, 0)
    else if MaxKey(s, r) > MaxKey(SplitOff(s, n, Size(s, n) / 2), n) then
      SetOutcome(InsertChild(SplitOff(s, n, Size(s, n) / 2), |s|, Minus(i + 1, Size(s, n) / 2), r), true, |s|)
    else SetOutcome(InsertChild(SplitOff(s, n, Size(s, n) / 2), n, i + 1, r), true, |s|)
  }

  function InsertChild(s: Store, n: nat, i: nat, c: nat): Store {
    Put(s, n, Insert(N(s, n).keys, i, MaxKey(s, c)), Insert(N(s, n).children, i, c))
  }

  // ------------------------------------------------------------------- deleting

  /** Everything in r goes to the end of l; what r refers to is not marked. The children at the seam may be merged. */
  function MergeSibling(s: Store, l: nat, r: nat, h: nat): Store
    decreases h, 1
  {
    var a, b := N(s, l), N(s, r);
    var s' := Write(s, l, a.(keys := Append(a.keys, b.keys), children := Append(a.children, b.children)));
    if h == 0 then s' else TryMerge(s', l, Length(a.keys) - 1, h)
  }

  function TryMerge(s: Store, n: nat, i: int, h: nat): Store
    requires h > 0
    decreases h, 0
  {
    if 0 <= i && i + 1 < Length(N(s, n).children) && Size(s, Child(s, n, i)) + Size(s, Child(s, n, i + 1)) <= MAX then
      var s1 := Own(s, n, i);
      var s2 := MergeSibling(s1, Child(s1, n, i), Child(s1, n, i + 1), h - 1);
      Renew(Put(s2, n, Remove(N(s2, n).keys, i + 1), Remove(N(s2, n).children, i + 1)), n, i)
    else s
  }

  /** Pairs from one place up to another go. */
  function EditLeaf(s: Store, n: nat, low: int, high: int, includeHigh: bool): Store {
    var c := N(s, n);
    var iLow, iHigh := Rank(c.keys, low), Rank(c.keys, high);
    var found := iHigh < Length(c.keys) && At(c.keys, iHigh, 0) == high && includeHigh;
    var to := if found then iHigh + 1 else iHigh;
    if to <= iLow then s
    else Write(s, n, c.(keys := Append(Take(c.keys, iLow), Drop(c.keys, to))))
  }

  function Edit(s: Store, n: nat, low: int, high: int, includeHigh: bool, h: nat): Store
    decreases h, 1, 0
  {
    if h == 0 then EditLeaf(s, n, low, high, includeHigh)
    else
      var iLow, rank, last := Rank(N(s, n).keys, low), Rank(N(s, n).keys, high), Length(N(s, n).keys) - 1;
      var iHigh: int := if rank <= last then rank else last;
      if iLow > iHigh then s
      else
        var edited := EditChildren(s, n, iLow, iHigh, low, high, includeHigh, h);
        DropEmpty(MergeDown(edited, n, iHigh, if iLow > 0 then iLow - 1 else 0, h), n)
  }

  function EditChildren(s: Store, n: nat, i: nat, last: nat, low: int, high: int, includeHigh: bool, h: nat): Store
    requires h > 0
    decreases h, 0, if i <= last then last - i + 1 else 0
  {
    if i > last then s
    else
      var own := Own(s, n, i);
      var edited := Renew(Edit(own, Child(own, n, i), low, high, includeHigh, h - 1), n, i);
      EditChildren(edited, n, i + 1, last, low, high, includeHigh, h)
  }

  function MergeDown(s: Store, n: nat, i: nat, first: nat, h: nat): Store
    requires h > 0
    decreases i
  {
    var s' := if Size(s, Child(s, n, i)) <= MAX / 2 then TryMerge(s, n, i, h) else s;
    if i <= first then s' else MergeDown(s', n, i - 1, first, h)
  }

  function DropEmpty(s: Store, n: nat): Store {
    if Size(s, Child(s, n, 0)) == 0 then
      Write(s, n, N(s, n).(keys := Drop(N(s, n).keys, 1), children := Drop(N(s, n).children, 1)))
    else s
  }

  // ---------------------------------------------------------------------- trees

  datatype Tree = Tree(root: nat, height: nat)

  datatype State = State(store: Store, trees: List<Tree>)

  datatype Step =
    | Set(tree: nat, key: int)
    | CloneTree(tree: nat)
    | DeleteRange(tree: nat, low: int, high: int, includeHigh: bool)

  /** The one empty leaf that all empty trees share, and an empty tree. */
  function Start(): State {
    State([Node(true, Nil, Nil, true)], Cons(Tree(0, 0), Nil))
  }

  /** A tree that shares its root gets one to itself. */
  function OwnRoot(s: Store, t: Tree): (Store, Tree) {
    if N(s, t.root).isShared then (Clone(s, t.root), t.(root := |s|)) else (s, t)
  }

  function SetIn(s: Store, t: Tree, key: int): (Store, Tree) {
    var (own, t') := OwnRoot(s, t);
    var r := SetNode(own, t'.root, key, t'.height);
    if !r.split then (r.store, t')
    else
      var keys := Cons(MaxKey(r.store, t'.root), Cons(MaxKey(r.store, r.right), Nil));
      var top := Node(false, keys, Cons(t'.root, Cons(r.right, Nil)), false);
      (r.store + [top], Tree(|r.store|, t'.height + 1))
  }

  function Collapse(s: Store, t: Tree): Tree
    decreases t.height
  {
    if t.height == 0 || Size(s, t.root) > 1 then t
    else if Size(s, t.root) == 0 then Tree(0, 0)
    else Collapse(s, Tree(Child(s, t.root, 0), t.height - 1))
  }

  function DeleteRangeIn(s: Store, t: Tree, low: int, high: int, includeHigh: bool): (Store, Tree) {
    var (own, t') := OwnRoot(s, t);
    var s' := Edit(own, t'.root, low, high, includeHigh, t'.height);
    (s', Collapse(s', t'))
  }

  function Perform(st: State, step: Step): State {
    var t := At(st.trees, step.tree, Tree(0, 0));
    match step
    case Set(_, key) =>
      var (s, t') := SetIn(st.store, t, key);
      State(s, Update(st.trees, step.tree, t'))
    case CloneTree(_) =>
      State(Mark(st.store, t.root), Append(st.trees, Cons(t, Nil)))
    case DeleteRange(_, low, high, includeHigh) =>
      var (s, t') := DeleteRangeIn(st.store, t, low, high, includeHigh);
      State(s, Update(st.trees, step.tree, t'))
  }

  /** The keys that a tree lists. */
  function Keys(s: Store, n: nat, h: nat): List<int>
    decreases h, 1, 0
  {
    if h == 0 then N(s, n).keys else KeysOf(s, N(s, n).children, h)
  }

  function KeysOf(s: Store, ns: List<nat>, h: nat): List<int>
    requires h > 0
    decreases h, 0, ns
  {
    if ns.Nil? then Nil else Append(Keys(s, ns.head, h - 1), KeysOf(s, ns.tail, h))
  }

  function Contents(st: State, tree: nat): List<int> {
    var t := At(st.trees, tree, Tree(0, 0));
    Keys(st.store, t.root, t.height)
  }
}
