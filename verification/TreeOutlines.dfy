/** What can be seen of a tree from its two sides: the sizes of its first nodes, from the root down, and of its last
    ones. How nodes are merged can be followed on these sizes alone. */
module TreeOutlines {
  import opened SortedPairs
  import opened TreeSpec
  import opened TreeDelete

  ghost predicate Fit<K, V>(l: Tree<K, V>, r: Tree<K, V>, max: nat, h: nat) {
    Loose(l, max, h) && Loose(r, max, h) && l.Size() + r.Size() <= max
  }

  /** The two children that meet when l and r are joined are joined too, if they fit. */
  ghost predicate Meet<K, V>(l: Tree<K, V>, r: Tree<K, V>, max: nat) {
    && l.Inner? && r.Inner? && l.Size() > 0 && r.Size() > 0
    && l.children[|l.children| - 1].Size() + r.children[0].Size() <= max
  }

  lemma JoinParts<K, V>(l: Tree<K, V>, r: Tree<K, V>, max: nat, h: nat)
    requires Fit(l, r, max, h) && l.Inner?
    ensures var a, b := l.children, r.children;
      Meet(l, r, max) ==>
        && Fit(a[|a| - 1], b[0], max, h - 1)
        && Join(l, r, max, h) == Inner(a[..|a| - 1] + [Join(a[|a| - 1], b[0], max, h - 1)] + b[1..])
    ensures !Meet(l, r, max) ==> Join(l, r, max, h) == Inner(l.children + r.children)
  {
    var a, b := l.children, r.children;
    var all := a + b;
    if Meet(l, r, max) {
      assert all[|a| - 1] == a[|a| - 1] && all[|a|] == b[0];
      assert all[..|a| - 1] == a[..|a| - 1] && all[|a| + 1..] == b[1..];
    } else if |a| > 0 && |b| > 0 {
      assert all[|a| - 1] == a[|a| - 1] && all[|a|] == b[0];
    }
  }

  lemma JoinNothing<K, V>(l: Tree<K, V>, r: Tree<K, V>, max: nat, h: nat)
    requires Fit(l, r, max, h)
    ensures l.Size() == 0 ==> Join(l, r, max, h) == r
    ensures r.Size() == 0 ==> Join(l, r, max, h) == l
  {
    if l.Inner? {
      JoinParts(l, r, max, h);
    }
  }

  // --------------------------------------------------------------- outlines

  ghost function FirstSizes<K, V>(t: Tree<K, V>): (s: seq<nat>)
    ensures |s| > 0 && s[0] == t.Size() && (|s| > 1 <==> t.Inner? && t.Size() > 0)
  {
    [t.Size()] + if t.Inner? && |t.children| > 0 then FirstSizes(t.children[0]) else []
  }

  ghost function LastSizes<K, V>(t: Tree<K, V>): (s: seq<nat>)
    ensures |s| > 0 && s[0] == t.Size() && (|s| > 1 <==> t.Inner? && t.Size() > 0)
  {
    [t.Size()] + if t.Inner? && |t.children| > 0 then LastSizes(t.children[|t.children| - 1]) else []
  }

  /** Both sides of a tree, whose root they have in common. */
  datatype Outline = Outline(first: seq<nat>, last: seq<nat>) {
    ghost predicate Valid() {
      |first| > 0 && |last| > 0 && first[0] == last[0]
    }

    ghost function Size(): nat
      requires Valid()
    {
      first[0]
    }
  }

  ghost function OutlineOf<K, V>(t: Tree<K, V>): (o: Outline)
    ensures o.Valid() && o.Size() == t.Size()
  {
    Outline(FirstSizes(t), LastSizes(t))
  }

  /** Whether the children that meet when one tree is joined to another are joined too. */
  predicate Meets(last: seq<nat>, first: seq<nat>, max: nat) {
    |last| > 1 && |first| > 1 && last[1] + first[1] <= max
  }

  function JoinedSize(last: seq<nat>, first: seq<nat>, max: nat): nat
    requires |last| > 0 && |first| > 0
  {
    if Meets(last, first, max) && last[0] > 0 then last[0] + first[0] - 1 else last[0] + first[0]
  }

  /** The first nodes of a join: those of the left tree, down to where they are joined themselves, which is where the
      left tree has one node only. */
  function JoinedFirst(l: Outline, r: seq<nat>, max: nat): seq<nat>
    requires |l.first| > 0 && |l.last| > 0 && |r| > 0
    decreases |l.first|
  {
    [JoinedSize(l.last, r, max)] +
    (if l.first[0] == 0 then r[1..]
     else if Meets(l.last, r, max) && l.first[0] == 1 && |l.first| > 1
       then JoinedFirst(Outline(l.first[1..], l.last[1..]), r[1..], max)
     else l.first[1..])
  }

  function JoinedLast(l: seq<nat>, r: Outline, max: nat): seq<nat>
    requires |l| > 0 && |r.first| > 0 && |r.last| > 0
    decreases |r.last|
  {
    [JoinedSize(l, r.first, max)] +
    (if r.last[0] == 0 then l[1..]
     else if Meets(l, r.first, max) && r.last[0] == 1 && |r.last| > 1
       then JoinedLast(l[1..], Outline(r.first[1..], r.last[1..]), max)
     else r.last[1..])
  }

  function JoinedOutline(l: Outline, r: Outline, max: nat): (o: Outline)
    requires |l.first| > 0 && |l.last| > 0 && |r.first| > 0 && |r.last| > 0
    ensures |o.first| > 0 && |o.last| > 0 && o.first[0] == o.last[0]
  {
    Outline(JoinedFirst(l, r.first, max), JoinedLast(l.last, r, max))
  }

  lemma MeetIsMeets<K, V>(l: Tree<K, V>, r: Tree<K, V>, max: nat)
    ensures Meet(l, r, max) <==> Meets(LastSizes(l), FirstSizes(r), max)
  {
  }

  /** One step down each side. */
  lemma Sides<K, V>(t: Tree<K, V>)
    ensures FirstSizes(t) == [t.Size()] + if t.Inner? && t.Size() > 0 then FirstSizes(t.children[0]) else []
    ensures LastSizes(t) == [t.Size()] + if t.Inner? && t.Size() > 0 then LastSizes(t.children[|t.children| - 1])
      else []
    ensures t.Inner? && t.Size() > 0 ==> FirstSizes(t)[1..] == FirstSizes(t.children[0])
    ensures t.Inner? && t.Size() > 0 ==> LastSizes(t)[1..] == LastSizes(t.children[|t.children| - 1])
  {
  }

  lemma JoinOfLeaves<K, V>(l: Tree<K, V>, r: Tree<K, V>, max: nat, h: nat)
    requires Fit(l, r, max, h)
    ensures l.Leaf? == r.Leaf? && (l.Inner? ==> h > 0)
    ensures l.Leaf? ==> Join(l, r, max, h).Leaf? && Join(l, r, max, h).Size() == l.Size() + r.Size()
  {
  }

  lemma {:induction false} JoinFirst<K, V>(l: Tree<K, V>, r: Tree<K, V>, max: nat, h: nat)
    requires Fit(l, r, max, h)
    ensures FirstSizes(Join(l, r, max, h)) == JoinedFirst(OutlineOf(l), FirstSizes(r), max)
    decreases h
  {
    hide Loose, Join, FirstSizes, LastSizes;
    MeetIsMeets(l, r, max);
    JoinNothing(l, r, max, h);
    JoinOfLeaves(l, r, max, h);
    Sides(l);
    Sides(r);
    Sides(Join(l, r, max, h));
    if l.Inner? && l.Size() > 0 {
      JoinParts(l, r, max, h);
      var a, b := l.children, r.children;
      if Meet(l, r, max) && |a| == 1 {
        JoinFirst(a[0], b[0], max, h - 1);
      }
    }
  }

  lemma {:induction false} JoinLast<K, V>(l: Tree<K, V>, r: Tree<K, V>, max: nat, h: nat)
    requires Fit(l, r, max, h)
    ensures LastSizes(Join(l, r, max, h)) == JoinedLast(LastSizes(l), OutlineOf(r), max)
    decreases h
  {
    hide Loose, Join, FirstSizes, LastSizes;
    MeetIsMeets(l, r, max);
    JoinNothing(l, r, max, h);
    JoinOfLeaves(l, r, max, h);
    Sides(l);
    Sides(r);
    Sides(Join(l, r, max, h));
    if l.Inner? && r.Size() > 0 {
      JoinParts(l, r, max, h);
      var a, b := l.children, r.children;
      if Meet(l, r, max) && |b| == 1 {
        JoinLast(a[|a| - 1], b[0], max, h - 1);
      }
    }
  }

  // ------------------------------------------------------- outlines of children

  ghost function Outlines<K, V>(cs: seq<Tree<K, V>>): (os: seq<Outline>)
    ensures |os| == |cs| && forall i :: 0 <= i < |cs| ==> os[i] == OutlineOf(cs[i])
  {
    seq(|cs|, i requires 0 <= i < |cs| => OutlineOf(cs[i]))
  }

  ghost predicate AllValid(os: seq<Outline>) {
    forall o <- os :: o.Valid()
  }

  /** The outline of a node with these children, without the first one if that is empty. */
  ghost function NodeOutline(os: seq<Outline>): (o: Outline)
    requires AllValid(os)
    ensures o.Valid()
  {
    var left := if |os| > 0 && os[0].Size() == 0 then os[1..] else os;
    if |left| == 0 then Outline([0], [0]) else Outline([|left|] + left[0].first, [|left|] + left[|left| - 1].last)
  }

  lemma NodeHasOutline<K, V>(cs: seq<Tree<K, V>>)
    ensures OutlineOf(Inner(DropEmpty(cs))) == NodeOutline(Outlines(cs))
  {
    assert Outlines(DropEmpty(cs)) == if |cs| > 0 && cs[0].Size() == 0 then Outlines(cs)[1..] else Outlines(cs);
  }
}
