/** When deleting a range of keys leaves an empty node behind.

    A child that the deletion has emptied is merged away, except when it is the last one and its left neighbour is more
    than half full. What is left then is a node whose last child is empty: a gap. A gap can still be closed, when the
    node is itself merged with a right neighbour; one that is not stays for good. Fate says which it is before anything
    is deleted: of each child it keeps what becomes of it and the sizes of the nodes along its two sides, and follows
    on these how children are merged. And it decides exactly whether the tree keeps its shape. */
module TreeStranded {
  import opened Options
  import opened SortedPairs
  import opened TreeSpec
  import opened TreeDelete
  import opened TreeOutlines

  datatype Outcome = Whole | Gone | Gap(depth: nat) | Buried

  /** An empty node at that depth along the last children; all other nodes are as they should be. */
  ghost predicate GapAt<K, V>(t: Tree<K, V>, d: nat, max: nat, h: nat) {
    && t.Inner? && h > 0 && 1 <= t.Size() <= max
    && (forall i :: 0 <= i < |t.children| - 1 ==> Shape(t.children[i], max, h - 1))
    && var last := t.children[|t.children| - 1];
      if d == 1 then t.Size() >= 2 && Loose(last, max, h - 1) && last.Size() == 0
      else d > 1 && GapAt(last, d - 1, max, h - 1)
  }

  /** An empty node along the last children, whatever the other nodes are. */
  ghost predicate Torn<K, V>(t: Tree<K, V>) {
    && t.Inner? && t.Size() >= 1
    && var last := t.children[|t.children| - 1];
      (t.Size() >= 2 && last.Size() == 0) || Torn(last)
  }

  lemma {:induction false} GapIsTorn<K, V>(t: Tree<K, V>, d: nat, max: nat, h: nat)
    requires GapAt(t, d, max, h)
    ensures Torn(t)
  {
    if d > 1 {
      GapIsTorn(t.children[|t.children| - 1], d - 1, max, h - 1);
    }
  }

  /** A gap that no later merge can reach, because it is not along the last children. */
  ghost predicate BuriedGap<K, V>(t: Tree<K, V>) {
    t.Inner? && exists i ::
      0 <= i < |t.children| && (BuriedGap(t.children[i]) || (i < |t.children| - 1 && Torn(t.children[i])))
  }

  lemma {:induction false} TornIsNoShape<K, V>(t: Tree<K, V>, max: nat, h: nat)
    requires Torn(t)
    ensures !Shape(t, max, h)
  {
    var last := t.children[|t.children| - 1];
    if Torn(last) && h > 0 {
      TornIsNoShape(last, max, h - 1);
    }
  }

  lemma {:induction false} BuriedIsNoShape<K, V>(t: Tree<K, V>, max: nat, h: nat)
    requires BuriedGap(t)
    ensures !Shape(t, max, h)
  {
    var i :| 0 <= i < |t.children| && (BuriedGap(t.children[i]) || (i < |t.children| - 1 && Torn(t.children[i])));
    if h > 0 {
      if BuriedGap(t.children[i]) {
        BuriedIsNoShape(t.children[i], max, h - 1);
      } else {
        TornIsNoShape(t.children[i], max, h - 1);
      }
    }
  }

  // ---------------------------------------------------------------- merging

  /** Whether merging a node, which has a gap at depth d, with its right neighbour closes it: whether they are merged
      all the way down to the gap. Given are the sizes of the last nodes of the one and of the first nodes of the
      other. */
  predicate Closes(last: seq<nat>, first: seq<nat>, d: nat, max: nat)
    decreases d
  {
    d <= 1 || (Meets(last, first, max) && Closes(last[1..], first[1..], d - 1, max))
  }

  lemma {:induction false} JoinShape<K, V>(l: Tree<K, V>, r: Tree<K, V>, max: nat, h: nat)
    requires Fit(l, r, max, h) && Shape(l, max, h) && Shape(r, max, h)
    ensures Shape(Join(l, r, max, h), max, h)
  {
    if l.Inner? {
      JoinParts(l, r, max, h);
      if Meet(l, r, max) {
        JoinShape(l.children[|l.children| - 1], r.children[0], max, h - 1);
      }
    }
  }

  /** A gap on the right stays one. */
  lemma {:induction false} JoinKeepsGap<K, V>(l: Tree<K, V>, r: Tree<K, V>, d: nat, max: nat, h: nat)
    requires Fit(l, r, max, h) && Shape(l, max, h) && GapAt(r, d, max, h)
    ensures GapAt(Join(l, r, max, h), d, max, h)
  {
    JoinParts(l, r, max, h);
    var a, b := l.children, r.children;
    if Meet(l, r, max) {
      if |b| == 1 {
        JoinKeepsGap(a[|a| - 1], b[0], d - 1, max, h - 1);
      } else {
        JoinShape(a[|a| - 1], b[0], max, h - 1);
      }
    }
  }

  /** A gap on the left is closed, or buried. */
  lemma {:induction false} JoinOfGap<K, V>(l: Tree<K, V>, r: Tree<K, V>, d: nat, max: nat, h: nat)
    requires Fit(l, r, max, h) && GapAt(l, d, max, h) && Shape(r, max, h)
    ensures if Closes(LastSizes(l), FirstSizes(r), d, max) then Shape(Join(l, r, max, h), max, h)
      else BuriedGap(Join(l, r, max, h))
  {
    hide FirstSizes, LastSizes;
    JoinParts(l, r, max, h);
    MeetIsMeets(l, r, max);
    Sides(l);
    Sides(r);
    var a, b := l.children, r.children;
    var x, y := a[|a| - 1], b[0];
    var j := Join(l, r, max, h);
    if d == 1 {
      JoinNothing(x, y, max, h - 1);
    } else if Meet(l, r, max) {
      JoinOfGap(x, y, d - 1, max, h - 1);
      assert j.children[|a| - 1] == Join(x, y, max, h - 1);
    } else {
      GapIsTorn(x, d - 1, max, h - 1);
      assert j.children[|a| - 1] == x && Torn(x);
    }
  }

  /** Also when there is one on the right, which then stays. */
  lemma {:induction false} JoinOfGaps<K, V>(l: Tree<K, V>, r: Tree<K, V>, d: nat, e: nat, max: nat, h: nat)
    requires Fit(l, r, max, h) && GapAt(l, d, max, h) && GapAt(r, e, max, h)
    ensures if Closes(LastSizes(l), FirstSizes(r), d, max) then GapAt(Join(l, r, max, h), e, max, h)
      else BuriedGap(Join(l, r, max, h))
  {
    hide FirstSizes, LastSizes, Join, Shape;
    JoinParts(l, r, max, h);
    MeetIsMeets(l, r, max);
    Sides(l);
    Sides(r);
    var a, b := l.children, r.children;
    var x, y := a[|a| - 1], b[0];
    var j := Join(l, r, max, h);
    if d == 1 {
      JoinNothing(x, y, max, h - 1);
    } else if Meet(l, r, max) {
      if |b| == 1 {
        JoinOfGaps(x, y, d - 1, e - 1, max, h - 1);
      } else {
        JoinOfGap(x, y, d - 1, max, h - 1);
      }
      assert j.children[|a| - 1] == Join(x, y, max, h - 1);
    } else {
      GapIsTorn(x, d - 1, max, h - 1);
      assert j.children[|a| - 1] == x && Torn(x);
    }
  }

  lemma {:induction false} JoinTornRight<K, V>(l: Tree<K, V>, r: Tree<K, V>, max: nat, h: nat)
    requires Fit(l, r, max, h) && Torn(r)
    ensures Torn(Join(l, r, max, h))
  {
    JoinParts(l, r, max, h);
    var a, b := l.children, r.children;
    if Meet(l, r, max) && |b| == 1 {
      JoinTornRight(a[|a| - 1], b[0], max, h - 1);
    }
  }

  lemma {:induction false} JoinBuriedRight<K, V>(l: Tree<K, V>, r: Tree<K, V>, max: nat, h: nat)
    requires Fit(l, r, max, h) && BuriedGap(r)
    ensures BuriedGap(Join(l, r, max, h))
  {
    hide Join, Loose;
    JoinOfLeaves(l, r, max, h);
    JoinParts(l, r, max, h);
    var a, b := l.children, r.children;
    var i :| 0 <= i < |b| && (BuriedGap(b[i]) || (i < |b| - 1 && Torn(b[i])));
    var j := Join(l, r, max, h).children;
    if Meet(l, r, max) {
      if i > 0 {
        assert j[|a| - 1 + i] == b[i];
      } else {
        if BuriedGap(b[0]) {
          JoinBuriedRight(a[|a| - 1], b[0], max, h - 1);
        } else {
          JoinTornRight(a[|a| - 1], b[0], max, h - 1);
        }
        assert j[|a| - 1] == Join(a[|a| - 1], b[0], max, h - 1);
      }
    } else {
      assert j[|a| + i] == b[i];
    }
  }

  lemma {:induction false} JoinBuriedLeft<K, V>(l: Tree<K, V>, r: Tree<K, V>, max: nat, h: nat)
    requires Fit(l, r, max, h) && BuriedGap(l)
    ensures BuriedGap(Join(l, r, max, h))
  {
    JoinParts(l, r, max, h);
    var a, b := l.children, r.children;
    var i :| 0 <= i < |a| && (BuriedGap(a[i]) || (i < |a| - 1 && Torn(a[i])));
    var j := Join(l, r, max, h).children;
    if Meet(l, r, max) && i == |a| - 1 {
      JoinBuriedLeft(a[i], b[0], max, h - 1);
      assert j[i] == Join(a[i], b[0], max, h - 1);
    } else {
      assert j[i] == a[i];
    }
  }

  // ---------------------------------------------------------------- reports

  /** What becomes of a node, and what can be seen of it from its sides then. */
  datatype Report = Report(outcome: Outcome, outline: Outline)

  ghost predicate Legal(rs: seq<Report>) {
    forall r <- rs :: r.outline.Valid()
  }

  ghost predicate Is<K, V>(t: Tree<K, V>, f: Outcome, max: nat, h: nat) {
    Loose(t, max, h) &&
    match f
    case Whole => Shape(t, max, h)
    case Gone => t.Size() == 0
    case Gap(d) => GapAt(t, d, max, h)
    case Buried => BuriedGap(t)
  }

  /** The report tells what the tree is, and how it looks from its sides. */
  ghost predicate Tells<K, V>(r: Report, t: Tree<K, V>, max: nat, h: nat) {
    Is(t, r.outcome, max, h) && OutlineOf(t) == r.outline
  }

  ghost predicate AllTell<K, V>(rs: seq<Report>, ts: seq<Tree<K, V>>, max: nat, h: nat) {
    |rs| == |ts| && forall i :: 0 <= i < |rs| ==> Tells(rs[i], ts[i], max, h)
  }

  ghost function JoinedOutcome(l: Report, r: Report, max: nat): Outcome {
    if l.outcome.Gone? then r.outcome
    else if r.outcome.Gone? then l.outcome
    else if l.outcome.Buried? || r.outcome.Buried? then Buried
    else if l.outcome.Gap? && !Closes(l.outline.last, r.outline.first, l.outcome.depth, max) then Buried
    else r.outcome
  }

  ghost function JoinedReport(l: Report, r: Report, max: nat): (j: Report)
    requires l.outline.Valid() && r.outline.Valid()
    ensures j.outline.Valid()
  {
    Report(JoinedOutcome(l, r, max), JoinedOutline(l.outline, r.outline, max))
  }

  lemma JoinHasOutcome<K, V>(l: Report, r: Report, a: Tree<K, V>, b: Tree<K, V>, max: nat, h: nat)
    requires Fit(a, b, max, h) && Tells(l, a, max, h) && Tells(r, b, max, h)
    ensures Is(Join(a, b, max, h), JoinedOutcome(l, r, max), max, h)
  {
    hide FirstSizes, LastSizes, Closes, Join;
    JoinNothing(a, b, max, h);
    match (l.outcome, r.outcome)
    case (Gone, _) =>
    case (_, Gone) =>
    case (Buried, _) => JoinBuriedLeft(a, b, max, h);
    case (_, Buried) => JoinBuriedRight(a, b, max, h);
    case (Whole, Whole) => JoinShape(a, b, max, h);
    case (Whole, Gap(e)) => JoinKeepsGap(a, b, e, max, h);
    case (Gap(d), Whole) => JoinOfGap(a, b, d, max, h);
    case (Gap(d), Gap(e)) => JoinOfGaps(a, b, d, e, max, h);
  }

  lemma JoinTells<K, V>(l: Report, r: Report, a: Tree<K, V>, b: Tree<K, V>, max: nat, h: nat)
    requires Fit(a, b, max, h) && Tells(l, a, max, h) && Tells(r, b, max, h)
    ensures l.outline.Valid() && r.outline.Valid() && Tells(JoinedReport(l, r, max), Join(a, b, max, h), max, h)
  {
    hide Is, JoinedOutcome, FirstSizes, LastSizes, JoinedFirst, JoinedLast, Loose, Join;
    JoinHasOutcome(l, r, a, b, max, h);
    JoinFirst(a, b, max, h);
    JoinLast(a, b, max, h);
  }

  /** The loop that merges, followed on the reports. */
  ghost function MergeReports(rs: seq<Report>, i: int, lo: nat, max: nat): (r: seq<Report>)
    requires Legal(rs) && i < |rs|
    ensures Legal(r)
    decreases i - lo + 1
  {
    if i < lo then rs
    else if rs[i].outline.Size() <= max / 2 && i + 1 < |rs| &&
      rs[i].outline.Size() + rs[i + 1].outline.Size() <= max
    then MergeReports(Splice(rs, i, i + 2, [JoinedReport(rs[i], rs[i + 1], max)]), i - 1, lo, max)
    else MergeReports(rs, i - 1, lo, max)
  }

  lemma AllTellLegal<K, V>(rs: seq<Report>, ts: seq<Tree<K, V>>, max: nat, h: nat)
    requires AllTell(rs, ts, max, h)
    ensures Legal(rs) && AllLoose(ts, max, h)
    ensures forall i :: 0 <= i < |rs| ==> rs[i].outline.Size() == ts[i].Size()
  {
    hide OutlineOf;
    forall r | r in rs ensures r.outline.Valid() {
      var i :| 0 <= i < |rs| && rs[i] == r;
      assert Tells(rs[i], ts[i], max, h);
    }
  }

  lemma {:induction false} MergeTells<K, V>(rs: seq<Report>, ts: seq<Tree<K, V>>, i: int, lo: nat, max: nat, h: nat)
    requires AllTell(rs, ts, max, h) && i < |rs|
    ensures Legal(rs) && AllLoose(ts, max, h)
    ensures AllTell(MergeReports(rs, i, lo, max), MergeDown(ts, i, lo, max, h), max, h)
    decreases i - lo + 1
  {
    hide Tells, Join, JoinedReport, OutlineOf;
    AllTellLegal(rs, ts, max, h);
    if i >= lo {
      if ts[i].Size() <= max / 2 && i + 1 < |ts| && ts[i].Size() + ts[i + 1].Size() <= max {
        JoinTells(rs[i], rs[i + 1], ts[i], ts[i + 1], max, h);
        var merged, joined := TryMerge(ts, i, max, h), Splice(rs, i, i + 2, [JoinedReport(rs[i], rs[i + 1], max)]);
        MergeTells(joined, merged, i - 1, lo, max, h);
      } else {
        MergeTells(rs, ts, i - 1, lo, max, h);
      }
    }
  }

  /** What a node is whose children are what the reports say, if none but the last is gone, or the only one is. */
  ghost function NodeOutcome(rs: seq<Report>): Outcome {
    if |rs| == 0 || rs[0].outcome.Gone? then Gone
    else if exists i :: 0 <= i < |rs| && (rs[i].outcome.Buried? || (i < |rs| - 1 && rs[i].outcome.Gap?)) then Buried
    else
      match rs[|rs| - 1].outcome
      case Gap(d) => Gap(d + 1)
      case Gone => Gap(1)
      case _ => Whole
  }

  ghost function NodeReport(rs: seq<Report>): (r: Report)
    requires Legal(rs)
    ensures r.outline.Valid()
  {
    Report(NodeOutcome(rs), NodeOutline(OutlinesIn(rs)))
  }

  ghost function OutlinesIn(rs: seq<Report>): (os: seq<Outline>)
    requires Legal(rs)
    ensures AllValid(os)
  {
    seq(|rs|, i requires 0 <= i < |rs| => rs[i].outline)
  }

  lemma NodeHasOutcome<K, V>(rs: seq<Report>, ts: seq<Tree<K, V>>, max: nat, h: nat)
    requires AllTell(rs, ts, max, h) && |ts| <= max && OnlyLastEmpty(ts, -1)
    ensures Is(Inner(DropEmpty(ts)), NodeOutcome(rs), max, h + 1)
  {
    hide OutlineOf;
    var n := |ts|;
    assert forall i :: 0 <= i < n ==> Tells(rs[i], ts[i], max, h);
    if n > 0 && !rs[0].outcome.Gone? {
      NotGone(rs[0], ts[0], max, h);
      if i :| 0 <= i < n && (rs[i].outcome.Buried? || (i < n - 1 && rs[i].outcome.Gap?)) {
        if rs[i].outcome.Gap? {
          GapIsTorn(ts[i], rs[i].outcome.depth, max, h);
        }
        assert Inner(ts).children[i] == ts[i];
      } else {
        forall i | 0 <= i < n - 1 ensures Shape(ts[i], max, h) {
          assert Tells(rs[i], ts[i], max, h);
        }
      }
    }
  }

  lemma NotGone<K, V>(r: Report, t: Tree<K, V>, max: nat, h: nat)
    requires Tells(r, t, max, h) && !r.outcome.Gone?
    ensures t.Size() > 0
  {
  }

  lemma NodeTells<K, V>(rs: seq<Report>, ts: seq<Tree<K, V>>, max: nat, h: nat)
    requires AllTell(rs, ts, max, h) && |ts| <= max && OnlyLastEmpty(ts, -1)
    ensures Legal(rs) && Tells(NodeReport(rs), Inner(DropEmpty(ts)), max, h + 1)
  {
    hide Is, OutlineOf, NodeOutline, NodeOutcome;
    AllTellLegal(rs, ts, max, h);
    NodeHasOutcome(rs, ts, max, h);
    NodeHasOutline(ts);
    assert OutlinesIn(rs) == Outlines(ts);
  }

  // ------------------------------------------------------------------- fate

  /** What deleting a range makes of a tree. */
  ghost function Fate<K(!new), V>(
      cmp: (K, K) -> int, t: Tree<K, V>, low: K, high: K, includeHigh: bool, max: nat, h: nat): (r: Report)
    requires RootShape(t, max, h)
    ensures r.outline.Valid()
    decreases h, 1
  {
    match t
    case Leaf(es) =>
      var from, to := Place(cmp, es, low), RangeEnd(cmp, es, high, includeHigh);
      var n := if from <= to then |es| - (to - from) else |es|;
      Report(if n == 0 then Gone else Whole, Outline([n], [n]))
    case Inner(cs) => InnerFate(cmp, cs, low, high, includeHigh, max, h - 1)
  }

  ghost function InnerFate<K(!new), V>(
      cmp: (K, K) -> int, cs: seq<Tree<K, V>>, low: K, high: K, includeHigh: bool, max: nat, h: nat): (r: Report)
    requires 0 < |cs| && Shapes(cs, max, h)
    ensures r.outline.Valid()
    decreases h + 1, 0
  {
    var first, last := Rank(cmp, MaxKeys(cs, max, h), low), ChildIndex(cmp, cs, high, max, h);
    if first > last then Report(Whole, OutlineOf(Inner(cs)))
    else
      var rs := Fates(cmp, cs, first, last, low, high, includeHigh, max, h);
      NodeReport(MergeReports(rs, last, if first > 0 then first - 1 else 0, max))
  }

  /** And of children, of which those from first to last are edited. */
  ghost function Fates<K(!new), V>(
      cmp: (K, K) -> int, cs: seq<Tree<K, V>>, first: nat, last: nat, low: K, high: K, includeHigh: bool, max: nat,
      h: nat): (rs: seq<Report>)
    requires Shapes(cs, max, h)
    ensures |rs| == |cs| && Legal(rs)
    decreases h, 2
  {
    seq(|cs|, i requires 0 <= i < |cs| =>
      if first <= i <= last then Fate(cmp, cs[i], low, high, includeHigh, max, h) else Report(Whole, OutlineOf(cs[i])))
  }

  // ------------------------------------------------------------ main results

  lemma InnerHasFate<K(!new), V>(
      cmp: (K, K) -> int, cs: seq<Tree<K, V>>, low: K, high: K, includeHigh: bool, max: nat, h: nat)
    requires 0 < |cs| <= max && Shapes(cs, max, h)
    requires forall i :: 0 <= i < |cs| ==> Tells(
      Fate(cmp, cs[i], low, high, includeHigh, max, h), EditNode(cmp, cs[i], low, high, includeHigh, max, h), max, h)
    ensures Tells(
      InnerFate(cmp, cs, low, high, includeHigh, max, h), Inner(EditInner(cmp, cs, low, high, includeHigh, max, h)),
      max, h + 1)
  {
    hide MergeDown, MergeReports, DropEmpty, NodeReport, Loose, Tells, OutlineOf, Fates, EditChildren, Legal, Rank;
    var first, last := Rank(cmp, MaxKeys(cs, max, h), low), ChildIndex(cmp, cs, high, max, h);
    if first > last {
      ShapeIsWhole(Inner(cs), max, h + 1);
      NoneIsEdited(cmp, cs, first, last, low, high, includeHigh, max, h);
    } else {
      var rs := Fates(cmp, cs, first, last, low, high, includeHigh, max, h);
      var edited := EditChildren(cmp, cs, first, last, low, high, includeHigh, max, h);
      var lo := if first > 0 then first - 1 else 0;
      ChildrenTell(cmp, cs, first, last, low, high, includeHigh, max, h);
      MergeTells(rs, edited, last, lo, max, h);
      MergedIsFilled(cmp, cs, first, last, low, high, includeHigh, max, h);
      NodeTells(MergeReports(rs, last, lo, max), MergeDown(edited, last, lo, max, h), max, h);
    }
  }

  /** Fate tells what the deletion of a range makes of a tree. */
  lemma {:induction false} EditHasFate<K(!new), V>(
      cmp: (K, K) -> int, t: Tree<K, V>, low: K, high: K, includeHigh: bool, max: nat, h: nat)
    requires RootShape(t, max, h)
    ensures Tells(
      Fate(cmp, t, low, high, includeHigh, max, h), EditNode(cmp, t, low, high, includeHigh, max, h), max, h)
    decreases h
  {
    hide Tells, OutlineOf, InnerFate, EditInner;
    match t
    case Leaf(es) =>
      EditLeafHasFate(cmp, es, low, high, includeHigh, max);
    case Inner(cs) =>
      forall i | 0 <= i < |cs|
        ensures Tells(
          Fate(cmp, cs[i], low, high, includeHigh, max, h - 1),
          EditNode(cmp, cs[i], low, high, includeHigh, max, h - 1), max, h - 1)
      {
        EditHasFate(cmp, cs[i], low, high, includeHigh, max, h - 1);
      }
      InnerHasFate(cmp, cs, low, high, includeHigh, max, h - 1);
  }

  lemma NoneIsEdited<K(!new), V>(cmp: (K, K) -> int, cs: seq<Tree<K, V>>, first: nat, last: nat, low: K, high: K,
      includeHigh: bool, max: nat, h: nat)
    requires Shapes(cs, max, h) && first > last
    ensures EditChildren(cmp, cs, first, last, low, high, includeHigh, max, h) == cs
  {
  }

  lemma ChildrenTell<K(!new), V>(cmp: (K, K) -> int, cs: seq<Tree<K, V>>, first: nat, last: nat, low: K, high: K,
      includeHigh: bool, max: nat, h: nat)
    requires Shapes(cs, max, h)
    requires forall i :: 0 <= i < |cs| ==> Tells(
      Fate(cmp, cs[i], low, high, includeHigh, max, h), EditNode(cmp, cs[i], low, high, includeHigh, max, h), max, h)
    ensures AllTell(
      Fates(cmp, cs, first, last, low, high, includeHigh, max, h),
      EditChildren(cmp, cs, first, last, low, high, includeHigh, max, h), max, h)
  {
    hide Fate, EditNode, OutlineOf;
    forall i | 0 <= i < |cs| ensures Tells(Report(Whole, OutlineOf(cs[i])), cs[i], max, h) {
      ShapeIsLoose(cs[i], max, h);
    }
  }

  /** After merging no child but the last is empty. */
  lemma MergedIsFilled<K(!new), V>(cmp: (K, K) -> int, cs: seq<Tree<K, V>>, first: nat, last: nat, low: K, high: K,
      includeHigh: bool, max: nat, h: nat)
    requires Shapes(cs, max, h) && first <= last < |cs| <= max
    ensures var edited := EditChildren(cmp, cs, first, last, low, high, includeHigh, max, h);
      var merged := MergeDown(edited, last, if first > 0 then first - 1 else 0, max, h);
      OnlyLastEmpty(merged, -1) && |merged| <= max
  {
    hide EditNode, MergeDown, Loose;
    var edited := EditChildren(cmp, cs, first, last, low, high, includeHigh, max, h);
    var lo := if first > 0 then first - 1 else 0;
    forall j | 0 <= j < |cs| && (j < first || j > last) ensures edited[j].Size() > 0 {
      assert edited[j] == cs[j];
    }
    MergeDownFills(edited, last, lo, max, h);
  }

  lemma ShapeIsWhole<K, V>(t: Tree<K, V>, max: nat, h: nat)
    requires Shape(t, max, h)
    ensures Tells(Report(Whole, OutlineOf(t)), t, max, h)
  {
    ShapeIsLoose(t, max, h);
  }

  lemma EditLeafHasFate<K(!new), V>(
      cmp: (K, K) -> int, es: seq<Pair<K, V>>, low: K, high: K, includeHigh: bool, max: nat)
    requires |es| <= max
    ensures Tells(Fate(cmp, Leaf(es), low, high, includeHigh, max, 0),
      EditNode(cmp, Leaf(es), low, high, includeHigh, max, 0), max, 0)
  {
  }

  lemma {:induction false} CollapseShape<K, V>(t: Tree<K, V>, max: nat, h: nat)
    requires Shape(t, max, h)
    ensures Shape(Collapse(t), max, CollapsedHeight(t, h))
  {
    if t.Inner? && |t.children| == 1 {
      CollapseShape(t.children[0], max, h - 1);
    }
  }

  lemma {:induction false} CollapseTorn<K, V>(t: Tree<K, V>, max: nat, h: nat)
    requires Torn(t) || BuriedGap(t)
    ensures !RootShape(Collapse(t), max, h)
  {
    if |t.children| == 1 {
      CollapseTorn(t.children[0], max, h);
    } else if Torn(t) {
      TornIsNoShape(t, max, h);
    } else {
      BuriedIsNoShape(t, max, h);
    }
  }

  lemma DeleteIsCollapse<K(!new), V>(
      cmp: (K, K) -> int, t: Tree<K, V>, low: K, high: K, includeHigh: bool, max: nat, h: nat)
    requires RootShape(t, max, h)
    ensures DeleteRange(cmp, t, low, high, includeHigh, max, h)
      == Collapse(EditNode(cmp, t, low, high, includeHigh, max, h))
  {
  }

  /** Deleting a range leaves a tree of the shape that every operation relies on if and only if no node is stranded. */
  lemma DeleteKeepsShapeExactlyWhen<K(!new), V>(
      cmp: (K, K) -> int, t: Tree<K, V>, low: K, high: K, includeHigh: bool, max: nat, h: nat)
    requires RootShape(t, max, h)
    ensures (exists h': nat :: RootShape(DeleteRange(cmp, t, low, high, includeHigh, max, h), max, h'))
      <==> Fate(cmp, t, low, high, includeHigh, max, h).outcome in {Whole, Gone}
    ensures Fate(cmp, t, low, high, includeHigh, max, h).outcome in {Whole, Gone}
      ==> RootShape(DeleteRange(cmp, t, low, high, includeHigh, max, h), max,
        CollapsedHeight(EditNode(cmp, t, low, high, includeHigh, max, h), h))
  {
    hide EditNode, Fate, DeleteRange, OutlineOf;
    var e := EditNode(cmp, t, low, high, includeHigh, max, h);
    EditHasFate(cmp, t, low, high, includeHigh, max, h);
    DeleteIsCollapse(cmp, t, low, high, includeHigh, max, h);
    match Fate(cmp, t, low, high, includeHigh, max, h).outcome
    case Whole =>
      CollapseShape(e, max, h);
      assert RootShape(Collapse(e), max, CollapsedHeight(e, h));
    case Gone =>
      assert RootShape(Collapse(e), max, 0);
    case Gap(d) =>
      GapIsTorn(e, d, max, h);
      forall h': nat ensures !RootShape(Collapse(e), max, h') {
        CollapseTorn(e, max, h');
      }
    case Buried =>
      forall h': nat ensures !RootShape(Collapse(e), max, h') {
        CollapseTorn(e, max, h');
      }
  }

  // -------------------------------------------------------------- histories

  datatype Edit<K, V> = Store(key: K, val: V) | Remove(low: K, high: K, includeHigh: bool)

  /** The pairs after a history of edits on a map. */
  ghost function Meaning<K(!new), V>(cmp: (K, K) -> int, edits: seq<Edit<K, V>>): seq<Pair<K, V>> {
    if |edits| == 0 then []
    else
      var before := Meaning(cmp, edits[..|edits| - 1]);
      match edits[|edits| - 1]
      case Store(k, v) => Put(cmp, before, k, v)
      case Remove(low, high, includeHigh) => Outside(cmp, before, low, high, includeHigh)
  }

  /** One more edit changes what is found under one key, or under those in a range. */
  lemma OneMoreEdit<K(!new), V>(cmp: (K, K) -> int, edits: seq<Edit<K, V>>, e: Edit<K, V>, p: Pair<K, V>)
    requires TotalOrder(cmp) && Sorted(cmp, Meaning(cmp, edits))
    ensures p in Meaning(cmp, edits + [e]) <==>
      match e
      case Store(k, v) => p == Pair(k, v) || (p.key != k && p in Meaning(cmp, edits))
      case Remove(low, high, includeHigh) =>
        p in Meaning(cmp, edits) && !(cmp(p.key, low) >= 0 && cmp(p.key, high) < if includeHigh then 1 else 0)
  {
    hide Put;
    assert (edits + [e])[..|edits|] == edits;
    match e
    case Store(k, v) => PutMembers(cmp, Meaning(cmp, edits), k, v, p);
    case Remove(low, high, includeHigh) => OutsideMembers(cmp, Meaning(cmp, edits), low, high, includeHigh, p);
  }

  datatype State<K, V> = State(tree: Tree<K, V>, height: nat)

  /** The tree after one edit, as long as no deletion strands a node. */
  ghost function Edited<K(!new), V>(cmp: (K, K) -> int, s: State<K, V>, e: Edit<K, V>, max: nat): Option<State<K, V>>
    requires 4 <= max && RootShape(s.tree, max, s.height)
  {
    match e
    case Store(k, v) =>
      var r := SetNode(cmp, s.tree, k, v, true, max, s.height);
      Some(State(RootOf(r), if r.Split? then s.height + 1 else s.height))
    case Remove(low, high, includeHigh) =>
      if Fate(cmp, s.tree, low, high, includeHigh, max, s.height).outcome in {Whole, Gone} then
        Some(State(DeleteRange(cmp, s.tree, low, high, includeHigh, max, s.height),
          CollapsedHeight(EditNode(cmp, s.tree, low, high, includeHigh, max, s.height), s.height)))
      else None
  }

  lemma EditedKeepsShape<K(!new), V>(cmp: (K, K) -> int, s: State<K, V>, e: Edit<K, V>, max: nat)
    requires 4 <= max && RootShape(s.tree, max, s.height)
    ensures var r := Edited(cmp, s, e, max); r.Some? ==> RootShape(r.value.tree, max, r.value.height)
  {
    match e
    case Store(k, v) => SetKeepsInvariant(cmp, s.tree, k, v, true, max, s.height);
    case Remove(low, high, includeHigh) =>
      DeleteKeepsShapeExactlyWhen(cmp, s.tree, low, high, includeHigh, max, s.height);
  }

  ghost function Played<K(!new), V>(cmp: (K, K) -> int, edits: seq<Edit<K, V>>, max: nat): (s: Option<State<K, V>>)
    requires 4 <= max
    ensures s.Some? ==> RootShape(s.value.tree, max, s.value.height)
  {
    if |edits| == 0 then Some(State(Leaf([]), 0))
    else
      var before := Played(cmp, edits[..|edits| - 1], max);
      if before.None? then None
      else
        EditedKeepsShape(cmp, before.value, edits[|edits| - 1], max);
        Edited(cmp, before.value, edits[|edits| - 1], max)
  }

  lemma RemoveMeansOutside<K(!new), V>(
      cmp: (K, K) -> int, t: Tree<K, V>, low: K, high: K, includeHigh: bool, max: nat, h: nat)
    requires TotalOrder(cmp) && RootShape(t, max, h) && Sorted(cmp, Contents(t))
    ensures Contents(DeleteRange(cmp, t, low, high, includeHigh, max, h))
      == Outside(cmp, Contents(t), low, high, includeHigh)
    ensures Sorted(cmp, Outside(cmp, Contents(t), low, high, includeHigh))
  {
    EditNodeContents(cmp, t, low, high, includeHigh, max, h);
    CollapseContents(EditNode(cmp, t, low, high, includeHigh, max, h));
    OutsideSorted(cmp, Contents(t), low, high, includeHigh);
  }

  /** A history of insertions and deletions in which no deletion strands a node: the tree holds what the map holds. */
  lemma {:induction false} HistoryMeansMap<K(!new), V>(cmp: (K, K) -> int, edits: seq<Edit<K, V>>, max: nat)
    requires TotalOrder(cmp) && 4 <= max && Played(cmp, edits, max).Some?
    ensures Contents(Played(cmp, edits, max).value.tree) == Meaning(cmp, edits) && Sorted(cmp, Meaning(cmp, edits))
  {
    hide SetNode, DeleteRange, Fate, EditNode, Shape, Outside;
    if |edits| > 0 {
      var s := Played(cmp, edits[..|edits| - 1], max).value;
      HistoryMeansMap(cmp, edits[..|edits| - 1], max);
      match edits[|edits| - 1]
      case Store(k, v) =>
        SetNodeContents(cmp, s.tree, k, v, true, max, s.height);
        RootOfContents(SetNode(cmp, s.tree, k, v, true, max, s.height));
        PutSorted(cmp, Contents(s.tree), k, v);
      case Remove(low, high, includeHigh) =>
        RemoveMeansOutside(cmp, s.tree, low, high, includeHigh, max, s.height);
    }
  }

  // ---------------------------------------------------- a node left stranded

  ghost function Sizes<K, V>(cs: seq<Tree<K, V>>): nat {
    if |cs| == 0 then 0 else cs[0].Size() + Sizes(cs[1..])
  }

  /** What checkValid asks of the sizes: an inner node has two children at least, which are half full on average. */
  ghost predicate HalfFullOnAverage<K, V>(t: Tree<K, V>, max: nat) {
    t.Inner? ==>
      && |t.children| > 1 && Sizes(t.children) >= max / 2 * |t.children|
      && forall c <- t.children :: HalfFullOnAverage(c, max)
  }

  ghost predicate AllWhole(rs: seq<Report>) {
    forall r <- rs :: r.outcome.Whole? && r.outline.Valid() && r.outline.Size() > 0
  }

  lemma {:induction false} MergeKeepsWhole(rs: seq<Report>, i: int, lo: nat, max: nat)
    requires AllWhole(rs) && 0 < |rs| && i < |rs|
    ensures Legal(rs) && AllWhole(MergeReports(rs, i, lo, max)) && 0 < |MergeReports(rs, i, lo, max)|
    decreases i - lo + 1
  {
    hide JoinedFirst, JoinedLast;
    if i >= lo {
      if rs[i].outline.Size() <= max / 2 && i + 1 < |rs| && rs[i].outline.Size() + rs[i + 1].outline.Size() <= max {
        JoinedIsFilled(rs[i].outline, rs[i + 1].outline, max);
        MergeKeepsWhole(Splice(rs, i, i + 2, [JoinedReport(rs[i], rs[i + 1], max)]), i - 1, lo, max);
      } else {
        MergeKeepsWhole(rs, i - 1, lo, max);
      }
    }
  }

  lemma JoinedIsFilled(l: Outline, r: Outline, max: nat)
    requires l.Valid() && r.Valid() && l.Size() > 0 && r.Size() > 0
    ensures JoinedOutline(l, r, max).Size() > 0
  {
  }

  /** In a tree whose nodes are half full each, no deletion of one key strands a node. */
  lemma {:induction false} HalfFullStrandsNothing<K(!new), V>(cmp: (K, K) -> int, t: Tree<K, V>, k: K, max: nat, h: nat)
    requires 4 <= max && RootShape(t, max, h) && HalfFull(t, max) && t.Size() >= 2
    ensures Fate(cmp, t, k, k, true, max, h).outcome == Whole
    decreases h
  {
    hide MergeReports, Rank, Fate, Fates, EditNode, OutlineOf;
    if t.Leaf? {
      OneKeyInLeaf(cmp, t.entries, k, max);
    } else {
      var cs := t.children;
      var first, last := Rank(cmp, MaxKeys(cs, max, h - 1), k), ChildIndex(cmp, cs, k, max, h - 1);
      FateOfInner(cmp, cs, k, max, h);
      OneKeyInNode(cmp, cs, k, max, h - 1, first, last);
      if first <= last {
        var rs := Fates(cmp, cs, first, last, k, k, true, max, h - 1);
        HalfFullStrandsNothing(cmp, cs[first], k, max, h - 1);
        OthersAreWhole(cmp, cs, first, k, max, h - 1);
        MergeKeepsWhole(rs, last, if first > 0 then first - 1 else 0, max);
      }
    }
  }

  lemma OneKeyInNode<K(!new), V>(cmp: (K, K) -> int, cs: seq<Tree<K, V>>, k: K, max: nat, h: nat, first: nat, last: nat)
    requires 0 < |cs| && Shapes(cs, max, h)
    requires first == Rank(cmp, MaxKeys(cs, max, h), k) && last == ChildIndex(cmp, cs, k, max, h)
    ensures first <= last ==> first == last < |cs|
    ensures first <= last ==>
      InnerFate(cmp, cs, k, k, true, max, h).outcome == NodeOutcome(MergeReports(
        Fates(cmp, cs, first, last, k, k, true, max, h), last, if first > 0 then first - 1 else 0, max))
    ensures first > last ==> InnerFate(cmp, cs, k, k, true, max, h).outcome == Whole
  {
    hide MergeReports, Rank, EditNode, OutlineOf, NodeOutcome, Fates, Legal;
  }

  lemma FateOfInner<K(!new), V>(cmp: (K, K) -> int, cs: seq<Tree<K, V>>, k: K, max: nat, h: nat)
    requires RootShape(Inner(cs), max, h)
    ensures h > 0 && 0 < |cs| && Shapes(cs, max, h - 1)
    ensures Fate(cmp, Inner(cs), k, k, true, max, h) == InnerFate(cmp, cs, k, k, true, max, h - 1)
  {
    hide InnerFate;
  }

  lemma OthersAreWhole<K(!new), V>(cmp: (K, K) -> int, cs: seq<Tree<K, V>>, i: nat, k: K, max: nat, h: nat)
    requires Shapes(cs, max, h) && i < |cs| && Fate(cmp, cs[i], k, k, true, max, h).outcome == Whole
    ensures AllWhole(Fates(cmp, cs, i, i, k, k, true, max, h))
  {
    hide Fate, EditNode, Is;
    EditHasFate(cmp, cs[i], k, k, true, max, h);
    NotGone(Fate(cmp, cs[i], k, k, true, max, h), EditNode(cmp, cs[i], k, k, true, max, h), max, h);
    var rs := Fates(cmp, cs, i, i, k, k, true, max, h);
    forall r | r in rs ensures r.outcome.Whole? && r.outline.Valid() && r.outline.Size() > 0 {
      var j :| 0 <= j < |rs| && rs[j] == r;
    }
  }

  lemma OneKeyInLeaf<K(!new), V>(cmp: (K, K) -> int, es: seq<Pair<K, V>>, k: K, max: nat)
    requires 2 <= |es| <= max
    ensures Fate(cmp, Leaf(es), k, k, true, max, 0).outcome == Whole
  {
  }

  function ByValue(a: int, b: int): int {
    a - b
  }

  /** A tree that checkValid accepts: two leaves, which are half full on average. */
  ghost function TwoLeaves(): Tree<int, int> {
    Inner([Leaf([Pair(10, 0), Pair(20, 0), Pair(30, 0)]), Leaf([Pair(40, 0)])])
  }

  lemma TwoLeavesValid()
    ensures TotalOrder(ByValue) && Sorted(ByValue, Contents(TwoLeaves()))
    ensures Shape(TwoLeaves(), 4, 1) && HalfFullOnAverage(TwoLeaves(), 4)
  {
    var cs := TwoLeaves().children;
    FlatPair(cs[0], cs[1]);
    assert cs == [cs[0], cs[1]];
    assert Sizes(cs[1..]) == 1;
  }

  lemma LastLeafEmptied()
    ensures Shapes(TwoLeaves().children, 4, 0)
    ensures EditChildren(ByValue, TwoLeaves().children, 1, 1, 40, 40, true, 4, 0) == [TwoLeaves().children[0], Leaf([])]
  {
    var b: seq<Pair<int, int>> := [Pair(40, 0)];
    PlaceUnique(ByValue, b, 40, 0);
    assert EditLeaf(ByValue, b, 40, 40, true) == [];
  }

  lemma EmptyLeafNotMerged(a: Tree<int, int>)
    requires Shape(a, 4, 0) && a.Size() > 2
    ensures DropEmpty(MergeDown([a, Leaf([])], 1, 0, 4, 0)) == [a, Leaf([])]
  {
    var e := [a, Leaf([])];
    assert MergeDown(e, 0, 0, 4, 0) == e;
  }

  lemma EmptyLeafIsNoShape(a: Tree<int, int>, h: nat)
    ensures !RootShape(Inner([a, Leaf([])]), 4, h)
  {
    var r: Tree<int, int> := Inner([a, Leaf([])]);
    if h > 0 {
      assert !Shape(r.children[1], 4, h - 1);
    }
  }

  lemma LastLeafHoldsKey()
    ensures Shapes(TwoLeaves().children, 4, 0)
    ensures Rank(ByValue, MaxKeys(TwoLeaves().children, 4, 0), 40) == 1
    ensures ChildIndex(ByValue, TwoLeaves().children, 40, 4, 0) == 1
  {
    var ks := MaxKeys(TwoLeaves().children, 4, 0);
    assert ks == [30, 40];
    RankUnique(ByValue, ks, 40, 1);
  }

  /** Deleting 40 from it empties the last leaf, whose left neighbour is too full to be looked at: the empty leaf stays,
      and with it the tree is not well formed, at whatever height. */
  lemma DeletionStrandsLastLeaf(h: nat)
    ensures TotalOrder(ByValue) && Sorted(ByValue, Contents(TwoLeaves())) && Shape(TwoLeaves(), 4, 1)
    ensures HalfFullOnAverage(TwoLeaves(), 4)
    ensures DeleteRange(ByValue, TwoLeaves(), 40, 40, true, 4, 1) == Inner([TwoLeaves().children[0], Leaf([])])
    ensures !RootShape(DeleteRange(ByValue, TwoLeaves(), 40, 40, true, 4, 1), 4, h)
  {
    hide EditChildren, MergeDown, Contents, Rank, ChildIndex, MaxKeys, Sorted, ByValue;
    TwoLeavesValid();
    LastLeafEmptied();
    LastLeafHoldsKey();
    EmptyLeafNotMerged(TwoLeaves().children[0]);
    EmptyLeafIsNoShape(TwoLeaves().children[0], h);
  }
}
