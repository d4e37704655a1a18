/** Which records deleteRecord takes out of a store: it walks the keys upwards from the lower bound and looks at the
    upper bound at each of them. */
module RangeDeletes {
  import opened Options
  import opened SortedPairs
  import opened Keys
  import opened KeyRanges
  import opened Filtering
  import opened SortedMap
  import IndexQueries
  import TreeDelete

  /** What the ways of making a range ensure: it is not obviously empty. */
  predicate ValidRange(r: KeyRange) {
    r.lower.Some? && r.upper.Some? ==> Bound(r.lower.value, r.upper.value, r.lowerOpen, r.upperOpen) == Some(r)
  }

  /** There is no key to start from, and deleteRecord throws. */
  predicate StartFails<V>(data: Map<V>, range: KeyRange) {
    if range.lower.None? then |data| == 0
    else range.lowerOpen && NextHigherKey(data, range.lower.value).None?
  }

  ghost function StartIndex<V>(data: Map<V>, range: KeyRange): (i: nat)
    ensures i <= |data|
  {
    if range.lower.None? then 0
    else if range.lowerOpen then PlaceAfter(Compare, data, range.lower.value)
    else Place(Compare, data, range.lower.value)
  }

  /** The walk ends before this key. */
  predicate Stops(range: KeyRange, k: Key) {
    && range.upper.Some?
    && (if range.upperOpen then Compare(k, range.upper.value) == 0 else Compare(k, range.upper.value) > 0)
  }

  ghost function StopIndex<V>(data: seq<Pair<Key, V>>, range: KeyRange, i: nat): (j: nat)
    requires i <= |data|
    ensures i <= j <= |data| && (j < |data| ==> Stops(range, data[j].key))
    ensures forall n :: i <= n < j ==> !Stops(range, data[n].key)
    decreases |data| - i
  {
    if i == |data| || Stops(range, data[i].key) then i else StopIndex(data, range, i + 1)
  }

  /** The records that stay. */
  ghost function Left<V>(data: Map<V>, range: KeyRange): seq<Pair<Key, V>> {
    Splice(data, StartIndex(data, range), StopIndex(data, range, StartIndex(data, range)), [])
  }

  ghost function NotIncluded<V>(data: Map<V>, range: KeyRange): seq<Pair<Key, V>> {
    Filter(data, (p: Pair<Key, V>) => !Includes(range, p.key))
  }

  lemma StartAboveLower<V>(data: Map<V>, range: KeyRange, j: nat)
    requires j < |data|
    ensures j >= StartIndex(data, range) <==> AboveLower(range, data[j].key)
  {
    hide Compare, Place;
    if range.lower.Some? {
      CompareIsTotalOrder();
      CompareOpposite(range.lower.value, data[j].key);
      TreeDelete.PlaceSplits(Compare, data, range.lower.value, j);
    }
  }

  lemma StopClosed<V>(data: Map<V>, range: KeyRange, i: nat, j: nat)
    requires i <= j < |data| && (range.upper.Some? ==> !range.upperOpen)
    ensures j < StopIndex(data, range, i) <==> BelowUpper(range, data[j].key)
  {
    hide Compare, StopIndex;
    var stop := StopIndex(data, range, i);
    if range.upper.Some? {
      CompareOpposite(range.upper.value, data[j].key);
      if stop <= j {
        CompareOpposite(range.upper.value, data[stop].key);
        CompareOpposite(data[stop].key, data[j].key);
        if stop < j {
          IndexQueries.KeysAscend(data, stop, j);
        }
        Transitive(range.upper.value, data[stop].key, data[j].key);
      }
    }
  }

  /** An open bound that is met is where the walk stops. */
  lemma StopOpenMet<V>(data: Map<V>, range: KeyRange, i: nat, j: nat, u: nat)
    requires i <= j < |data| && i <= u < |data| && range.upper == Some(data[u].key) && range.upperOpen
    ensures j < StopIndex(data, range, i) <==> BelowUpper(range, data[j].key)
  {
    hide Compare, StopIndex;
    var stop := StopIndex(data, range, i);
    CompareOpposite(data[u].key, data[u].key);
    CompareOpposite(range.upper.value, data[j].key);
    if stop < |data| {
      CompareOpposite(data[stop].key, range.upper.value);
      SameKeySameIndex(data, stop, u);
    }
    if j != u {
      IndexQueries.KeysAscend(data, if j < u then j else u, if j < u then u else j);
    }
  }

  lemma SameKeySameIndex<V>(data: Map<V>, i: nat, j: nat)
    requires i < |data| && j < |data| && data[i].key == data[j].key
    ensures i == j
  {
    hide Compare;
    if i < j {
      IndexQueries.KeysAscend(data, i, j);
    } else if j < i {
      IndexQueries.KeysAscend(data, j, i);
    }
    CompareOpposite(data[i].key, data[j].key);
  }

  /** An open bound that is not a key of the store is never met, and the walk goes on to the last record. */
  lemma StopOpenUnmet<V>(data: Map<V>, range: KeyRange, i: nat)
    requires i <= |data| && range.upper.Some? && range.upperOpen && Get(data, range.upper.value).None?
    ensures StopIndex(data, range, i) == |data|
  {
    hide Compare, StopIndex;
    var stop := StopIndex(data, range, i);
    if stop < |data| {
      CompareOpposite(data[stop].key, range.upper.value);
      assert data[stop] == Pair(data[stop].key, data[stop].val);
      GetMeansMember(data, range.upper.value, data[stop].val);
    }
  }

  /** The bound is met: it is closed or absent, or it is itself a key. */
  predicate BoundMet<V>(data: Map<V>, range: KeyRange) {
    range.upper.None? || !range.upperOpen || Get(data, range.upper.value).Some?
  }

  lemma DeletedIsIncluded<V>(data: Map<V>, range: KeyRange, j: nat)
    requires ValidRange(range) && j < |data| && BoundMet(data, range)
    ensures StartIndex(data, range) <= j < StopIndex(data, range, StartIndex(data, range)) <==>
      Includes(range, data[j].key)
  {
    hide Compare, StartIndex, StopIndex, Lookup;
    var i := StartIndex(data, range);
    StartAboveLower(data, range, j);
    if j >= i {
      if range.upper.Some? && range.upperOpen {
        var upper := range.upper.value;
        GetMeansMember(data, upper, Get(data, upper).value);
        var u := IndexQueries.IndexOf(data, Pair(upper, Get(data, upper).value));
        UpperIsAboveLower(range);
        StartAboveLower(data, range, u);
        StopOpenMet(data, range, i, j, u);
      } else {
        StopClosed(data, range, i, j);
      }
    }
  }

  lemma UpperIsAboveLower(range: KeyRange)
    requires ValidRange(range) && range.upper.Some? && range.upperOpen
    ensures AboveLower(range, range.upper.value)
  {
  }

  /** deleteRecord deletes exactly the records in the range if and only if the upper bound is closed or absent, or is a
      key of the store, or has no key of the store above it: a walk that does not meet its open bound runs on to the
      end. */
  lemma DeletesExactlyWhen<V>(data: Map<V>, range: KeyRange)
    requires ValidRange(range)
    ensures Left(data, range) == NotIncluded(data, range) <==>
      BoundMet(data, range) || NextHigherKey(data, range.upper.value).None?
  {
    hide Compare, StartIndex, StopIndex, Lookup, PlaceAfter;
    var i := StartIndex(data, range);
    var stop := StopIndex(data, range, i);
    if BoundMet(data, range) {
      forall j | 0 <= j < |data| ensures i <= j < stop <==> Includes(range, data[j].key) {
        DeletedIsIncluded(data, range, j);
      }
      LeftIsFilter(data, range, i, stop);
    } else {
      StopOpenUnmet(data, range, i);
      UnmetDeletesRest(data, range, i);
    }
  }

  lemma LeftIsFilter<V>(data: Map<V>, range: KeyRange, i: nat, stop: nat)
    requires i <= stop <= |data|
    requires forall j :: 0 <= j < |data| ==> (i <= j < stop <==> Includes(range, data[j].key))
    ensures NotIncluded(data, range) == Splice(data, i, stop, [])
  {
    hide Includes, Filter;
    var p := (p: Pair<Key, V>) => !Includes(range, p.key);
    var a, b, c := data[..i], data[i..stop], data[stop..];
    assert data == a + (b + c);
    FilterConcat(a, b + c, p);
    FilterConcat(b, c, p);
    forall x | x in a ensures p(x) { var j := IndexQueries.IndexOf(a, x); }
    forall x | x in b ensures !p(x) { var j := IndexQueries.IndexOf(b, x); assert data[i + j] == x; }
    forall x | x in c ensures p(x) { var j := IndexQueries.IndexOf(c, x); assert data[stop + j] == x; }
    FilterAll(a, p);
    FilterNone(b, p);
    FilterAll(c, p);
  }

  /** An unmet open bound: all is well exactly if there is nothing above it. */
  lemma UnmetDeletesRest<V>(data: Map<V>, range: KeyRange, i: nat)
    requires ValidRange(range) && !BoundMet(data, range) && i == StartIndex(data, range)
    ensures Splice(data, i, |data|, []) == NotIncluded(data, range) <==> NextHigherKey(data, range.upper.value).None?
  {
    hide Compare, StartIndex, Lookup, Includes, Filter, PlaceAfter;
    var upper := range.upper.value;
    if NextHigherKey(data, upper).None? {
      forall j | 0 <= j < |data| ensures i <= j < |data| <==> Includes(range, data[j].key) {
        StartAboveLower(data, range, j);
        NoneAbove(data, range, j);
      }
      LeftIsFilter(data, range, i, |data|);
    } else {
      var n := PlaceAfter(Compare, data, upper);
      OneAbove(data, range, n);
      var x := data[n];
      FilterMembers(data, (p: Pair<Key, V>) => !Includes(range, p.key), x);
      if x in Splice(data, i, |data|, []) {
        var j := IndexQueries.IndexOf(Splice(data, i, |data|, []), x);
        SameKeySameIndex(data, j, n);
        StartAboveLower(data, range, n);
      }
    }
  }

  lemma NoneAbove<V>(data: Map<V>, range: KeyRange, j: nat)
    requires j < |data| && range.upper.Some? && range.upperOpen && Get(data, range.upper.value).None?
    requires NextHigherKey(data, range.upper.value).None?
    ensures Includes(range, data[j].key) <==> AboveLower(range, data[j].key)
  {
    hide Compare, Place, AboveLower;
    CompareIsTotalOrder();
    CompareOpposite(range.upper.value, data[j].key);
    TreeDelete.PlaceSplits(Compare, data, range.upper.value, j);
  }

  lemma OneAbove<V>(data: Map<V>, range: KeyRange, n: nat)
    requires ValidRange(range) && range.upper.Some? && range.upperOpen
    requires n == PlaceAfter(Compare, data, range.upper.value) < |data|
    ensures !Includes(range, data[n].key) && AboveLower(range, data[n].key)
  {
    hide Compare, Place;
    CompareIsTotalOrder();
    UpperIsAboveLower(range);
    CompareOpposite(range.upper.value, data[n].key);
    CompareOpposite(data[n].key, data[n].key);
    TreeDelete.PlaceSplits(Compare, data, range.upper.value, n);
    RangeIsInterval(range, range.upper.value, data[n].key, data[n].key);
  }

  /** There is no key to start from exactly if there is no lower bound and the store is empty, or no key is above an
      open one. */
  lemma StartFailsExactlyWhen<V>(data: Map<V>, range: KeyRange)
    ensures StartFails(data, range) <==>
      if range.lower.None? then |data| == 0
      else range.lowerOpen && forall k :: Get(data, k).Some? ==> Compare(range.lower.value, k) >= 0
  {
    hide Compare, Lookup, PlaceAfter;
    if range.lower.Some? {
      var lower := range.lower.value;
      var next := NextHigherPair(data, lower);
      NextHigherIsLeastAbove(data, lower, next);
      if next.Some? {
        CompareOpposite(lower, next.value.key);
        assert next.value == Pair(next.value.key, next.value.val);
        GetMeansMember(data, next.value.key, next.value.val);
      } else {
        forall k | Get(data, k).Some? ensures Compare(lower, k) >= 0 {
          GetMeansMember(data, k, Get(data, k).value);
          CompareOpposite(lower, k);
        }
      }
    }
  }

  /** The walk takes in the keys that are at or above the lower bound, or above an open one, and not above the upper
      one; an open upper bound ends it only if it comes to a record with that key. */
  lemma WalkedExactly<V>(data: Map<V>, range: KeyRange, n: nat)
    requires n < |data|
    ensures StartIndex(data, range) <= n < StopIndex(data, range, StartIndex(data, range)) <==>
      && (range.lower.Some? ==> Compare(range.lower.value, data[n].key) < if range.lowerOpen then 0 else 1)
      && (range.upper.Some? && !range.upperOpen ==> Compare(data[n].key, range.upper.value) <= 0)
      && (range.upper.Some? && range.upperOpen && Get(data, range.upper.value).Some?
          && (range.lower.Some? ==> Compare(range.lower.value, range.upper.value) < if range.lowerOpen then 0 else 1)
          ==> Compare(data[n].key, range.upper.value) < 0)
  {
    hide Compare, StartIndex, StopIndex, Lookup;
    var i := StartIndex(data, range);
    StartAboveLower(data, range, n);
    if n >= i && range.upper.Some? {
      var upper := range.upper.value;
      CompareOpposite(upper, data[n].key);
      if !range.upperOpen {
        StopClosed(data, range, i, n);
      } else if Get(data, upper).None? {
        StopOpenUnmet(data, range, i);
      } else {
        GetMeansMember(data, upper, Get(data, upper).value);
        var u := IndexQueries.IndexOf(data, Pair(upper, Get(data, upper).value));
        StartAboveLower(data, range, u);
        if u >= i {
          StopOpenMet(data, range, i, n, u);
        } else {
          StopOpenPassed(data, range, i, u);
        }
      }
    }
  }

  /** An open bound that lies before the start is not met either. */
  lemma StopOpenPassed<V>(data: Map<V>, range: KeyRange, i: nat, u: nat)
    requires u < i <= |data| && range.upper == Some(data[u].key) && range.upperOpen
    ensures StopIndex(data, range, i) == |data|
  {
    hide Compare, StopIndex;
    var stop := StopIndex(data, range, i);
    if stop < |data| {
      CompareOpposite(data[stop].key, range.upper.value);
    }
  }

  /** What a deletion leaves: those keys are gone, and all others are as they were. */
  lemma LeftExactly<V>(data: Map<V>, range: KeyRange, k: Key)
    requires Sorted(Compare, Left(data, range))
    ensures Get<V>(Left(data, range), k) ==
      if && (range.lower.Some? ==> Compare(range.lower.value, k) < if range.lowerOpen then 0 else 1)
        && (range.upper.Some? && !range.upperOpen ==> Compare(k, range.upper.value) <= 0)
        && (range.upper.Some? && range.upperOpen && Get(data, range.upper.value).Some?
            && (range.lower.Some? ==> Compare(range.lower.value, range.upper.value) < if range.lowerOpen then 0 else 1)
            ==> Compare(k, range.upper.value) < 0)
      then None else Get(data, k)
  {
    hide Compare, StartIndex, StopIndex, Lookup, Left, Sorted;
    var left: Map<V> := Left(data, range);
    if Get(data, k).Some? {
      GetMeansMember(data, k, Get(data, k).value);
      var n := IndexQueries.IndexOf(data, Pair(k, Get(data, k).value));
      WalkedExactly(data, range, n);
      LeftMembers(data, range, n);
    }
    if Get(left, k).Some? {
      GetMeansMember(left, k, Get(left, k).value);
      LeftIsThere(data, range, Pair(k, Get(left, k).value));
      GetMeansMember(data, k, Get(left, k).value);
    }
    if Get(data, k).Some? {
      GetMeansMember(left, k, Get(data, k).value);
    }
  }

  lemma LeftMembers<V>(data: Map<V>, range: KeyRange, n: nat)
    requires n < |data|
    ensures data[n] in Left(data, range) <==>
      !(StartIndex(data, range) <= n < StopIndex(data, range, StartIndex(data, range)))
  {
    hide Compare, StartIndex, StopIndex;
    var i := StartIndex(data, range);
    var stop := StopIndex(data, range, i);
    var left := Left(data, range);
    if n < i {
      assert left[n] == data[n];
    } else if n >= stop {
      assert left[n - (stop - i)] == data[n];
    } else if data[n] in left {
      var j := IndexQueries.IndexOf(left, data[n]);
      SameKeySameIndex(data, n, if j < i then j else j + (stop - i));
    }
  }

  lemma LeftIsThere<V>(data: Map<V>, range: KeyRange, p: Pair<Key, V>)
    requires p in Left(data, range)
    ensures p in data
  {
  }

  /** A store with the keys 1 and 3: deleting what is below 2 deletes both. */
  lemma OpenUpperExample()
    ensures var data: seq<Pair<Key, int>> := [Pair(Number(1.0), 10), Pair(Number(3.0), 30)];
      var range := KeyRange(None, Some(Number(2.0)), true, true);
      && Sorted(Compare, data) && ValidRange(range) && Left(data, range) == []
      && NotIncluded(data, range) == [Pair(Number(3.0), 30)]
  {
    var data: seq<Pair<Key, int>> := [Pair(Number(1.0), 10), Pair(Number(3.0), 30)];
    var range := KeyRange(None, Some(Number(2.0)), true, true);
    assert Sorted(Compare, data);
    assert StopIndex(data, range, 2) == 2 && StopIndex(data, range, 1) == 2 && StopIndex(data, range, 0) == 2;
    assert data[1..] == [Pair(Number(3.0), 30)] && data[1..][1..] == [];
    var p := (p: Pair<Key, int>) => !Includes(range, p.key);
    assert Filter(data[1..][1..], p) == [] && Filter(data[1..], p) == data[1..];
  }
}
