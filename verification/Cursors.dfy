/** Cursors over an index: reading one record at a time comes to the same as reading all at once
    (section 6.7 of Indexed Database API 2.0). */
module Cursors {
  import opened Options
  import opened SortedPairs
  import opened Keys
  import opened KeyRanges
  import opened Filtering
  import opened SortedMap
  import opened IndexQueries

  /** Lexicographic order, strictly ascending. */
  ghost predicate Ordered(s: seq<Position>) {
    forall i, j :: 0 <= i < j < |s| ==> Precedes(s[i], s[j])
  }

  lemma PrecedesIrreflexive(a: Position, b: Position)
    ensures !Precedes(a, a)
    ensures Precedes(a, b) ==> !Precedes(b, a)
    ensures a != b ==> Precedes(a, b) || Precedes(b, a)
  {
    hide Compare;
    CompareOpposite(a.indexKey, a.indexKey);
    CompareOpposite(a.primaryKey, a.primaryKey);
    CompareOpposite(a.indexKey, b.indexKey);
    CompareOpposite(a.primaryKey, b.primaryKey);
  }

  lemma OrderedJoin(a: seq<Position>, b: seq<Position>)
    requires Ordered(a) && Ordered(b)
    requires forall x <- a, y <- b :: Precedes(x, y)
    ensures Ordered(a + b)
  {
  }

  /** The records of an index come in order, each once. */
  lemma {:induction false} EntriesOrdered(data: IndexData)
    requires ValidIndex(data)
    ensures Ordered(Entries(data))
  {
    if |data| > 0 {
      var first, rest := EntriesOf(data[0]), Entries(data[1..]);
      EntriesOrdered(data[1..]);
      forall x, y | x in first && y in rest ensures Precedes(x, y) {
        var i := IndexOf(first, x);
        var j := EntriesMember(data[1..], y);
        KeysAscend(data, 0, j + 1);
      }
      EntryOrdered(data[0]);
      OrderedJoin(first, rest);
    }
  }

  lemma EntryOrdered(p: Pair<Key, seq<Key>>)
    requires Ascending(Compare, p.val)
    ensures Ordered(EntriesOf(p))
  {
    hide Compare;
    CompareOpposite(p.key, p.key);
  }

  lemma {:induction false} FilterOrdered(s: seq<Position>, p: Position -> bool)
    requires Ordered(s)
    ensures Ordered(Filter(s, p))
  {
    if |s| > 0 {
      var rest := Filter(s[1..], p);
      FilterOrdered(s[1..], p);
      forall x, y | x in [s[0]] && y in rest ensures Precedes(x, y) {
        FilterMembers(s[1..], p, y);
        var j := IndexOf(s[1..], y);
        assert Precedes(s[0], s[j + 1]);
      }
      OrderedJoin([s[0]], rest);
    }
  }

  /** After the i-th record of an ordered sequence come exactly those with a greater index. */
  lemma AfterInOrder(w: seq<Position>, i: nat)
    requires Ordered(w) && i < |w|
    ensures Filter(w, (e: Position) => Precedes(w[i], e)) == w[i + 1..]
  {
    forall j | 0 <= j < |w| ensures j <= i ==> !Precedes(w[i], w[j]) {
      PrecedesIrreflexive(w[i], w[j]);
      PrecedesIrreflexive(w[j], w[i]);
    }
    FilterSplit(w, i + 1, (e: Position) => Precedes(w[i], e));
  }

  /** Resuming after the i-th record of a full read leaves exactly the records after it. */
  lemma ResumeLeavesRest(data: IndexData, range: KeyRange, i: nat)
    requires ValidIndex(data) && i < |Matches(data, range, None, None)|
    ensures Matches(data, range, Some(Matches(data, range, None, None)[i]), None)
      == Matches(data, range, None, None)[i + 1..]
  {
    hide Includes, Precedes;
    var all, w := Entries(data), Matches(data, range, None, None);
    var p, q := (e: Position) => Wanted(e, range, None, None), (e: Position) => Precedes(w[i], e);
    EntriesOrdered(data);
    FilterOrdered(all, p);
    AfterInOrder(w, i);
    FilterTwice(all, p, q, (e: Position) => Wanted(e, range, Some(w[i]), None));
  }

  /** An answer of one record is the least of the wanted records, and there is none only if none is wanted. */
  lemma FirstIsLeast(data: IndexData, range: KeyRange, last: Option<Position>, advance: Option<Key>, e: Position)
    requires ValidIndex(data) && e in Entries(data) && Wanted(e, range, last, advance)
    ensures var w := Matches(data, range, last, advance);
      |w| > 0 && w[0] in Entries(data) && Wanted(w[0], range, last, advance) && (e == w[0] || Precedes(w[0], e))
  {
    hide Includes, Precedes;
    var p := (x: Position) => Wanted(x, range, last, advance);
    var w := Matches(data, range, last, advance);
    EntriesOrdered(data);
    FilterOrdered(Entries(data), p);
    FilterMembers(Entries(data), p, e);
    var j := IndexOf(w, e);
    FilterMembers(Entries(data), p, w[0]);
  }

  /** A position of the index is an index key that is there with one of its primary keys. */
  lemma EntriesAreListed(data: IndexData, e: Position)
    ensures e in Entries(data) <==> Get(data, e.indexKey).Some? && e.primaryKey in Get(data, e.indexKey).value
  {
    hide Compare, Lookup, Entries;
    if e in Entries(data) {
      var i := EntriesMember(data, e);
      assert data[i] == Pair(e.indexKey, data[i].val);
      GetMeansMember(data, e.indexKey, data[i].val);
    }
    if Get(data, e.indexKey).Some? && e.primaryKey in Get(data, e.indexKey).value {
      GetMeansMember(data, e.indexKey, Get(data, e.indexKey).value);
      var i := IndexOf(data, Pair(e.indexKey, Get(data, e.indexKey).value));
      var j := IndexOf(data[i].val, e.primaryKey);
      EntriesAround(data, i, j);
      assert e == Ahead(data, i, j)[0];
    }
  }

  lemma MatchesAreWanted(data: IndexData, range: KeyRange, last: Option<Position>, advance: Option<Key>, e: Position)
    ensures e in Matches(data, range, last, advance) <==>
      && Get(data, e.indexKey).Some? && e.primaryKey in Get(data, e.indexKey).value
      && (range.lower.Some? ==> Compare(range.lower.value, e.indexKey) < if range.lowerOpen then 0 else 1)
      && (range.upper.Some? ==> Compare(e.indexKey, range.upper.value) < if range.upperOpen then 0 else 1)
      && (last.Some? ==> Precedes(last.value, e))
      && (advance.Some? ==> Compare(advance.value, e.indexKey) <= 0)
  {
    hide Compare, Lookup, Entries, Filter, Precedes;
    EntriesAreListed(data, e);
    FilterMembers(Entries(data), (x: Position) => Wanted(x, range, last, advance), e);
    if range.upper.Some? {
      CompareOpposite(e.indexKey, range.upper.value);
    }
    if advance.Some? {
      CompareOpposite(e.indexKey, advance.value);
    }
  }

  /** Taking the first of what is in order leaves out none that comes before one that is taken. */
  lemma TakesFirst(s: seq<Position>, limit: nat, e: Position)
    requires Ordered(s)
    ensures Ordered(Take(s, limit)) && (limit != 0 ==> |Take(s, limit)| <= limit)
    ensures e in Take(s, limit) ==> e in s
    ensures e in s ==>
      e in Take(s, limit) || (limit == |Take(s, limit)| > 0 && forall x <- Take(s, limit) :: Precedes(x, e))
  {
    hide Precedes;
    var t := Take(s, limit);
    if e in s {
      var i := IndexOf(s, e);
      if i < |t| {
        assert t[i] == e;
      } else {
        forall x | x in t ensures Precedes(x, e) {
          var j := IndexOf(t, x);
          assert s[j] == x;
        }
      }
    }
  }

  /** An answer in full. It holds positions of the index, by index key and then by primary key, that are between the
      bounds, after the last position, and at or past the key to advance to. Unless this is a first read whose open
      lower bound is itself a key of the index, and is not passed, it holds all of those, or the first of them, as many
      as the limit says. */
  lemma AnsweredExactly(
      data: IndexData, range: KeyRange, last: Option<Position>, advance: Option<Key>, limit: nat, e: Position)
    requires ValidIndex(data)
    ensures var a := Answered(data, range, last, advance, limit);
      var wanted :=
        && Get(data, e.indexKey).Some? && e.primaryKey in Get(data, e.indexKey).value
        && (range.lower.Some? ==> Compare(range.lower.value, e.indexKey) < if range.lowerOpen then 0 else 1)
        && (range.upper.Some? ==> Compare(e.indexKey, range.upper.value) < if range.upperOpen then 0 else 1)
        && (last.Some? ==> Precedes(last.value, e))
        && (advance.Some? ==> Compare(advance.value, e.indexKey) <= 0);
      && Ordered(a) && (limit != 0 ==> |a| <= limit)
      && (e in a ==> wanted)
      && (if last.None? && range.lower.Some? && range.lowerOpen && Get(data, range.lower.value).Some?
            && (advance.Some? ==> Compare(advance.value, range.lower.value) <= 0)
          then a == []
          else wanted ==> e in a || (limit == |a| > 0 && forall x <- a :: Precedes(x, e)))
  {
    hide Compare, Lookup, Entries, Filter, Precedes, Take, Matches, Wanted;
    MatchesAreWanted(data, range, last, advance, e);
    MatchesOrdered(data, range, last, advance);
    TakesFirst(Matches(data, range, last, advance), limit, e);
  }

  lemma MatchesOrdered(data: IndexData, range: KeyRange, last: Option<Position>, advance: Option<Key>)
    requires ValidIndex(data)
    ensures Ordered(Matches(data, range, last, advance))
  {
    EntriesOrdered(data);
    FilterOrdered(Entries(data), (e: Position) => Wanted(e, range, last, advance));
  }

  // ------------------------------------------------------------------ cursor

  /** The values of the records at the positions; none if a position leads to no record. */
  method ValuesAt<V>(store: Map<V>, positions: seq<Position>) returns (values: Option<seq<V>>)
    ensures values.Some? <==> AllStored(store, positions)
    ensures values.Some? ==> AreValues(store, positions, values.value)
  {
    hide Lookup;
    var found: seq<V> := [];
    for i := 0 to |positions|
      invariant AreValues(store, positions[..i], found)
    {
      var result := Get(store, positions[i].primaryKey);
      if result.None? {
        return None;
      }
      found := found + [result.value];
    }
    assert positions[..|positions|] == positions;
    return Some(found);
  }

  /** Every position leads to a record. */
  predicate AllStored<V>(store: Map<V>, positions: seq<Position>) {
    forall i :: 0 <= i < |positions| ==> Get(store, positions[i].primaryKey).Some?
  }

  predicate AreValues<V(==)>(store: Map<V>, positions: seq<Position>, values: seq<V>) {
    && |values| == |positions|
    && forall i :: 0 <= i < |positions| ==> Get(store, positions[i].primaryKey) == Some(values[i])
  }

  /** BridgeIDBCursor, over an index, direction "next"; a key cursor does not fetch the records. */
  class IndexCursor<V> {
    const range: KeyRange
    const keyOnly: bool
    var indexPosition: Option<Key>
    var objectStorePosition: Option<Key>
    var key: Option<Key>
    var primaryKey: Option<Key>
    var value: Option<V>
    var gotValue: bool

    ghost predicate Valid()
      reads this
    {
      && (indexPosition.Some? <==> objectStorePosition.Some?)
      && (indexPosition.Some? ==> Includes(range, indexPosition.value))
    }

    /** The record returned last. */
    function Last(): Option<Position>
      reads this
    {
      if indexPosition.Some? && objectStorePosition.Some?
        then Some(Position(indexPosition.value, objectStorePosition.value)) else None
    }

    constructor (range: KeyRange, keyOnly: bool)
      ensures Valid() && this.range == range && this.keyOnly == keyOnly && Last() == None && !gotValue
    {
      this.range, this.keyOnly := range, keyOnly;
      indexPosition, objectStorePosition, key, primaryKey, value, gotValue := None, None, None, None, None, false;
    }

    /** One step, against the index and the store as they are now; continueTo is the key given to continue. False
        means that getRecords failed: there is nothing to start from, or the record of the next position is missing. */
    method Iterate(data: IndexData, store: Map<V>, continueTo: Option<Key>) returns (ok: bool)
      requires Valid() && ValidIndex(data)
      modifies this
      ensures Valid()
      ensures ok <==>
        && (old(Last()).Some? || range.lower.Some? || (continueTo.None? && |data| > 0))
        && (keyOnly || AllStored(store, Answered(data, range, old(Last()), continueTo, 1)))
      ensures ok ==>
        var a := Answered(data, range, old(Last()), continueTo, 1);
        && gotValue == (|a| > 0)
        && (gotValue ==> Last() == Some(a[0]) && key == Some(a[0].indexKey) && primaryKey == Some(a[0].primaryKey))
        && (gotValue && !keyOnly ==> value.Some? && value == Get(store, a[0].primaryKey))
      ensures !gotValue || !ok ==> Last() == old(Last())
    {
      hide Compare, Includes, Precedes, Filter, Entries, StopsAtBound, ValidIndex, Lookup;
      var last := Last();
      var answer := GetByIndex(data, range, last, continueTo, 1);
      if answer.Failed? {
        return false;
      }
      var values: Option<seq<V>> := None;
      if !keyOnly {
        values := ValuesAt(store, answer.positions);
        if values.None? {
          return false;
        }
      }
      ok := true;
      if |answer.positions| == 0 {
        gotValue := false;
        return;
      }
      var e := answer.positions[0];
      FilterMembers(Entries(data), (x: Position) => Wanted(x, range, last, continueTo), e);
      key, primaryKey := Some(e.indexKey), Some(e.primaryKey);
      if !keyOnly {
        value := Some(values.value[0]);
      }
      gotValue := true;
      indexPosition, objectStorePosition := Some(e.indexKey), Some(e.primaryKey);
    }
  }

  lemma FirstAnswer(data: IndexData, range: KeyRange)
    requires ValidIndex(data)
    ensures var w := Answered(data, range, None, None, 0);
      Answered(data, range, None, None, 1) == if |w| > 0 then [w[0]] else []
  {
    hide Matches;
  }

  /** A step after the i-th record of a full read answers with the record after it, if there is one. */
  lemma StepAnswersNext(data: IndexData, range: KeyRange, i: nat)
    requires ValidIndex(data) && i < |Answered(data, range, None, None, 0)|
    ensures var w := Answered(data, range, None, None, 0);
      && Answered(data, range, Some(w[i]), None, 1) == if i + 1 < |w| then [w[i + 1]] else []
  {
    hide Matches, ValidIndex;
    ResumeLeavesRest(data, range, i);
  }

  /** Iterating a cursor to its end over an index that does not change meanwhile yields what one read without a limit
      answers, with the records, and fails where that read fails. */
  method IterateAll<V>(data: IndexData, store: Map<V>, range: KeyRange, keyOnly: bool)
      returns (ok: bool, positions: seq<Position>, values: seq<V>)
    requires ValidIndex(data)
    ensures ok <==>
      && (range.lower.Some? || |data| > 0)
      && (keyOnly || AllStored(store, Answered(data, range, None, None, 0)))
    ensures ok ==> positions == Answered(data, range, None, None, 0)
    ensures ok && !keyOnly ==> AreValues(store, positions, values)
  {
    hide Answered, ValidIndex, Lookup;
    var cursor := new IndexCursor<V>(range, keyOnly);
    positions, values := [], [];
    ghost var w := Answered(data, range, None, None, 0);
    FirstAnswer(data, range);
    ok := cursor.Iterate(data, store, None);
    while ok && cursor.gotValue
      invariant cursor.Valid() && cursor.range == range && cursor.keyOnly == keyOnly && fresh(cursor)
      invariant |positions| <= |w| && positions == w[..|positions|]
      invariant !keyOnly ==> AreValues(store, positions, values)
      invariant ok ==> (range.lower.Some? || |data| > 0) && cursor.gotValue == (|positions| < |w|)
      invariant ok && cursor.gotValue ==>
        && cursor.Last() == Some(w[|positions|])
        && cursor.key == Some(w[|positions|].indexKey) && cursor.primaryKey == Some(w[|positions|].primaryKey)
      invariant ok && cursor.gotValue && !keyOnly ==>
        cursor.value.Some? && cursor.value == Get(store, w[|positions|].primaryKey)
      invariant !ok ==> (range.lower.None? && |data| == 0) || (!keyOnly && !AllStored(store, w))
      decreases |w| - |positions|, ok
    {
      positions := positions + [Position(cursor.key.value, cursor.primaryKey.value)];
      if !keyOnly {
        values := values + [cursor.value.value];
      }
      StepAnswersNext(data, range, |positions| - 1);
      ok := cursor.Iterate(data, store, None);
    }
  }

  // ------------------------------------------- an open bound that is a key

  /** A first read from an open lower bound misses records exactly when the bound is itself a key of the index and the
      next key is in the range. */
  lemma OpenBoundLosesRecordsExactlyWhen(data: IndexData, range: KeyRange, limit: nat)
    requires ValidIndex(data) && range.lower.Some?
    ensures Answered(data, range, None, None, limit) != Take(Matches(data, range, None, None), limit) <==>
      && range.lowerOpen && Get(data, range.lower.value).Some?
      && NextHigherKey(data, range.lower.value).Some? && Includes(range, NextHigherKey(data, range.lower.value).value)
  {
    if range.lowerOpen && Get(data, range.lower.value).Some? {
      MatchesAboveOpenBound(data, range);
    }
  }

  lemma MatchesAboveOpenBound(data: IndexData, range: KeyRange)
    requires ValidIndex(data) && range.lower.Some? && range.lowerOpen && Get(data, range.lower.value).Some?
    ensures Matches(data, range, None, None) == [] <==>
      NextHigherKey(data, range.lower.value).None? || !Includes(range, NextHigherKey(data, range.lower.value).value)
  {
    hide Compare, Entries, Ahead, Filter;
    var lower := range.lower.value;
    var i := Place(Compare, data, lower);
    CompareOpposite(lower, data[i].key);
    CompareOpposite(data[i].key, lower);
    MatchesAhead(data, range, None, None, lower, i, 0);
    BoundItself(data, range, i);
    NextOf(data, i);
    if i + 1 < |data| {
      RangeIsInterval(range, data[i + 1].key, data[i + 1].key, data[i + 1].key);
      if Includes(range, data[i + 1].key) {
        StepAhead(data, range, i + 1, 0);
      } else {
        CompareOpposite(lower, data[i + 1].key);
        NoneBeyond(data, range, i + 1, 0);
      }
    }
  }

  /** The records under an open bound are not in the range. */
  lemma BoundItself(data: IndexData, range: KeyRange, i: nat)
    requires i < |data| && !Includes(range, data[i].key)
    ensures InRange(Ahead(data, i, 0), range) == if i + 1 < |data| then InRange(Ahead(data, i + 1, 0), range) else []
  {
    hide Compare, Includes, Entries, Filter;
    var own := EntriesOf(Pair(data[i].key, data[i].val[0..]));
    var p := (e: Position) => Includes(range, e.indexKey);
    forall e | e in own ensures !p(e) {
      var j := IndexOf(own, e);
    }
    FilterNone(own, p);
    FilterConcat(own, Entries(data[i + 1..]), p);
    EntriesTail(data, i + 1);
    if i + 1 == |data| {
      FilterNone([], p);
    } else {
      assert Pair(data[i + 1].key, data[i + 1].val[0..]) == data[i + 1];
    }
  }

  /** The records 10 and 20 under the keys 1 and 2. */
  function TwoRecords(): IndexData {
    [Pair(Number(1.0), [Number(10.0)]), Pair(Number(2.0), [Number(20.0)])]
  }

  lemma TwoRecordsListed()
    ensures ValidIndex(TwoRecords()) && Get(TwoRecords(), Number(1.0)).Some?
    ensures Entries(TwoRecords()) == [Position(Number(1.0), Number(10.0)), Position(Number(2.0), Number(20.0))]
  {
    var data := TwoRecords();
    PlaceUnique(Compare, data, Number(1.0), 0);
    assert data[1..] == [data[1]];
    assert EntriesOf(data[0]) == [Position(Number(1.0), Number(10.0))];
    assert EntriesOf(data[1]) == [Position(Number(2.0), Number(20.0))];
  }

  /** Reading what is above 1 yields nothing. */
  lemma OpenBoundExample()
    ensures var range := KeyRange(Some(Number(1.0)), None, true, true);
      && ValidIndex(TwoRecords())
      && Answered(TwoRecords(), range, None, None, 0) == []
      && Matches(TwoRecords(), range, None, None) == [Position(Number(2.0), Number(20.0))]
  {
    hide TwoRecords, Entries, ValidIndex, Lookup;
    TwoRecordsListed();
  }
}
