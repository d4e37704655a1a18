/** Cursors that go by one key per step: over an object store, and over an index without repetition. Reading one
    record at a time comes to the same as reading all at once (section 6.7 of Indexed Database API 2.0). */
module KeyCursors {
  import opened Options
  import opened SortedPairs
  import opened Keys
  import opened KeyRanges
  import opened Filtering
  import opened SortedMap
  import opened IndexQueries
  import opened IndexUpkeep
  import opened Cursors
  import Q = KeyQueries

  // ------------------------------------------------------- resuming a read

  lemma FirstAnswer<V>(data: Map<V>, range: KeyRange)
    ensures var w := Q.AnsweredKeys(data, range, None, None, 0);
      Q.AnsweredKeys(data, range, None, None, 1) == if |w| > 0 then [w[0]] else []
  {
    hide Q.KeyMatches;
  }

  /** A step after the i-th record of a full read answers with the record after it, if there is one. */
  lemma StepAnswersNext<V>(data: Map<V>, range: KeyRange, i: nat)
    requires i < |Q.AnsweredKeys(data, range, None, None, 0)|
    ensures var w := Q.AnsweredKeys(data, range, None, None, 0);
      Q.AnsweredKeys(data, range, Some(w[i].key), None, 1) == if i + 1 < |w| then [w[i + 1]] else []
  {
    hide Q.KeyMatches;
    Q.ResumeLeavesRest(data, range, i);
  }

  lemma AnsweredMembers<V>(data: Map<V>, range: KeyRange, last: Option<Key>, advance: Option<Key>, limit: nat)
    ensures forall p <- Q.AnsweredKeys(data, range, last, advance, limit) :: p in data && Includes(range, p.key)
  {
    hide Includes, Compare, Filter;
    forall p | p in Q.AnsweredKeys(data, range, last, advance, limit) ensures p in data && Includes(range, p.key) {
      FilterMembers(data, (x: Pair<Key, V>) => Q.WantedKey(x.key, range, last, advance), p);
    }
  }

  lemma KeyMatchesAreWanted<V>(
      data: Map<V>, range: KeyRange, last: Option<Key>, advance: Option<Key>, k: Key, v: V)
    ensures Pair(k, v) in Q.KeyMatches(data, range, last, advance) <==>
      && Get(data, k) == Some(v)
      && (range.lower.Some? ==> Compare(range.lower.value, k) < if range.lowerOpen then 0 else 1)
      && (range.upper.Some? ==> Compare(k, range.upper.value) < if range.upperOpen then 0 else 1)
      && (last.Some? ==> Compare(last.value, k) < 0)
      && (advance.Some? ==> Compare(advance.value, k) <= 0)
  {
    hide Compare, Lookup, Filter;
    GetMeansMember(data, k, v);
    FilterMembers(data, (p: Pair<Key, V>) => Q.WantedKey(p.key, range, last, advance), Pair(k, v));
    if range.upper.Some? {
      CompareOpposite(k, range.upper.value);
    }
    if advance.Some? {
      CompareOpposite(k, advance.value);
    }
  }

  lemma KeyMatchesSorted<V>(data: Map<V>, range: KeyRange, last: Option<Key>, advance: Option<Key>)
    ensures Sorted(Compare, Q.KeyMatches(data, range, last, advance))
  {
    Q.FilterSorted(data, (p: Pair<Key, V>) => Q.WantedKey(p.key, range, last, advance));
  }

  lemma TakesFirstKeys<V>(s: seq<Pair<Key, V>>, limit: nat, p: Pair<Key, V>)
    requires Sorted(Compare, s)
    ensures Sorted(Compare, Take(s, limit)) && (limit != 0 ==> |Take(s, limit)| <= limit)
    ensures p in Take(s, limit) ==> p in s
    ensures p in s ==>
      p in Take(s, limit) || (limit == |Take(s, limit)| > 0 && forall x <- Take(s, limit) :: Compare(x.key, p.key) < 0)
  {
    hide Compare;
    var t := Take(s, limit);
    if p in s {
      var i := IndexOf(s, p);
      if i < |t| {
        assert t[i] == p;
      } else {
        forall x | x in t ensures Compare(x.key, p.key) < 0 {
          var j := IndexOf(t, x);
          assert s[j] == x;
        }
      }
    }
  }

  /** An answer in full. It holds records, or index keys with their primary keys, in ascending order, that are between
      the bounds, above the last key, and at or past the key to advance to. Unless this is a first read whose open lower
      bound is itself a key, and is not passed, it holds all of those, or the first of them, as many as the limit
      says. */
  lemma AnsweredExactly<V>(
      data: Map<V>, range: KeyRange, last: Option<Key>, advance: Option<Key>, limit: nat, k: Key, v: V)
    ensures var a := Q.AnsweredKeys(data, range, last, advance, limit);
      var wanted :=
        && Get(data, k) == Some(v)
        && (range.lower.Some? ==> Compare(range.lower.value, k) < if range.lowerOpen then 0 else 1)
        && (range.upper.Some? ==> Compare(k, range.upper.value) < if range.upperOpen then 0 else 1)
        && (last.Some? ==> Compare(last.value, k) < 0)
        && (advance.Some? ==> Compare(advance.value, k) <= 0);
      && Sorted(Compare, a) && (limit != 0 ==> |a| <= limit)
      && (Pair(k, v) in a ==> wanted)
      && (if last.None? && range.lower.Some? && range.lowerOpen && Get(data, range.lower.value).Some?
            && (advance.Some? ==> Compare(advance.value, range.lower.value) <= 0)
          then a == []
          else wanted ==> Pair(k, v) in a || (limit == |a| > 0 && forall x <- a :: Compare(x.key, k) < 0))
  {
    hide Compare, Lookup, Filter, Take, Q.KeyMatches, Q.WantedKey;
    KeyMatchesAreWanted(data, range, last, advance, k, v);
    KeyMatchesSorted(data, range, last, advance);
    TakesFirstKeys(Q.KeyMatches(data, range, last, advance), limit, Pair(k, v));
  }

  // ---------------------------------------------------- object store cursor

  /** BridgeIDBCursor, over an object store, direction "next". */
  class StoreCursor<V> {
    const range: KeyRange
    var objectStorePosition: Option<Key>
    var key: Option<Key>
    var primaryKey: Option<Key>
    var value: Option<V>
    var gotValue: bool

    ghost predicate Valid()
      reads this
    {
      objectStorePosition.Some? ==> Includes(range, objectStorePosition.value)
    }

    constructor (range: KeyRange)
      ensures Valid() && this.range == range && objectStorePosition == None && !gotValue
    {
      this.range := range;
      objectStorePosition, key, primaryKey, value, gotValue := None, None, None, None, false;
    }

    /** One step, against the store as it is now; continueTo is the key given to continue. */
    method Iterate(data: Map<V>, continueTo: Option<Key>)
      requires Valid()
      modifies this
      ensures Valid()
      ensures
        var a := Q.AnsweredKeys(data, range, old(objectStorePosition), continueTo, 1);
        && gotValue == (|a| > 0)
        && (gotValue ==> objectStorePosition == Some(a[0].key) && key == primaryKey == Some(a[0].key))
        && (gotValue ==> value.Some? && value.value == a[0].val)
      ensures !gotValue ==> objectStorePosition == old(objectStorePosition)
    {
      hide Q.AnsweredKeys, Includes;
      var records := Q.GetFromStore(data, range, objectStorePosition, continueTo, 1);
      AnsweredMembers(data, range, objectStorePosition, continueTo, 1);
      if |records| == 0 {
        gotValue := false;
        return;
      }
      key, primaryKey, value := Some(records[0].key), Some(records[0].key), Some(records[0].val);
      gotValue := true;
      objectStorePosition := Some(records[0].key);
    }
  }

  /** Iterating a cursor to its end over a store that does not change meanwhile yields what one read without a limit
      answers. */
  method IterateStore<V>(data: Map<V>, range: KeyRange) returns (records: seq<Pair<Key, V>>)
    ensures records == Q.AnsweredKeys(data, range, None, None, 0)
  {
    hide Q.AnsweredKeys;
    var cursor := new StoreCursor<V>(range);
    records := [];
    ghost var w := Q.AnsweredKeys(data, range, None, None, 0);
    FirstAnswer(data, range);
    cursor.Iterate(data, None);
    while cursor.gotValue
      invariant cursor.Valid() && cursor.range == range && fresh(cursor)
      invariant |records| <= |w| && records == w[..|records|]
      invariant cursor.gotValue == (|records| < |w|)
      invariant cursor.gotValue ==>
        && cursor.objectStorePosition == Some(w[|records|].key) == cursor.primaryKey
        && cursor.value.Some? && cursor.value.value == w[|records|].val
      decreases |w| - |records|
    {
      records := records + [Pair(cursor.primaryKey.value, cursor.value.value)];
      StepAnswersNext(data, range, |records| - 1);
      cursor.Iterate(data, None);
    }
  }

  // ----------------------------------------------------- nextunique cursor

  /** What a read without repetition answers with. */
  function AnsweredFirsts(
      data: IndexData, range: KeyRange, last: Option<Key>, advance: Option<Key>, limit: nat): (r: seq<Position>)
    requires ValidIndex(data)
    ensures forall e <- r :: Includes(range, e.indexKey)
  {
    hide Q.AnsweredKeys, Includes, ValidIndex;
    EntriesNonEmpty(data, range, last, advance, limit);
    AnsweredMembers(data, range, last, advance, limit);
    Q.Firsts(Q.AnsweredKeys(data, range, last, advance, limit))
  }

  /** Without repetition each index key that is answered with comes once, with the least of its primary keys. */
  lemma AnsweredFirstsExactly(
      data: IndexData, range: KeyRange, last: Option<Key>, advance: Option<Key>, limit: nat, i: nat)
    requires ValidIndex(data)
    ensures var a, w := AnsweredFirsts(data, range, last, advance, limit),
        Q.AnsweredKeys(data, range, last, advance, limit);
      && |a| == |w|
      && (i < |a| ==>
        && a[i].indexKey == w[i].key && a[i].primaryKey in w[i].val
        && forall k <- w[i].val :: k == a[i].primaryKey || Compare(a[i].primaryKey, k) < 0)
  {
    hide Compare, Q.AnsweredKeys;
    var w := Q.AnsweredKeys(data, range, last, advance, limit);
    EntriesNonEmpty(data, range, last, advance, limit);
    AnsweredMembers(data, range, last, advance, limit);
    if i < |w| {
      var j := IndexOf(data, w[i]);
      forall k | k in w[i].val ensures k == w[i].val[0] || Compare(w[i].val[0], k) < 0 {
        var n := IndexOf(w[i].val, k);
      }
    }
  }

  lemma EntriesNonEmpty(data: IndexData, range: KeyRange, last: Option<Key>, advance: Option<Key>, limit: nat)
    requires ValidIndex(data)
    ensures forall p <- Q.AnsweredKeys(data, range, last, advance, limit) :: |p.val| > 0
  {
    hide Q.AnsweredKeys, Includes;
    AnsweredMembers(data, range, last, advance, limit);
  }

  /** BridgeIDBCursor, over an index, direction "nextunique"; a key cursor does not fetch the records. */
  class UniqueCursor<V> {
    const range: KeyRange
    const keyOnly: bool
    var indexPosition: Option<Key>
    var objectStorePosition: Option<Key>
    var key: Option<Key>
    var primaryKey: Option<Key>
    var value: Option<V>
    var gotValue: bool

    ghost predicate Valid()
      reads this
    {
      && (indexPosition.Some? <==> objectStorePosition.Some?)
      && (indexPosition.Some? ==> Includes(range, indexPosition.value))
    }

    /** The record returned last. */
    function Last(): Option<Position>
      reads this
    {
      if indexPosition.Some? && objectStorePosition.Some?
      then Some(Position(indexPosition.value, objectStorePosition.value))
      else None
    }

    constructor (range: KeyRange, keyOnly: bool)
      ensures Valid() && this.range == range && this.keyOnly == keyOnly && Last() == None && !gotValue
    {
      this.range, this.keyOnly := range, keyOnly;
      indexPosition, objectStorePosition, key, primaryKey, value, gotValue := None, None, None, None, None, false;
    }

    /** One step, against the index and the store as they are now. False means that getRecords failed. */
    method Iterate(data: IndexData, store: Map<V>, continueTo: Option<Key>) returns (ok: bool)
      requires Valid() && ValidIndex(data)
      modifies this
      ensures Valid()
      ensures ok <==>
        && (old(Last()).Some? || range.lower.Some? || (continueTo.None? && |data| > 0))
        && (keyOnly || AllStored(store, AnsweredFirsts(data, range, Q.LastKey(old(Last())), continueTo, 1)))
      ensures ok ==>
        var a := AnsweredFirsts(data, range, Q.LastKey(old(Last())), continueTo, 1);
        && gotValue == (|a| > 0)
        && (gotValue ==> Last() == Some(a[0]) && key == Some(a[0].indexKey) && primaryKey == Some(a[0].primaryKey))
        && (gotValue && !keyOnly ==> value.Some? && value == Get(store, a[0].primaryKey))
      ensures !gotValue || !ok ==> Last() == old(Last())
    {
      hide Compare, Includes, ValidIndex, Lookup, Q.AnsweredKeys, Q.Firsts;
      var last := Last();
      var answer := Q.GetUnique(data, range, last, continueTo, 1);
      if answer.Failed? {
        return false;
      }
      assert answer.positions == AnsweredFirsts(data, range, Q.LastKey(last), continueTo, 1);
      var values: Option<seq<V>> := None;
      if !keyOnly {
        values := ValuesAt(store, answer.positions);
        if values.None? {
          return false;
        }
      }
      ok := true;
      if |answer.positions| == 0 {
        gotValue := false;
        return;
      }
      var e := answer.positions[0];
      key, primaryKey := Some(e.indexKey), Some(e.primaryKey);
      if !keyOnly {
        value := Some(values.value[0]);
      }
      gotValue := true;
      indexPosition, objectStorePosition := Some(e.indexKey), Some(e.primaryKey);
    }
  }

  lemma FirstOfFirsts(data: IndexData, range: KeyRange)
    requires ValidIndex(data)
    ensures var w := AnsweredFirsts(data, range, None, None, 0);
      AnsweredFirsts(data, range, None, None, 1) == if |w| > 0 then [w[0]] else []
  {
    hide Q.AnsweredKeys, ValidIndex;
    FirstAnswer(data, range);
  }

  lemma StepAnswersNextKey(data: IndexData, range: KeyRange, i: nat)
    requires ValidIndex(data) && i < |AnsweredFirsts(data, range, None, None, 0)|
    ensures var w := AnsweredFirsts(data, range, None, None, 0);
      && AnsweredFirsts(data, range, Some(w[i].indexKey), None, 1) == if i + 1 < |w| then [w[i + 1]] else []
  {
    hide Q.AnsweredKeys, ValidIndex;
    StepAnswersNext(data, range, i);
  }

  /** Iterating a cursor to its end yields each index key that one read without a limit answers with, once, with its
      least primary key, and fails where that read fails. */
  method IterateUnique<V>(data: IndexData, store: Map<V>, range: KeyRange, keyOnly: bool)
      returns (ok: bool, positions: seq<Position>, values: seq<V>)
    requires ValidIndex(data)
    ensures ok <==>
      && (range.lower.Some? || |data| > 0)
      && (keyOnly || AllStored(store, AnsweredFirsts(data, range, None, None, 0)))
    ensures ok ==> positions == AnsweredFirsts(data, range, None, None, 0)
    ensures ok && !keyOnly ==> AreValues(store, positions, values)
  {
    hide AnsweredFirsts, ValidIndex, Lookup;
    var cursor := new UniqueCursor<V>(range, keyOnly);
    positions, values := [], [];
    ghost var w := AnsweredFirsts(data, range, None, None, 0);
    FirstOfFirsts(data, range);
    ok := cursor.Iterate(data, store, None);
    while ok && cursor.gotValue
      invariant cursor.Valid() && cursor.range == range && cursor.keyOnly == keyOnly && fresh(cursor)
      invariant |positions| <= |w| && positions == w[..|positions|]
      invariant !keyOnly ==> AreValues(store, positions, values)
      invariant ok ==> (range.lower.Some? || |data| > 0) && cursor.gotValue == (|positions| < |w|)
      invariant ok && cursor.gotValue ==>
        && cursor.Last() == Some(w[|positions|])
        && cursor.key == Some(w[|positions|].indexKey) && cursor.primaryKey == Some(w[|positions|].primaryKey)
      invariant ok && cursor.gotValue && !keyOnly ==>
        cursor.value.Some? && cursor.value == Get(store, w[|positions|].primaryKey)
      invariant !ok ==> (range.lower.None? && |data| == 0) || (!keyOnly && !AllStored(store, w))
      decreases |w| - |positions|, ok
    {
      positions := positions + [Position(cursor.key.value, cursor.primaryKey.value)];
      if !keyOnly {
        values := values + [cursor.value.value];
      }
      StepAnswersNextKey(data, range, |positions| - 1);
      ok := cursor.Iterate(data, store, None);
    }
  }

  // ------------------------------------------------ cursors that never fail

  /** In an exact index every position that a read answers with leads to a record with that index key: no step of a
      cursor that fetches records fails for want of one. */
  lemma ExactMeansFetched<V>(data: IndexData, store: Map<V>, keyOf: KeyOf<V>, range: KeyRange)
    requires ValidIndex(data) && Exact(data, store, keyOf)
    ensures forall e <- Answered(data, range, None, None, 0) + AnsweredFirsts(data, range, None, None, 0) ::
      Get(store, e.primaryKey).Some? && keyOf(Get(store, e.primaryKey).value) == Some(e.indexKey)
    ensures AllStored(store, Answered(data, range, None, None, 0))
    ensures AllStored(store, AnsweredFirsts(data, range, None, None, 0))
  {
    hide Compare, Lookup, Filter, Entries, ValidIndex, Exact, Q.AnsweredKeys, Includes, StopsAtBound, Get;
    forall e | e in Answered(data, range, None, None, 0) + AnsweredFirsts(data, range, None, None, 0)
      ensures Get(store, e.primaryKey).Some? && keyOf(Get(store, e.primaryKey).value) == Some(e.indexKey)
    {
      if e in Answered(data, range, None, None, 0) {
        FilterMembers(Entries(data), (x: Position) => Wanted(x, range, None, None), e);
      } else {
        FirstsAreEntries(data, range, e);
      }
      ExactMeansReadable(data, store, keyOf, e);
    }
  }

  lemma FirstsAreEntries(data: IndexData, range: KeyRange, e: Position)
    requires ValidIndex(data) && e in AnsweredFirsts(data, range, None, None, 0)
    ensures e in Entries(data)
  {
    hide Compare, Lookup, Q.AnsweredKeys, Includes, Entries;
    var w := Q.AnsweredKeys(data, range, None, None, 0);
    AnsweredMembers(data, range, None, None, 0);
    var i := IndexOf(AnsweredFirsts(data, range, None, None, 0), e);
    var j := IndexOf(data, w[i]);
    EntriesAround(data, j, 1);
    assert e == EntriesOf(data[j])[..1][0];
  }

  // ------------------------------------------- an open bound that is a key

  /** A first read of a store from an open lower bound misses records exactly when the bound is itself a key and the
      next key is in the range. */
  lemma OpenBoundLosesRecordsExactlyWhen<V>(data: Map<V>, range: KeyRange, limit: nat)
    requires range.lower.Some?
    ensures Q.AnsweredKeys(data, range, None, None, limit) != Take(Q.KeyMatches(data, range, None, None), limit) <==>
      && range.lowerOpen && Get(data, range.lower.value).Some?
      && NextHigherKey(data, range.lower.value).Some?
      && Includes(range, NextHigherKey(data, range.lower.value).value)
  {
    hide Q.KeyMatches, Compare, Lookup, Includes;
    if range.lowerOpen && Get(data, range.lower.value).Some? {
      MatchesAboveOpenBound(data, range);
    }
  }

  /** And so does a first read of the keys of an index. */
  lemma OpenBoundLosesKeysExactlyWhen(data: IndexData, range: KeyRange, limit: nat)
    requires ValidIndex(data) && range.lower.Some?
    ensures
      var w := Q.KeyMatches(data, range, None, None);
      && (forall p <- Take(w, limit) :: |p.val| > 0)
      && (AnsweredFirsts(data, range, None, None, limit) != Q.Firsts(Take(w, limit)) <==>
          && range.lowerOpen && Get(data, range.lower.value).Some?
          && NextHigherKey(data, range.lower.value).Some?
          && Includes(range, NextHigherKey(data, range.lower.value).value))
  {
    hide Compare, Lookup, Includes, Filter;
    OpenBoundLosesRecordsExactlyWhen(data, range, limit);
    var w := Q.KeyMatches(data, range, None, None);
    forall p | p in Take(w, limit) ensures |p.val| > 0 {
      FilterMembers(data, (x: Pair<Key, seq<Key>>) => Q.WantedKey(x.key, range, None, None), p);
    }
  }

  lemma MatchesAboveOpenBound<V>(data: Map<V>, range: KeyRange)
    requires range.lower.Some? && range.lowerOpen && Get(data, range.lower.value).Some?
    ensures Q.KeyMatches(data, range, None, None) == [] <==>
      NextHigherKey(data, range.lower.value).None? || !Includes(range, NextHigherKey(data, range.lower.value).value)
  {
    hide Compare, Q.From, Filter;
    var lower := range.lower.value;
    var i := Place(Compare, data, lower);
    CompareOpposite(lower, lower);
    CompareOpposite(lower, data[i].key);
    Q.MatchesFromStart(data, range, None, None);
    Q.GetAt(data, i);
    BoundItself(data, range, i);
    if i + 1 < |data| {
      KeysAscend(data, i, i + 1);
      Q.FromStep(data, range, i + 1);
    } else {
      Q.FromEnd(data, range);
    }
  }

  /** The key of an open bound is not in the range. */
  lemma BoundItself<V>(data: Map<V>, range: KeyRange, i: nat)
    requires i < |data| && !Includes(range, data[i].key)
    ensures Q.From(data, range, i) == Q.From(data, range, i + 1)
  {
    hide Compare, Includes;
    assert data[i..][1..] == data[i + 1..];
  }
}
