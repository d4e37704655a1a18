/** An object store and its indexes as a transaction changes them: the data as of the last commit, shadowed by the data
    of the transaction. */
module ObjectStores {
  import opened Options
  import opened SortedPairs
  import opened Keys
  import opened KeyRanges
  import opened SortedMap
  import opened IndexQueries
  import opened IndexUpkeep
  import opened RangeDeletes
  import KeyQueries

  /** How an operation ends: normally, or with one of the exceptions. */
  datatype Outcome = Done | DataError | Inconsistent | InvariantViolated

  /** An index that is not unique and has one key per record. */
  class Index<V(!new)> {
    const keyOf: KeyOf<V>
    var originalData: IndexData
    var modifiedData: Option<IndexData>

    function Data(): IndexData
      reads this
    {
      if modifiedData.Some? then modifiedData.value else originalData
    }

    constructor (keyOf: KeyOf<V>)
      ensures this.keyOf == keyOf && originalData == [] && modifiedData == None
    {
      this.keyOf, originalData, modifiedData := keyOf, [], None;
    }

    /** insertIntoIndex. */
    method Insert(primaryKey: Key, value: V) returns (r: Outcome)
      modifies this`modifiedData
      ensures Data() == Stored(old(Data()), keyOf(value), primaryKey)
      ensures r == if keyOf(value).None? then DataError else Done
    {
      var indexData := Data();
      var indexKey := keyOf(value);
      if indexKey.None? {
        return DataError;
      }
      var existing := Get(indexData, indexKey.value);
      if existing.Some? {
        if primaryKey !in existing.value {
          modifiedData := Some(With(indexData, indexKey.value, InsertKey(existing.value, primaryKey)));
        }
      } else {
        modifiedData := Some(With(indexData, indexKey.value, [primaryKey]));
      }
      r := Done;
    }

    /** deleteFromIndex. */
    method Delete(primaryKey: Key, value: V) returns (r: Outcome)
      modifies this`modifiedData
      ensures keyOf(value).None? ==> r == DataError && Data() == old(Data())
      ensures r == Inconsistent <==> keyOf(value).Some? && Get(old(Data()), keyOf(value).value).None?
      ensures keyOf(value).Some? ==>
        match Removed(old(Data()), keyOf(value).value, primaryKey)
        case None => r == Inconsistent && Data() == old(Data())
        case Some(d) => r == Done && Data() == d
    {
      var indexData := Data();
      var indexKey := keyOf(value);
      if indexKey.None? {
        return DataError;
      }
      var existing := Get(indexData, indexKey.value);
      if existing.None? {
        return Inconsistent;
      }
      var rest := WithoutKey(existing.value, primaryKey);
      if |rest| == 0 {
        modifiedData := Some(Without(indexData, indexKey.value));
      } else {
        modifiedData := Some(With(indexData, indexKey.value, rest));
      }
      r := Done;
    }
  }

  /** Starting from an index that was such for the data before, the index has come to agree with the data as it is
      now. */
  ghost predicate Follows<V>(was: IndexData, before: Map<V>, d: IndexData, data: Map<V>, keyOf: KeyOf<V>) {
    && ValidIndex(d) && Complete(d, data, keyOf)
    && (Exact(was, before, keyOf) ==> Exact(d, data, keyOf))
  }

  lemma FollowsDelete<V>(
      was: IndexData, before: Map<V>, d: IndexData, data: Map<V>, keyOf: KeyOf<V>, primaryKey: Key, value: V)
    requires Follows(was, before, d, data, keyOf) && Get(data, primaryKey) == Some(value) && keyOf(value).Some?
    ensures var r := Removed(d, keyOf(value).value, primaryKey);
      r.Some? && Follows(was, before, r.value, Without(data, primaryKey), keyOf)
  {
    hide Compare, ValidIndex, Complete, Exact, Removed, Without;
    DeleteKeepsAgreement(d, data, keyOf, primaryKey, keyOf(value).value);
  }

  /** What deleting records, one after the other, makes of an index: none when a record has no index key, or no
      entry. */
  function RemovedAll<V>(d: IndexData, records: seq<Pair<Key, V>>, keyOf: KeyOf<V>): Option<IndexData> {
    if |records| == 0 then Some(d)
    else
      var n := |records| - 1;
      var r := RemovedAll(d, records[..n], keyOf);
      if r.None? || keyOf(records[n].val).None? then None
      else Removed(r.value, keyOf(records[n].val).value, records[n].key)
  }

  lemma RemovedNext<V>(d: IndexData, data: seq<Pair<Key, V>>, i: nat, j: nat, keyOf: KeyOf<V>)
    requires i <= j < |data|
    ensures RemovedAll(d, data[i..j + 1], keyOf) ==
      var r := RemovedAll(d, data[i..j], keyOf);
      if r.None? || keyOf(data[j].val).None? then None else Removed(r.value, keyOf(data[j].val).value, data[j].key)
  {
    hide Removed;
    assert data[i..j + 1][..j - i] == data[i..j];
  }

  /** Deleting consecutive records that all have an index key finds their entries, and the index follows. */
  lemma {:induction false} RemovedAllFollows<V>(d: IndexData, data: Map<V>, i: nat, j: nat, keyOf: KeyOf<V>)
    requires i <= j <= |data| && ValidIndex(d) && Complete(d, data, keyOf)
    requires forall n :: i <= n < j ==> keyOf(data[n].val).Some?
    ensures var r := RemovedAll(d, data[i..j], keyOf);
      r.Some? && Sorted(Compare, Splice(data, i, j, [])) && Follows(d, data, r.value, Splice(data, i, j, []), keyOf)
    decreases j
  {
    hide Compare, Sorted, Splice, ValidIndex, Complete, Exact, Removed, Without, Get, Follows, NextHigherKey;
    CutSorted(data, i, j);
    if i == j {
      NothingDeletedYet(data, i);
      FollowsItself(d, data, keyOf);
    } else {
      RemovedAllFollows(d, data, i, j - 1, keyOf);
      CutStep(data, i, j - 1);
      RemovedNext(d, data, i, j - 1, keyOf);
      FollowsDelete(d, data, RemovedAll(d, data[i..j - 1], keyOf).value, Splice(data, i, j - 1, []), keyOf,
        data[j - 1].key, data[j - 1].val);
    }
  }

  lemma FollowsItself<V>(d: IndexData, data: Map<V>, keyOf: KeyOf<V>)
    requires ValidIndex(d) && Complete(d, data, keyOf)
    ensures Follows(d, data, d, data, keyOf)
  {
  }

  /** An index that these records are put into, one after the other. */
  function FilledFrom<V>(records: seq<Pair<Key, V>>, keyOf: KeyOf<V>): IndexData {
    if |records| == 0 then []
    else
      var n := |records| - 1;
      Stored(FilledFrom(records[..n], keyOf), keyOf(records[n].val), records[n].key)
  }

  lemma FilledNext<V>(records: seq<Pair<Key, V>>, keyOf: KeyOf<V>, n: nat)
    requires n < |records|
    ensures FilledFrom(records[..n + 1], keyOf)
      == Stored(FilledFrom(records[..n], keyOf), keyOf(records[n].val), records[n].key)
  {
    hide Stored;
    assert records[..n + 1][..n] == records[..n];
  }

  lemma {:induction false} FilledExact<V>(data: Map<V>, keyOf: KeyOf<V>, n: nat)
    requires n <= |data|
    ensures ValidIndex(FilledFrom(data[..n], keyOf)) && Exact(FilledFrom(data[..n], keyOf), data[..n], keyOf)
  {
    hide Compare, Stored, Exact, ValidIndex, FilledFrom;
    if n == 0 {
      NothingFilled(keyOf);
    } else {
      FilledExact(data, keyOf, n - 1);
      FilledNext(data, keyOf, n - 1);
      AddNext(FilledFrom(data[..n - 1], keyOf), data, keyOf, n - 1);
    }
  }

  lemma NothingFilled<V>(keyOf: KeyOf<V>)
    ensures FilledFrom([], keyOf) == [] && ValidIndex([]) && Exact([], [], keyOf)
  {
  }

  /** Going through the records in order, each one is new to those before it. */
  lemma AddNext<V>(d: IndexData, data: Map<V>, keyOf: KeyOf<V>, n: nat)
    requires n < |data| && ValidIndex(d) && Exact(d, data[..n], keyOf)
    ensures ValidIndex(Stored(d, keyOf(data[n].val), data[n].key))
    ensures Exact(Stored(d, keyOf(data[n].val), data[n].key), data[..n + 1], keyOf)
  {
    hide Compare, Stored, Exact, ValidIndex;
    var k, v := data[n].key, data[n].val;
    PrefixPlace(data, n);
    StoreKeepsExactExactlyWhen(d, data[..n], keyOf, k, v);
    StoredValid(d, keyOf(v), k);
  }

  lemma PrefixPlace<V>(data: Map<V>, n: nat)
    requires n < |data|
    ensures Get<V>(data[..n], data[n].key).None? && With<V>(data[..n], data[n].key, data[n].val) == data[..n + 1]
  {
    hide Compare;
    PlaceUnique(Compare, data[..n], data[n].key, n);
  }

  lemma NothingDeletedYet<V>(data: Map<V>, i: nat)
    requires i <= |data|
    ensures Splice(data, i, i, []) == data
  {
  }

  /** With the records from i up to j gone, the next one is found, deleted, and left for the one after it. */
  lemma CutStep<V>(data: Map<V>, i: nat, j: nat)
    requires i <= j < |data|
    ensures var m: seq<Pair<Key, V>>, m': seq<Pair<Key, V>> := Splice(data, i, j, []), Splice(data, i, j + 1, []);
      && Sorted(Compare, m) && Sorted(Compare, m')
      && Get<V>(m, data[j].key) == Some(data[j].val) && Without<V>(m, data[j].key) == m'
      && NextHigherKey<V>(m', data[j].key) == if j + 1 < |data| then Some(data[j + 1].key) else None
  {
    hide Compare, Get, Without, NextHigherKey;
    var m, m' := Splice(data, i, j, []), Splice(data, i, j + 1, []);
    CutSorted(data, i, j);
    CutSorted(data, i, j + 1);
    assert m == data[..i] + data[j..] && m' == data[..i] + data[j + 1..];
    assert m[i] == data[j] && m[..i] + m[i + 1..] == m';
    KeyQueries.GetAt<V>(m, i);
    CutPlace<V>(m, i);
  }

  /** A record that is found and deleted leaves its place to the next one. */
  lemma CutPlace<V>(m: Map<V>, i: nat)
    requires i < |m|
    ensures Without(m, m[i].key) == m[..i] + m[i + 1..]
    ensures NextHigherKey(Without(m, m[i].key), m[i].key) == if i + 1 < |m| then Some(m[i + 1].key) else None
  {
    hide Compare;
    var k := m[i].key;
    CompareOpposite(k, k);
    PlaceUnique(Compare, m, k, i);
    var m' := Without(m, k);
    if i + 1 < |m| {
      CompareOpposite(m[i + 1].key, k);
    }
    PlaceUnique(Compare, m', k, i);
  }

  lemma CutSorted<V>(data: Map<V>, i: nat, j: nat)
    requires i <= j <= |data|
    ensures Sorted(Compare, Splice(data, i, j, []))
  {
    hide Compare;
    var m := Splice(data, i, j, []);
    forall x, y | 0 <= x < y < |m| ensures Compare(m[x].key, m[y].key) < 0 {
      KeysAscend(data, if x < i then x else x + (j - i), if y < i then y else y + (j - i));
    }
  }

  ghost predicate HasKeys<V>(v: V, keysOf: seq<KeyOf<V>>) {
    forall x :: 0 <= x < |keysOf| ==> keysOf[x](v).Some?
  }

  /** The first index in which the record has no key. */
  ghost function FirstLacking<V>(v: V, keysOf: seq<KeyOf<V>>): (x: nat)
    ensures x <= |keysOf| && (x < |keysOf| ==> keysOf[x](v).None?) && forall y :: 0 <= y < x ==> keysOf[y](v).Some?
  {
    if |keysOf| == 0 || keysOf[0](v).None? then 0 else 1 + FirstLacking(v, keysOf[1..])
  }

  /** The first of these records that lacks a key in an index. */
  ghost function FirstWithout<V>(data: seq<Pair<Key, V>>, keysOf: seq<KeyOf<V>>, i: nat, stop: nat): (m: nat)
    requires i <= stop <= |data|
    ensures i <= m <= stop && (m < stop ==> !HasKeys(data[m].val, keysOf)) && forall n ::
      i <= n < m ==> HasKeys(data[n].val, keysOf)
    decreases stop - i
  {
    if i == stop || !HasKeys(data[i].val, keysOf) then i else FirstWithout(data, keysOf, i + 1, stop)
  }

  /** How far a deletion gets: to the first record that lacks a key, or to its end. */
  ghost function Reached<V>(data: Map<V>, range: KeyRange, keysOf: seq<KeyOf<V>>): (m: nat)
    ensures StartIndex(data, range) <= m <= StopIndex(data, range, StartIndex(data, range))
  {
    FirstWithout(data, keysOf, StartIndex(data, range), StopIndex(data, range, StartIndex(data, range)))
  }

  /** All records to be deleted have a key in every index. */
  ghost predicate Extractable<V>(data: Map<V>, range: KeyRange, keysOf: seq<KeyOf<V>>) {
    Reached(data, range, keysOf) == StopIndex(data, range, StartIndex(data, range))
  }

  /** On the walk through the range: the records up to j are gone, all of them had their keys, and j is next. */
  ghost predicate Walk<V>(
      data: Map<V>, range: KeyRange, j: nat, m: Map<V>, currKey: Option<Key>, keysOf: seq<KeyOf<V>>) {
    var i := StartIndex(data, range);
    && i <= j <= |data| && m == Splice(data, i, j, []) && currKey == (if j < |data| then Some(data[j].key) else None)
    && j <= StopIndex(data, range, i) == StopIndex(data, range, j)
    && forall n :: i <= n < j ==> HasKeys(data[n].val, keysOf)
  }

  lemma WalkStart<V>(data: Map<V>, range: KeyRange, keysOf: seq<KeyOf<V>>)
    ensures var i := StartIndex(data, range);
      Walk(data, range, i, data, if i < |data| then Some(data[i].key) else None, keysOf)
  {
    NothingDeletedYet(data, StartIndex(data, range));
  }

  lemma WalkStep<V>(data: Map<V>, range: KeyRange, j: nat, m: Map<V>, currKey: Option<Key>, keysOf: seq<KeyOf<V>>)
    requires Walk(data, range, j, m, currKey, keysOf) && currKey.Some? && !Stops(range, currKey.value)
    ensures j < |data| && currKey.value == data[j].key && Get(m, currKey.value) == Some(data[j].val)
    ensures var m' := Without(m, currKey.value);
      if HasKeys(data[j].val, keysOf) then Walk(data, range, j + 1, m', NextHigherKey(m', currKey.value), keysOf)
      else Reached(data, range, keysOf) == j && !Extractable(data, range, keysOf)
  {
    hide Compare, StartIndex, Stops, HasKeys, Get, Without, NextHigherKey;
    CutStep(data, StartIndex(data, range), j);
    StopStep(data, range, j);
  }

  lemma WalkEnd<V>(data: Map<V>, range: KeyRange, j: nat, m: Map<V>, currKey: Option<Key>, keysOf: seq<KeyOf<V>>)
    requires Walk(data, range, j, m, currKey, keysOf) && (currKey.None? || Stops(range, currKey.value))
    ensures m == Left(data, range) && Extractable(data, range, keysOf) && Reached(data, range, keysOf) == j
  {
    hide Compare, StartIndex, Stops, HasKeys;
    StopHere(data, range, j);
  }

  lemma WalkHad<V>(data: Map<V>, range: KeyRange, j: nat, m: Map<V>, currKey: Option<Key>, keysOf: seq<KeyOf<V>>)
    requires Walk(data, range, j, m, currKey, keysOf)
    ensures forall n :: StartIndex(data, range) <= n < j ==> HasKeys(data[n].val, keysOf)
  {
    hide Compare, StartIndex, HasKeys;
  }

  lemma StopStep<V>(data: Map<V>, range: KeyRange, j: nat)
    requires j < |data| && !Stops(range, data[j].key)
    ensures StopIndex(data, range, j) == StopIndex(data, range, j + 1)
  {
  }

  lemma StopHere<V>(data: Map<V>, range: KeyRange, j: nat)
    requires j <= |data| && (j < |data| ==> Stops(range, data[j].key))
    ensures StopIndex(data, range, j) == j
  {
  }

  lemma AtStart<V>(data: Map<V>, range: KeyRange, c: Key)
    requires if range.lower.None? then MinKey(data) == Some(c)
      else if range.lowerOpen then NextHigherKey(data, range.lower.value) == Some(c)
      else c == range.lower.value
    ensures var i := StartIndex(data, range);
      if Get(data, c).Some? then i < |data| && data[i].key == c
      else NextHigherKey(data, c) == if i < |data| then Some(data[i].key) else None
  {
    hide Compare, Place;
    var i := StartIndex(data, range);
    if i < |data| && data[i].key == c {
      KeyQueries.GetAt(data, i);
    } else {
      CompareOpposite(if Place(Compare, data, c) < |data| then data[Place(Compare, data, c)].key else c, c);
    }
  }

  // ------------------------------------------------------ all of the indexes

  /** Every index is valid and lists, under its index key, every record of the data that has one. */
  ghost predicate AgreeWith<V>(ds: seq<IndexData>, keysOf: seq<KeyOf<V>>, data: Map<V>) {
    |ds| == |keysOf| && forall a :: 0 <= a < |ds| ==> ValidIndex(ds[a]) && Complete(ds[a], data, keysOf[a])
  }

  ghost predicate AllExact<V>(ds: seq<IndexData>, keysOf: seq<KeyOf<V>>, data: Map<V>) {
    |ds| == |keysOf| && forall a :: 0 <= a < |ds| ==> Exact(ds[a], data, keysOf[a])
  }

  /** Every position that an index lists leads to a record with that index key. */
  ghost predicate AllReadable<V>(ds: seq<IndexData>, keysOf: seq<KeyOf<V>>, data: Map<V>) {
    && |ds| == |keysOf|
    && forall a, e :: 0 <= a < |ds| && e in Entries(ds[a]) ==>
      Get(data, e.primaryKey).Some? && keysOf[a](Get(data, e.primaryKey).value) == Some(e.indexKey)
  }

  lemma ExactIsReadable<V>(ds: seq<IndexData>, keysOf: seq<KeyOf<V>>, data: Map<V>)
    requires AgreeWith(ds, keysOf, data) && AllExact(ds, keysOf, data)
    ensures AllReadable(ds, keysOf, data)
  {
    hide Compare, Sorted, Get, Entries, Exact, ValidIndex;
    forall a, e | 0 <= a < |ds| && e in Entries(ds[a])
      ensures Get(data, e.primaryKey).Some? && keysOf[a](Get(data, e.primaryKey).value) == Some(e.indexKey)
    {
      ExactMeansReadable(ds[a], data, keysOf[a], e);
    }
  }

  /** A record that is overwritten has the same key in every index in which it has one. */
  ghost predicate KeepsIndexKeys<V>(data: Map<V>, keysOf: seq<KeyOf<V>>, key: Key, value: V) {
    forall a :: 0 <= a < |keysOf| ==> StoredUnder(data, keysOf[a], key) in {None, keysOf[a](value)}
  }

  lemma StoreAgrees<V>(was: seq<IndexData>, ds: seq<IndexData>, keysOf: seq<KeyOf<V>>, data: Map<V>, key: Key, value: V)
    requires AgreeWith(was, keysOf, data) && |ds| == |was|
    requires forall a :: 0 <= a < |ds| ==> ds[a] == Stored(was[a], keysOf[a](value), key)
    ensures AgreeWith(ds, keysOf, With(data, key, value))
    ensures AllExact(was, keysOf, data) ==>
      (AllExact(ds, keysOf, With(data, key, value)) <==> KeepsIndexKeys(data, keysOf, key, value))
  {
    hide Compare, Sorted, With, Stored, Exact, Complete, ValidIndex, StoredUnder;
    forall a | 0 <= a < |ds|
      ensures ValidIndex(ds[a]) && Complete(ds[a], With(data, key, value), keysOf[a])
      ensures Exact(was[a], data, keysOf[a]) ==>
        (Exact(ds[a], With(data, key, value), keysOf[a]) <==>
          StoredUnder(data, keysOf[a], key) in {None, keysOf[a](value)})
    {
      StoreKeepsComplete(was[a], data, keysOf[a], key, value);
      StoredValid(was[a], keysOf[a](value), key);
      if Exact(was[a], data, keysOf[a]) {
        StoreKeepsExactExactlyWhen(was[a], data, keysOf[a], key, value);
      }
    }
  }

  lemma EmptyExact<V>(ds: seq<IndexData>, keysOf: seq<KeyOf<V>>)
    requires |ds| == |keysOf| && forall a :: 0 <= a < |ds| ==> ds[a] == []
    ensures AgreeWith(ds, keysOf, []) && AllExact(ds, keysOf, [])
  {
    hide Compare, Exact, Complete, ValidIndex;
    forall a | 0 <= a < |ds|
      ensures ValidIndex(ds[a]) && Complete(ds[a], [], keysOf[a]) && Exact(ds[a], [], keysOf[a])
    {
      NothingFilled(keysOf[a]);
      ExactIsComplete(ds[a], [], keysOf[a]);
    }
  }

  lemma OneMoreAgrees<V>(ds: seq<IndexData>, keysOf: seq<KeyOf<V>>, data: Map<V>, d: IndexData, keyOf: KeyOf<V>)
    requires AgreeWith(ds, keysOf, data) && ValidIndex(d) && Exact(d, data, keyOf)
    ensures AgreeWith(ds + [d], keysOf + [keyOf], data)
    ensures AllExact(ds, keysOf, data) ==> AllExact(ds + [d], keysOf + [keyOf], data)
  {
    hide Compare, Sorted, Exact, Complete, ValidIndex;
    ExactIsComplete(d, data, keyOf);
  }

  // --------------------------------------------------- what a deletion leaves

  /** Every index has lost the records from i up to m, and the first x indexes the record m as well. */
  ghost predicate LostUpTo<V>(
      was: seq<IndexData>, ds: seq<IndexData>, keysOf: seq<KeyOf<V>>, data: seq<Pair<Key, V>>, i: nat, m: nat, x: nat) {
    && |was| == |ds| == |keysOf| && i <= m <= |data| && (x > 0 ==> m < |data|)
    && forall a :: 0 <= a < |ds| ==> RemovedAll(was[a], data[i..if a < x then m + 1 else m], keysOf[a]) == Some(ds[a])
  }

  lemma LostStart<V>(was: seq<IndexData>, keysOf: seq<KeyOf<V>>, data: Map<V>, i: nat)
    requires i <= |data| && |was| == |keysOf|
    ensures LostUpTo(was, was, keysOf, data, i, i, 0)
  {
  }

  /** The next index, if the record has a key in it, has its entry. */
  lemma LostNext<V>(
      was: seq<IndexData>, ds: seq<IndexData>, keysOf: seq<KeyOf<V>>, data: Map<V>, i: nat, j: nat, n: nat)
    requires AgreeWith(was, keysOf, data) && LostUpTo(was, ds, keysOf, data, i, j, n) && n < |ds| && i <= j < |data|
    requires forall m :: i <= m < j ==> HasKeys(data[m].val, keysOf)
    ensures keysOf[n](data[j].val).Some? ==>
      var r := Removed(ds[n], keysOf[n](data[j].val).value, data[j].key);
      r.Some? && RemovedAll(was[n], data[i..j + 1], keysOf[n]) == r
  {
    hide Compare, Sorted, Splice, ValidIndex, Complete, RemovedAll, Removed, Follows;
    if keysOf[n](data[j].val).Some? {
      RemovedNext(was[n], data, i, j, keysOf[n]);
      RemovedAllFollows(was[n], data, i, j + 1, keysOf[n]);
    }
  }

  lemma LostAll<V>(was: seq<IndexData>, ds: seq<IndexData>, keysOf: seq<KeyOf<V>>, data: Map<V>, i: nat, j: nat)
    requires i <= j < |data| && HasKeys(data[j].val, keysOf)
    requires LostUpTo(was, ds, keysOf, data, i, j, FirstLacking(data[j].val, keysOf))
    ensures LostUpTo(was, ds, keysOf, data, i, j + 1, 0)
  {
    hide Compare, RemovedAll;
  }

  ghost function DeleteOutcome<V>(data: Map<V>, range: KeyRange, keysOf: seq<KeyOf<V>>): Outcome {
    if StartFails(data, range) then InvariantViolated else if Extractable(data, range, keysOf) then Done else DataError
  }

  /** A deletion comes upon a record that lacks a key exactly if there is one among those that it walks over. */
  lemma LackingExactlyWhen<V>(data: Map<V>, range: KeyRange, keysOf: seq<KeyOf<V>>)
    ensures !Extractable(data, range, keysOf) <==> exists k, x ::
      && Get(data, k).Some?
      && (range.lower.Some? ==> Compare(range.lower.value, k) < if range.lowerOpen then 0 else 1)
      && (range.upper.Some? && !range.upperOpen ==> Compare(k, range.upper.value) <= 0)
      && (range.upper.Some? && range.upperOpen && Get(data, range.upper.value).Some?
          && (range.lower.Some? ==> Compare(range.lower.value, range.upper.value) < if range.lowerOpen then 0 else 1)
          ==> Compare(k, range.upper.value) < 0)
      && 0 <= x < |keysOf| && keysOf[x](Get(data, k).value).None?
  {
    hide Compare, Lookup, StartIndex, StopIndex, Reached;
    if !Extractable(data, range, keysOf) {
      var m := LackedBy(data, range, keysOf);
      var x :| 0 <= x < |keysOf| && keysOf[x](data[m].val).None?;
      WalkedExactly(data, range, m);
      KeyQueries.GetAt(data, m);
      assert keysOf[x](Get(data, data[m].key).value).None?;
    } else {
      forall k | Get(data, k).Some?
        ensures HasKeys(Get(data, k).value, keysOf) || !(
          && (range.lower.Some? ==> Compare(range.lower.value, k) < if range.lowerOpen then 0 else 1)
          && (range.upper.Some? && !range.upperOpen ==> Compare(k, range.upper.value) <= 0)
          && (range.upper.Some? && range.upperOpen && Get(data, range.upper.value).Some?
            && (range.lower.Some? ==> Compare(range.lower.value, range.upper.value) < if range.lowerOpen then 0 else 1)
            ==> Compare(k, range.upper.value) < 0))
      {
        GetMeansMember(data, k, Get(data, k).value);
        var n := IndexOf(data, Pair(k, Get(data, k).value));
        WalkedExactly(data, range, n);
        if StartIndex(data, range) <= n < StopIndex(data, range, StartIndex(data, range)) {
          AllWalkedHadKeys(data, range, keysOf, n);
        }
      }
    }
  }

  lemma LackedBy<V>(data: Map<V>, range: KeyRange, keysOf: seq<KeyOf<V>>) returns (m: nat)
    requires !Extractable(data, range, keysOf)
    ensures StartIndex(data, range) <= m < StopIndex(data, range, StartIndex(data, range)) <= |data|
    ensures !HasKeys(data[m].val, keysOf)
  {
    m := Reached(data, range, keysOf);
  }

  lemma AllWalkedHadKeys<V>(data: Map<V>, range: KeyRange, keysOf: seq<KeyOf<V>>, n: nat)
    requires Extractable(data, range, keysOf)
    requires StartIndex(data, range) <= n < StopIndex(data, range, StartIndex(data, range))
    ensures n < |data| && HasKeys(data[n].val, keysOf)
  {
  }

  /** The range of one key: that record is deleted, if it is there, and has a key in every index. */
  lemma DeletesOneKey<V>(data: Map<V>, range: KeyRange, k: Key, keysOf: seq<KeyOf<V>>)
    requires range == KeyRange(Some(k), Some(k), false, false)
    ensures
      if Get(data, k).None? || forall x :: 0 <= x < |keysOf| ==> keysOf[x](Get(data, k).value).Some?
      then DeleteOutcome(data, range, keysOf) == Done else DeleteOutcome(data, range, keysOf) == DataError
    ensures Sorted(Compare, Left(data, range))
    ensures forall l :: Get<V>(Left(data, range), l) == if l == k then None else Get(data, l)
  {
    hide Compare, Sorted, Left, Extractable, Get;
    LeftSorted(data, range);
    LackingExactlyWhen(data, range, keysOf);
    forall l ensures Compare(k, l) < 1 && Compare(l, k) <= 0 <==> l == k {
      CompareOpposite(k, l);
      CompareOpposite(l, l);
    }
    forall l ensures Get<V>(Left(data, range), l) == if l == k then None else Get(data, l) {
      LeftExactly(data, range, l);
    }
  }

  lemma LeftSorted<V>(data: Map<V>, range: KeyRange)
    ensures Sorted(Compare, Left(data, range))
  {
    CutSorted(data, StartIndex(data, range), StopIndex(data, range, StartIndex(data, range)));
  }

  /** A deletion that does not come to its end leaves all records in the store. */
  ghost function AfterDelete<V>(data: Map<V>, range: KeyRange, keysOf: seq<KeyOf<V>>): seq<Pair<Key, V>> {
    if DeleteOutcome(data, range, keysOf) == Done then Left(data, range) else data
  }

  /** From the indexes it has by then taken out the records up to the one that lacks a key, and that one from the
      indexes before the first in which it lacks it. */
  ghost predicate LostInDelete<V>(
      was: seq<IndexData>, ds: seq<IndexData>, keysOf: seq<KeyOf<V>>, data: Map<V>, range: KeyRange) {
    var i, m := StartIndex(data, range), Reached(data, range, keysOf);
    LostUpTo(was, ds, keysOf, data, i, m,
      if Extractable(data, range, keysOf) then 0 else FirstLacking(data[m].val, keysOf))
  }

  ghost predicate IndexesAfterDelete<V>(
      was: seq<IndexData>, ds: seq<IndexData>, keysOf: seq<KeyOf<V>>, data: Map<V>, range: KeyRange) {
    if StartFails(data, range) then ds == was else LostInDelete(was, ds, keysOf, data, range)
  }

  lemma AllHadKeys<V>(data: Map<V>, range: KeyRange, keysOf: seq<KeyOf<V>>, m: nat, a: nat)
    requires StartIndex(data, range) <= m <= Reached(data, range, keysOf) && a < |keysOf|
    ensures forall n :: StartIndex(data, range) <= n < m ==> keysOf[a](data[n].val).Some?
  {
    hide Compare, StartIndex, StopIndex;
    forall n | StartIndex(data, range) <= n < m ensures keysOf[a](data[n].val).Some? {
      assert HasKeys(data[n].val, keysOf);
    }
  }

  /** A deletion that comes to its end leaves the indexes in agreement with the store, and exact if they were. */
  lemma DeleteAgrees<V>(was: seq<IndexData>, ds: seq<IndexData>, keysOf: seq<KeyOf<V>>, data: Map<V>, range: KeyRange)
    requires AgreeWith(was, keysOf, data) && LostInDelete(was, ds, keysOf, data, range)
    requires Extractable(data, range, keysOf)
    ensures Sorted(Compare, Left(data, range)) && AgreeWith(ds, keysOf, Left(data, range))
    ensures AllExact(was, keysOf, data) ==> AllExact(ds, keysOf, Left(data, range))
  {
    hide Compare, Sorted, Splice, StartIndex, StopIndex, ValidIndex, Complete, Exact, RemovedAll, Reached;
    var i, m := StartIndex(data, range), Reached(data, range, keysOf);
    CutSorted(data, i, m);
    forall a | 0 <= a < |ds| ensures Follows(was[a], data, ds[a], Left(data, range), keysOf[a]) {
      AllHadKeys(data, range, keysOf, m, a);
      RemovedAllFollows(was[a], data, i, m, keysOf[a]);
    }
  }

  /** How far an index has lost the records when the deletion fails. */
  ghost function LostUntil<V>(data: Map<V>, range: KeyRange, keysOf: seq<KeyOf<V>>, a: nat): (j: nat)
    requires !Extractable(data, range, keysOf)
    ensures StartIndex(data, range) <= j <= |data|
  {
    var m := Reached(data, range, keysOf);
    if a < FirstLacking(data[m].val, keysOf) then m + 1 else m
  }

  /** One that does not leaves every index in agreement with a store that has lost the records: those from the first up
      to the one that lacks a key, and in the indexes before the first in which it lacks it, that one too. */
  lemma FailedDeleteStrays<V>(
      was: seq<IndexData>, ds: seq<IndexData>, keysOf: seq<KeyOf<V>>, data: Map<V>, range: KeyRange, a: nat)
    requires AgreeWith(was, keysOf, data) && LostInDelete(was, ds, keysOf, data, range)
    requires !Extractable(data, range, keysOf) && a < |ds|
    ensures Sorted(Compare, Splice(data, StartIndex(data, range), LostUntil(data, range, keysOf, a), []))
    ensures Follows(was[a], data, ds[a], Splice(data, StartIndex(data, range), LostUntil(data, range, keysOf, a), []),
      keysOf[a])
    ensures AllExact(was, keysOf, data) ==>
      (Complete(ds[a], data, keysOf[a]) <==> StartIndex(data, range) == LostUntil(data, range, keysOf, a))
  {
    hide Compare, Sorted, Splice, StartIndex, StopIndex, ValidIndex, Complete, Exact, RemovedAll, Reached, Follows;
    var i, j := StartIndex(data, range), LostUntil(data, range, keysOf, a);
    AllHadKeys(data, range, keysOf, Reached(data, range, keysOf), a);
    CutSorted(data, i, j);
    RemovedAllFollows(was[a], data, i, j, keysOf[a]);
    if AllExact(was, keysOf, data) {
      StrayExactlyWhen(was[a], ds[a], data, i, j, keysOf[a]);
    }
  }

  /** An index that has lost records lists all records that are there only if it has lost none. */
  lemma StrayExactlyWhen<V>(was: IndexData, d: IndexData, data: Map<V>, i: nat, j: nat, keyOf: KeyOf<V>)
    requires i <= j <= |data| && Exact(was, data, keyOf) && Sorted(Compare, Splice(data, i, j, []))
    requires Follows(was, data, d, Splice(data, i, j, []), keyOf) && forall n :: i <= n < j ==> keyOf(data[n].val).Some?
    ensures Complete(d, data, keyOf) <==> i == j
  {
    hide Compare, Sorted, Splice, Get, Lists;
    var m: seq<Pair<Key, V>> := Splice(data, i, j, []);
    if i == j {
      NothingDeletedYet(data, i);
    } else {
      KeyQueries.GetAt(data, i);
      CutLacks(data, i, j);
      var k := keyOf(data[i].val).value;
      assert StoredUnder(data, keyOf, data[i].key) == Some(k);
      assert !Lists(d, k, data[i].key);
    }
  }

  lemma CutLacks<V>(data: Map<V>, i: nat, j: nat)
    requires i < j <= |data| && Sorted(Compare, Splice(data, i, j, []))
    ensures Get<V>(Splice(data, i, j, []), data[i].key).None?
  {
    hide Compare, Sorted;
    var m: Map<V> := Splice(data, i, j, []);
    var g := Get<V>(m, data[i].key);
    if g.Some? {
      GetMeansMember(m, data[i].key, g.value);
      var n := IndexOf(m, Pair(data[i].key, g.value));
      assert m[n] == data[if n < i then n else n + (j - i)];
      SameKeySameIndex(data, i, if n < i then n else n + (j - i));
      assert false;
    }
  }

  // --------------------------------------------------------- runs of operations

  datatype Operation<!V> = Put(key: Key, value: V) | Delete(range: KeyRange) | Clear | NewIndex(keyOf: KeyOf<V>)

  /** The records of a store, and how its indexes find the keys. */
  datatype Contents<!V> = Contents(data: Map<V>, keysOf: seq<KeyOf<V>>)

  ghost function OutcomeOf<V>(c: Contents<V>, op: Operation<V>): Outcome {
    if op.Delete? then DeleteOutcome(c.data, op.range, c.keysOf) else Done
  }

  ghost function After<V>(c: Contents<V>, op: Operation<V>): Contents<V> {
    match op
    case Put(key, value) => c.(data := With(c.data, key, value))
    case Delete(range) => c.(data := DeletedMap(c.data, range, c.keysOf))
    case Clear => c.(data := [])
    case NewIndex(keyOf) => c.(keysOf := c.keysOf + [keyOf])
  }

  ghost function DeletedMap<V>(data: Map<V>, range: KeyRange, keysOf: seq<KeyOf<V>>): Map<V> {
    CutSorted(data, StartIndex(data, range), StopIndex(data, range, StartIndex(data, range)));
    AfterDelete(data, range, keysOf)
  }

  /** Operations, up to the first that throws. */
  ghost function AfterAll<V>(c: Contents<V>, ops: seq<Operation<V>>): (Contents<V>, Outcome)
    decreases |ops|
  {
    if |ops| == 0 then (c, Done)
    else if OutcomeOf(c, ops[0]) != Done then (After(c, ops[0]), OutcomeOf(c, ops[0]))
    else AfterAll(After(c, ops[0]), ops[1..])
  }

  /** What an operation leaves under a key. */
  lemma AfterLeaves<V>(c: Contents<V>, op: Operation<V>, k: Key)
    ensures var d, done := After(c, op), OutcomeOf(c, op) == Done;
      match op
      case Put(key, value) =>
        done && Get(d.data, k) == (if k == key then Some(value) else Get(c.data, k)) && d.keysOf == c.keysOf
      case Delete(range) =>
        && Sorted(Compare, Left(c.data, range))
        && Get(d.data, k) == (if done then Get<V>(Left(c.data, range), k) else Get(c.data, k)) && d.keysOf == c.keysOf
      case Clear => done && Get(d.data, k) == None && d.keysOf == c.keysOf
      case NewIndex(keyOf) => done && d.data == c.data && d.keysOf == c.keysOf + [keyOf]
  {
    hide Compare, Sorted, With, Get, Left, DeleteOutcome;
    match op {
      case Put(key, value) => GetWith(c.data, key, value, k);
      case Delete(range) => LeftSorted(c.data, range);
      case Clear => GetFromEmpty<V>(k);
      case NewIndex(_) =>
    }
  }

  /** One more operation is done exactly if none before it has thrown. */
  lemma {:induction false} OneMoreOperation<V>(c: Contents<V>, ops: seq<Operation<V>>, op: Operation<V>)
    ensures var (d, r) := AfterAll(c, ops);
      AfterAll(c, ops + [op]) == if r == Done then (After(d, op), OutcomeOf(d, op)) else (d, r)
    decreases |ops|
  {
    hide After, OutcomeOf, Compare, Sorted;
    if |ops| == 0 {
      assert ops + [op] == [op] && [op][1..] == [];
    } else {
      assert (ops + [op])[1..] == ops[1..] + [op];
      OneMoreOperation(After(c, ops[0]), ops[1..], op);
    }
  }

  /** No record is overwritten by one with another index key. */
  ghost predicate KeepIndexKeys<V>(c: Contents<V>, ops: seq<Operation<V>>)
    decreases |ops|
  {
    |ops| > 0 ==>
      && (ops[0].Put? ==> KeepsIndexKeys(c.data, c.keysOf, ops[0].key, ops[0].value))
      && (OutcomeOf(c, ops[0]) == Done ==> KeepIndexKeys(After(c, ops[0]), ops[1..]))
  }

  lemma {:induction false} OneMoreKeepsIndexKeys<V>(c: Contents<V>, ops: seq<Operation<V>>, op: Operation<V>)
    ensures var (d, r) := AfterAll(c, ops);
      KeepIndexKeys(c, ops + [op]) <==>
        && KeepIndexKeys(c, ops)
        && (r == Done && op.Put? ==> KeepsIndexKeys(d.data, d.keysOf, op.key, op.value))
    decreases |ops|
  {
    hide After, OutcomeOf, KeepsIndexKeys, Compare, Sorted;
    if |ops| == 0 {
      assert ops + [op] == [op] && [op][1..] == [];
    } else {
      assert (ops + [op])[1..] == ops[1..] + [op];
      OneMoreKeepsIndexKeys(After(c, ops[0]), ops[1..], op);
    }
  }

  /** The key of the first record to be deleted, if there is one. */
  method FirstToDelete<V>(data: Map<V>, range: KeyRange) returns (ok: bool, currKey: Option<Key>)
    ensures ok <==> !StartFails(data, range)
    ensures ok ==> var i := StartIndex(data, range); currKey == if i < |data| then Some(data[i].key) else None
  {
    hide Compare, Place;
    if range.lower.None? {
      currKey := MinKey(data);
    } else {
      currKey := range.lower;
      if range.lowerOpen {
        currKey := NextHigherKey(data, currKey.value);
      }
    }
    if currKey.None? {
      return false, None;
    }
    ok := true;
    AtStart(data, range, currKey.value);
    var firstValue := Get(data, currKey.value);
    if firstValue.None? {
      currKey := NextHigherKey(data, currKey.value);
    }
  }

  class ObjectStore<V(!new)> {
    var originalData: Map<V>
    var modifiedData: Option<Map<V>>
    var indexes: seq<Index<V>>

    function Data(): Map<V>
      reads this
    {
      if modifiedData.Some? then modifiedData.value else originalData
    }

    ghost predicate Separate()
      reads this
    {
      forall i, j :: 0 <= i < j < |indexes| ==> indexes[i] != indexes[j]
    }

    ghost function Datas(): (s: seq<IndexData>)
      reads this, indexes
      ensures |s| == |indexes| && forall i :: 0 <= i < |s| ==> s[i] == indexes[i].Data()
    {
      seq(|indexes|, i requires 0 <= i < |indexes| reads this, indexes => indexes[i].Data())
    }

    ghost function KeysOf(): (s: seq<KeyOf<V>>)
      reads this
      ensures |s| == |indexes| && forall i :: 0 <= i < |s| ==> s[i] == indexes[i].keyOf
    {
      seq(|indexes|, i requires 0 <= i < |indexes| reads this => indexes[i].keyOf)
    }

    /** The indexes agree with the records. */
    ghost predicate Valid()
      reads this, indexes
    {
      Separate() && AgreeWith(Datas(), KeysOf(), Data())
    }

    /** Every index is the inverse image of the records. */
    ghost predicate Exactly()
      reads this, indexes
    {
      AllExact(Datas(), KeysOf(), Data())
    }

    constructor ()
      ensures Valid() && originalData == [] && modifiedData == None && indexes == []
    {
      originalData, modifiedData, indexes := [], None, [];
    }

    /** storeRecord, once the key and the value to store are known. */
    method StoreRecord(key: Key, value: V)
      requires Valid()
      modifies this`modifiedData, indexes
      ensures Valid() && Data() == With(old(Data()), key, value) && KeysOf() == old(KeysOf())
      ensures old(Exactly()) ==> (Exactly() <==> KeepsIndexKeys(old(Data()), KeysOf(), key, value))
      ensures forall i ::
        0 <= i < |indexes| ==> indexes[i].Data() == Stored(old(indexes[i].Data()), indexes[i].keyOf(value), key)
    {
      hide Compare, Sorted, With, Stored, AgreeWith, AllExact;
      if modifiedData.None? {
        modifiedData := Some(originalData);
      }
      ghost var before, was := Data(), Datas();
      assert was == old(Datas()) && KeysOf() == old(KeysOf());
      modifiedData := Some(With(modifiedData.value, key, value));
      InsertIntoIndexes(key, value);
      assert KeysOf() == old(KeysOf());
      StoreAgrees(was, Datas(), KeysOf(), before, key, value);
    }

    method InsertIntoIndexes(key: Key, value: V)
      requires Separate()
      modifies indexes
      ensures forall i ::
        0 <= i < |indexes| ==> indexes[i].Data() == Stored(old(indexes[i].Data()), indexes[i].keyOf(value), key)
    {
      hide Compare, Stored;
      for n := 0 to |indexes|
        invariant forall i ::
          0 <= i < n ==> indexes[i].Data() == Stored(old(indexes[i].Data()), indexes[i].keyOf(value), key)
        invariant forall i :: n <= i < |indexes| ==> indexes[i].Data() == old(indexes[i].Data())
      {
        var r := indexes[n].Insert(key, value);
      }
    }

    /** clearObjectStore. */
    method Clear()
      requires Separate()
      modifies this`modifiedData, indexes
      ensures Valid() && Data() == [] && KeysOf() == old(KeysOf()) && Exactly()
    {
      hide Compare;
      modifiedData := Some([]);
      for n := 0 to |indexes|
        invariant indexes == old(indexes) && Data() == []
        invariant forall i :: 0 <= i < n ==> indexes[i].Data() == []
      {
        indexes[n].modifiedData := Some([]);
      }
      EmptyExact(Datas(), KeysOf());
      assert KeysOf() == old(KeysOf());
    }

    /** A new index is filled from the records that are there; those without an index key are left out. */
    method CreateIndex(keyOf: KeyOf<V>) returns (index: Index<V>)
      requires Valid()
      modifies this`indexes
      ensures Valid() && Data() == old(Data()) && fresh(index) && indexes == old(indexes) + [index]
      ensures index.keyOf == keyOf
      ensures index.Data() == FilledFrom(Data(), keyOf) && Exact(index.Data(), Data(), keyOf)
      ensures KeysOf() == old(KeysOf()) + [keyOf]
      ensures old(Exactly()) ==> Exactly()
    {
      hide Compare, Stored, AgreeWith, AllExact, Exact, FilledFrom, Get, ValidIndex, Complete;
      index := new Index(keyOf);
      var data := Data();
      ghost var ds, keysOf := Datas(), KeysOf();
      NothingFilled(keyOf);
      for n := 0 to |data|
        invariant index.keyOf == keyOf && indexes == old(indexes) && Data() == data && index !in indexes
        invariant Separate() && Datas() == ds && KeysOf() == keysOf
        invariant index.Data() == FilledFrom(data[..n], keyOf)
      {
        FilledNext(data, keyOf, n);
        var r := index.Insert(data[n].key, data[n].val);
      }
      assert data[..|data|] == data;
      FilledExact(data, keyOf, |data|);
      OneMoreAgrees(ds, keysOf, data, index.Data(), keyOf);
      indexes := indexes + [index];
      assert Datas() == ds + [index.Data()] && KeysOf() == keysOf + [keyOf];
    }

    /** A record that is about to be deleted is taken out of one index after the other, up to one in which it has no
        key. */
    method DeleteFromIndexes(
        primaryKey: Key, value: V, ghost was: seq<IndexData>, ghost keysOf: seq<KeyOf<V>>, ghost data: Map<V>,
        ghost i: nat, ghost j: nat) returns (r: Outcome)
      requires Separate() && keysOf == KeysOf() && i <= j < |data| && data[j] == Pair(primaryKey, value)
      requires AgreeWith(was, keysOf, data) && LostUpTo(was, Datas(), keysOf, data, i, j, 0)
      requires forall n :: i <= n < j ==> HasKeys(data[n].val, keysOf)
      modifies indexes
      ensures keysOf == KeysOf() && (r == if HasKeys(value, keysOf) then Done else DataError)
      ensures LostUpTo(was, Datas(), keysOf, data, i, j, FirstLacking(value, keysOf))
    {
      hide Compare, Sorted, Removed, RemovedAll, FirstLacking, AgreeWith, Follows, Complete, ValidIndex, Get;
      ghost var before := Datas();
      for n := 0 to |indexes|
        invariant forall a :: 0 <= a < n ==> indexes[a].keyOf(value).Some?
        invariant forall a :: n <= a < |indexes| ==> indexes[a].Data() == before[a]
        invariant LostUpTo(was, Datas(), keysOf, data, i, j, n)
      {
        LostNext(was, Datas(), keysOf, data, i, j, n);
        r := indexes[n].Delete(primaryKey, value);
        if r != Done {
          return;
        }
      }
      r := Done;
    }

    /** deleteRecord. It throws if there is no key to start from, or if it comes upon a record that lacks a key in an
        index, and then all records stay; or else the records that it walks over are gone. An open upper bound ends the
        walk only if it is itself a key that the walk comes to. */
    method DeleteRecord(range: KeyRange) returns (r: Outcome)
      requires Valid()
      modifies this`modifiedData, indexes
      ensures r == InvariantViolated <==>
        if range.lower.None? then |old(Data())| == 0
        else range.lowerOpen && forall k :: Get(old(Data()), k).Some? ==> Compare(range.lower.value, k) >= 0
      ensures r == DataError <==> r != InvariantViolated && exists k, x ::
        && Get(old(Data()), k).Some?
        && (range.lower.Some? ==> Compare(range.lower.value, k) < if range.lowerOpen then 0 else 1)
        && (range.upper.Some? && !range.upperOpen ==> Compare(k, range.upper.value) <= 0)
        && (range.upper.Some? && range.upperOpen && Get(old(Data()), range.upper.value).Some?
            && (range.lower.Some? ==> Compare(range.lower.value, range.upper.value) < if range.lowerOpen then 0 else 1)
            ==> Compare(k, range.upper.value) < 0)
        && 0 <= x < |indexes| && old(KeysOf())[x](Get(old(Data()), k).value).None?
      ensures r in {Done, DataError, InvariantViolated} && (r != Done ==> Data() == old(Data()))
      ensures r == Done ==> forall k :: Get(Data(), k) == if
          && (range.lower.Some? ==> Compare(range.lower.value, k) < if range.lowerOpen then 0 else 1)
          && (range.upper.Some? && !range.upperOpen ==> Compare(k, range.upper.value) <= 0)
          && (range.upper.Some? && range.upperOpen && Get(old(Data()), range.upper.value).Some?
            && (range.lower.Some? ==> Compare(range.lower.value, range.upper.value) < if range.lowerOpen then 0 else 1)
            ==> Compare(k, range.upper.value) < 0)
          then None else Get(old(Data()), k)
      ensures forall k :: range == KeyRange(Some(k), Some(k), false, false) ==>
        if Get(old(Data()), k).None? ||
          forall x :: 0 <= x < |indexes| ==> old(KeysOf())[x](Get(old(Data()), k).value).Some?
        then r == Done && forall l :: Get(Data(), l) == if l == k then None else Get(old(Data()), l)
        else r == DataError
      ensures r == DeleteOutcome(old(Data()), range, old(KeysOf()))
      ensures Data() == AfterDelete(old(Data()), range, old(KeysOf()))
      ensures Separate() && KeysOf() == old(KeysOf())
      ensures IndexesAfterDelete(old(Datas()), Datas(), old(KeysOf()), old(Data()), range)
      ensures r != DataError ==> Valid() && (old(Exactly()) ==> Exactly())
    {
      hide Compare, Sorted, StartFails, Left, Extractable, IndexesAfterDelete, AgreeWith, AllExact, Lookup, Get;
      ghost var data, keysOf := Data(), KeysOf();
      StartFailsExactlyWhen(data, range);
      LackingExactlyWhen(data, range, keysOf);
      r := DeleteRange(range);
      if r == Done {
        forall k { LeftExactly(data, range, k); }
      }
      if range.lower.Some? && range == KeyRange(range.lower, range.lower, false, false) {
        DeletesOneKey(data, range, range.lower.value, keysOf);
      }
    }

    method DeleteRange(range: KeyRange) returns (r: Outcome)
      requires Valid()
      modifies this`modifiedData, indexes
      ensures r == DeleteOutcome(old(Data()), range, old(KeysOf()))
      ensures Data() == AfterDelete(old(Data()), range, old(KeysOf()))
      ensures Separate() && KeysOf() == old(KeysOf())
      ensures IndexesAfterDelete(old(Datas()), Datas(), old(KeysOf()), old(Data()), range)
      ensures r != DataError ==> Valid() && (old(Exactly()) ==> Exactly())
    {
      hide Compare, Sorted, StartFails, Left, Extractable, LostInDelete, AgreeWith, AllExact;
      ghost var keysOf := KeysOf();
      if modifiedData.None? {
        modifiedData := Some(originalData);
      }
      assert KeysOf() == keysOf && Datas() == old(Datas());
      ghost var data, was := Data(), Datas();
      var ok, currKey := FirstToDelete(modifiedData.value, range);
      if !ok {
        return InvariantViolated;
      }
      var m;
      r, m := DeleteFrom(modifiedData.value, currKey, range, was, keysOf);
      if r == Done {
        ghost var ds := Datas();
        DeleteAgrees(was, ds, keysOf, data, range);
        modifiedData := Some(m);
        assert Datas() == ds && KeysOf() == keysOf;
      }
    }

    /** The loop of deleteRecord, which works on trees of its own. */
    method DeleteFrom(
        data: Map<V>, start: Option<Key>, range: KeyRange, ghost was: seq<IndexData>, ghost keysOf: seq<KeyOf<V>>)
      returns (r: Outcome, m: Map<V>)
      requires Separate() && AgreeWith(was, keysOf, data) && keysOf == KeysOf() && was == Datas()
      requires start == var i := StartIndex(data, range); if i < |data| then Some(data[i].key) else None
      modifies indexes
      ensures r == (if Extractable(data, range, keysOf) then Done else DataError) && keysOf == KeysOf()
      ensures r == Done ==> m == Left(data, range)
      ensures LostInDelete(was, Datas(), keysOf, data, range)
    {
      hide Compare, Sorted, StartIndex, Stops, HasKeys, Get, Without, NextHigherKey, LostUpTo, Walk, Left, Extractable,
        Reached, AgreeWith;
      m := data;
      var currKey := start;
      ghost var i := StartIndex(data, range);
      ghost var j := i;
      WalkStart(data, range, keysOf);
      LostStart(was, keysOf, data, i);
      while currKey.Some? && !Stops(range, currKey.value)
        invariant i <= j <= |data| && Walk(data, range, j, m, currKey, keysOf) && keysOf == KeysOf()
        invariant LostUpTo(was, Datas(), keysOf, data, i, j, 0)
        decreases |data| - j
      {
        WalkStep(data, range, j, m, currKey, keysOf);
        WalkHad(data, range, j, m, currKey, keysOf);
        var entry := Get(m, currKey.value);
        r := DeleteFromIndexes(currKey.value, entry.value, was, keysOf, data, i, j);
        if r != Done {
          return;
        }
        LostAll(was, Datas(), keysOf, data, i, j);
        m := Without(m, currKey.value);
        currKey := NextHigherKey(m, currKey.value);
        j := j + 1;
      }
      WalkEnd(data, range, j, m, currKey, keysOf);
      r := Done;
    }

    ghost function Now(): Contents<V>
      reads this
    {
      Contents(Data(), KeysOf())
    }

    method Do(op: Operation<V>) returns (r: Outcome)
      requires Valid()
      modifies this`modifiedData, this`indexes, indexes
      ensures r == OutcomeOf(old(Now()), op) && Now() == After(old(Now()), op) && Separate()
      ensures r != DataError ==> Valid()
      ensures forall x <- indexes :: x in old(indexes) || fresh(x)
      ensures
        && old(Exactly()) && r != DataError
        && (op.Put? ==> KeepsIndexKeys(old(Data()), old(KeysOf()), op.key, op.value))
        ==> Exactly()
    {
      hide Compare, Sorted, With, AgreeWith, AllExact, KeepsIndexKeys, DeleteOutcome, AfterDelete, IndexesAfterDelete;
      match op {
        case Put(key, value) =>
          StoreRecord(key, value);
          r := Done;
        case Delete(range) =>
          r := DeleteRecord(range);
        case Clear =>
          Clear();
          r := Done;
        case NewIndex(keyOf) =>
          var index := CreateIndex(keyOf);
          r := Done;
      }
    }

    /** Any operations, up to the first that throws: unless one ends in a DataError the indexes agree with the records;
        they are their inverse image, and everything they list can be read, if they were at first and no record has been
        overwritten by one with another index key. */
    method Run(ops: seq<Operation<V>>) returns (r: Outcome)
      requires Valid()
      modifies this`modifiedData, this`indexes, indexes
      ensures (Now(), r) == AfterAll(old(Now()), ops) && Separate()
      ensures r != DataError ==> Valid()
      ensures r != DataError && old(Exactly()) && KeepIndexKeys(old(Now()), ops) ==>
        Exactly() && AllReadable(Datas(), KeysOf(), Data())
    {
      hide Compare, Sorted, After, AgreeWith, AllExact, KeepsIndexKeys, OutcomeOf, AllReadable;
      for n := 0 to |ops|
        invariant Valid() && forall x <- indexes :: x in old(indexes) || fresh(x)
        invariant AfterAll(old(Now()), ops) == AfterAll(Now(), ops[n..])
        invariant old(Exactly()) && KeepIndexKeys(old(Now()), ops) ==> Exactly() && KeepIndexKeys(Now(), ops[n..])
      {
        assert ops[n..][0] == ops[n] && ops[n..][1..] == ops[n + 1..];
        assert fresh(set x | x in indexes && x !in old(indexes));
        r := Do(ops[n]);
        if r != Done {
          if r != DataError && Exactly() {
            ExactIsReadable(Datas(), KeysOf(), Data());
          }
          return;
        }
      }
      r := Done;
      if Exactly() {
        ExactIsReadable(Datas(), KeysOf(), Data());
      }
    }
  }
}
