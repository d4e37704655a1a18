/** What adding a record to an index and taking it out again does to the index, and when an index agrees with its
    store. */
module IndexUpkeep {
  import opened Options
  import opened SortedPairs
  import opened Keys
  import opened Filtering
  import opened SortedMap
  import opened IndexQueries

  /** The primary keys with one more, in order. */
  function InsertKey(ks: seq<Key>, k: Key): seq<Key> {
    var r := Rank(Compare, ks, k);
    Splice(ks, r, r, [k])
  }

  /** insertIntoIndex, for an index that is not unique. */
  function Inserted(data: IndexData, indexKey: Key, primaryKey: Key): IndexData {
    var existing := Get(data, indexKey);
    if existing.None? then With(data, indexKey, [primaryKey])
    else if primaryKey in existing.value then data
    else With(data, indexKey, InsertKey(existing.value, primaryKey))
  }

  function WithoutKey(ks: seq<Key>, k: Key): seq<Key> {
    Filter(ks, (x: Key) => Compare(x, k) != 0)
  }

  /** deleteFromIndex; none when the entry is missing ("db inconsistent"). */
  function Removed(data: IndexData, indexKey: Key, primaryKey: Key): Option<IndexData> {
    var existing := Get(data, indexKey);
    if existing.None? then None
    else
      var rest := WithoutKey(existing.value, primaryKey);
      Some(if |rest| == 0 then Without(data, indexKey) else With(data, indexKey, rest))
  }

  /** The index has the record under that key. */
  ghost predicate Lists(data: IndexData, indexKey: Key, primaryKey: Key) {
    Get(data, indexKey).Some? && primaryKey in Get(data, indexKey).value
  }

  // -------------------------------------------------------- one primary key

  lemma RankSplits(ks: seq<Key>, k: Key, i: nat)
    requires Ascending(Compare, ks) && i < |ks| && k !in ks
    ensures i < Rank(Compare, ks, k) ==> Compare(ks[i], k) < 0
    ensures i >= Rank(Compare, ks, k) ==> Compare(k, ks[i]) < 0
  {
    hide Compare, Rank;
    var r := Rank(Compare, ks, k);
    CompareOpposite(ks[i], k);
    if i > r {
      CompareOpposite(ks[r], k);
      CompareTransitive(k, ks[r], ks[i]);
    }
  }

  lemma InsertKeyAscends(ks: seq<Key>, k: Key)
    requires Ascending(Compare, ks) && k !in ks
    ensures Ascending(Compare, InsertKey(ks, k))
  {
    hide Compare, Rank;
    var r := Rank(Compare, ks, k);
    var s := InsertKey(ks, k);
    forall i, j | 0 <= i < j < |s| ensures Compare(s[i], s[j]) < 0 {
      if i == r {
        RankSplits(ks, k, j - 1);
      } else if j == r {
        RankSplits(ks, k, i);
      }
    }
  }

  lemma InsertKeyMembers(ks: seq<Key>, k: Key, x: Key)
    ensures x in InsertKey(ks, k) <==> x in ks || x == k
  {
    hide Compare, Rank;
    var r := Rank(Compare, ks, k);
    assert ks == ks[..r] + ks[r..];
  }

  lemma WithoutKeyMembers(ks: seq<Key>, k: Key, x: Key)
    ensures x in WithoutKey(ks, k) <==> x in ks && x != k
  {
    hide Compare;
    CompareOpposite(x, k);
    FilterMembers(ks, (y: Key) => Compare(y, k) != 0, x);
  }

  lemma {:induction false} WithoutKeyAscends(ks: seq<Key>, k: Key)
    requires Ascending(Compare, ks)
    ensures Ascending(Compare, WithoutKey(ks, k))
  {
    hide Compare;
    if |ks| > 0 {
      var rest := WithoutKey(ks[1..], k);
      WithoutKeyAscends(ks[1..], k);
      forall j | 0 <= j < |rest| ensures Compare(ks[0], rest[j]) < 0 {
        WithoutKeyMembers(ks[1..], k, rest[j]);
        var m := IndexOf(ks[1..], rest[j]);
        assert ks[m + 1] == rest[j];
      }
    }
  }

  // -------------------------------------------------------------- one record

  lemma GetValid(data: IndexData, k: Key)
    requires ValidIndex(data)
    ensures Get(data, k).Some? ==> |Get(data, k).value| > 0 && Ascending(Compare, Get(data, k).value)
  {
    hide Compare;
    if Get(data, k).Some? {
      GetMeansMember(data, k, Get(data, k).value);
      var i := IndexOf(data, Pair(k, Get(data, k).value));
    }
  }

  lemma ValidByGet(data: IndexData)
    requires forall k :: Get(data, k).Some? ==> |Get(data, k).value| > 0 && Ascending(Compare, Get(data, k).value)
    ensures ValidIndex(data)
  {
    hide Compare;
    forall i | 0 <= i < |data| ensures |data[i].val| > 0 && Ascending(Compare, data[i].val) {
      assert data[i] == Pair(data[i].key, data[i].val);
      GetMeansMember(data, data[i].key, data[i].val);
    }
  }

  /** Inserting lists the record under its index key, keeps the primary keys ascending, and changes nothing else. */
  lemma InsertedLists(data: IndexData, indexKey: Key, primaryKey: Key)
    requires ValidIndex(data)
    ensures ValidIndex(Inserted(data, indexKey, primaryKey))
    ensures forall k, pk ::
      Lists(Inserted(data, indexKey, primaryKey), k, pk) <==> Lists(data, k, pk) || (k == indexKey && pk == primaryKey)
  {
    hide Compare, With, InsertKey, ValidIndex, Get;
    var existing := Get(data, indexKey);
    GetValid(data, indexKey);
    if existing.None? || primaryKey !in existing.value {
      var ks := if existing.None? then [primaryKey] else InsertKey(existing.value, primaryKey);
      if existing.Some? {
        InsertKeyAscends(existing.value, primaryKey);
        InsertKeyMembers(existing.value, primaryKey, primaryKey);
      }
      PutEntry(data, indexKey, ks);
      forall k, pk
        ensures Lists(With(data, indexKey, ks), k, pk) <==> Lists(data, k, pk) || (k == indexKey && pk == primaryKey)
      {
        GetWith(data, indexKey, ks, k);
        if existing.Some? {
          InsertKeyMembers(existing.value, primaryKey, pk);
        }
      }
    }
  }

  lemma PutEntry(data: IndexData, indexKey: Key, ks: seq<Key>)
    requires ValidIndex(data) && |ks| > 0 && Ascending(Compare, ks)
    ensures ValidIndex(With(data, indexKey, ks))
  {
    hide Compare, With, Get;
    var d := With(data, indexKey, ks);
    forall k ensures Get(d, k).Some? ==> |Get(d, k).value| > 0 && Ascending(Compare, Get(d, k).value) {
      GetWith(data, indexKey, ks, k);
      GetValid(data, k);
    }
    ValidByGet(d);
  }

  /** Removing a listed record unlists it and changes nothing else; an entry without records goes. */
  lemma RemovedLists(data: IndexData, indexKey: Key, primaryKey: Key)
    requires ValidIndex(data) && Removed(data, indexKey, primaryKey).Some?
    ensures ValidIndex(Removed(data, indexKey, primaryKey).value)
    ensures forall k, pk ::
      Lists(Removed(data, indexKey, primaryKey).value, k, pk) <==>
        Lists(data, k, pk) && !(k == indexKey && pk == primaryKey)
  {
    hide Compare, With, Without, WithoutKey, ValidIndex, Get;
    var ks := Get(data, indexKey).value;
    var rest := WithoutKey(ks, primaryKey);
    var d := Removed(data, indexKey, primaryKey).value;
    GetValid(data, indexKey);
    WithoutKeyAscends(ks, primaryKey);
    if |rest| > 0 {
      PutEntry(data, indexKey, rest);
    } else {
      DropEntry(data, indexKey);
    }
    forall k, pk ensures Lists(d, k, pk) <==> Lists(data, k, pk) && !(k == indexKey && pk == primaryKey) {
      GetWith(data, indexKey, rest, k);
      GetWithout(data, indexKey, k);
      WithoutKeyMembers(ks, primaryKey, pk);
    }
  }

  lemma DropEntry(data: IndexData, indexKey: Key)
    requires ValidIndex(data)
    ensures ValidIndex(Without(data, indexKey))
  {
    hide Compare, Without, Get;
    var d := Without(data, indexKey);
    forall k ensures Get(d, k).Some? ==> |Get(d, k).value| > 0 && Ascending(Compare, Get(d, k).value) {
      GetWithout(data, indexKey, k);
      GetValid(data, k);
    }
    ValidByGet(d);
  }

  // --------------------------------------------------------------- agreement

  /** The key a record has in an index: none when no valid key can be extracted from its value (a DataError). */
  type KeyOf<-V> = V -> Option<Key>

  /** The index key of the record stored under a primary key. */
  ghost function StoredUnder<V>(store: Map<V>, keyOf: KeyOf<V>, primaryKey: Key): Option<Key> {
    var r := Get(store, primaryKey);
    if r.None? then None else keyOf(r.value)
  }

  /** Every stored record that has an index key is listed under it. */
  ghost predicate Complete<V>(data: IndexData, store: Map<V>, keyOf: KeyOf<V>) {
    forall k, pk :: StoredUnder(store, keyOf, pk) == Some(k) ==> Lists(data, k, pk)
  }

  /** And nothing else is: the index is the inverse image of the store. */
  ghost predicate Exact<V>(data: IndexData, store: Map<V>, keyOf: KeyOf<V>) {
    forall k, pk :: Lists(data, k, pk) <==> StoredUnder(store, keyOf, pk) == Some(k)
  }

  /** What storing a record makes of an index: a record without an index key is left out of it. */
  function Stored(data: IndexData, indexKey: Option<Key>, primaryKey: Key): IndexData {
    if indexKey.None? then data else Inserted(data, indexKey.value, primaryKey)
  }

  lemma StoredValid(data: IndexData, indexKey: Option<Key>, primaryKey: Key)
    requires ValidIndex(data)
    ensures ValidIndex(Stored(data, indexKey, primaryKey))
    ensures forall k, pk ::
      Lists(Stored(data, indexKey, primaryKey), k, pk) <==>
      Lists(data, k, pk) || (Some(k) == indexKey && pk == primaryKey)
  {
    if indexKey.Some? {
      InsertedLists(data, indexKey.value, primaryKey);
    }
  }

  /** Adding or overwriting a record keeps every stored record listed. */
  lemma StoreKeepsComplete<V>(data: IndexData, store: Map<V>, keyOf: KeyOf<V>, primaryKey: Key, v: V)
    requires ValidIndex(data) && Complete(data, store, keyOf)
    ensures Complete(Stored(data, keyOf(v), primaryKey), With(store, primaryKey, v), keyOf)
  {
    hide Compare, With, Stored, Get, Lists;
    StoredValid(data, keyOf(v), primaryKey);
    forall k, pk | StoredUnder(With(store, primaryKey, v), keyOf, pk) == Some(k)
      ensures Lists(Stored(data, keyOf(v), primaryKey), k, pk)
    {
      GetWith(store, primaryKey, v, pk);
    }
  }

  /** Storing a record keeps the index exact if and only if no record is overwritten whose index key differs: the entry
      of an overwritten record is never taken out. */
  lemma StoreKeepsExactExactlyWhen<V>(data: IndexData, store: Map<V>, keyOf: KeyOf<V>, primaryKey: Key, v: V)
    requires ValidIndex(data) && Exact(data, store, keyOf)
    ensures Exact(Stored(data, keyOf(v), primaryKey), With(store, primaryKey, v), keyOf)
      <==> StoredUnder(store, keyOf, primaryKey).None? || StoredUnder(store, keyOf, primaryKey) == keyOf(v)
  {
    hide Compare, With, Stored, Get, Lists;
    var d, s := Stored(data, keyOf(v), primaryKey), With(store, primaryKey, v);
    StoredValid(data, keyOf(v), primaryKey);
    var was := StoredUnder(store, keyOf, primaryKey);
    GetWith(store, primaryKey, v, primaryKey);
    if was.None? || was == keyOf(v) {
      forall k, pk ensures Lists(d, k, pk) <==> StoredUnder(s, keyOf, pk) == Some(k) {
        GetWith(store, primaryKey, v, pk);
      }
    } else {
      assert Lists(d, was.value, primaryKey);
    }
  }

  /** Deleting a record with an index key finds its entry, and keeps the index complete, and exact if it was. */
  lemma DeleteKeepsAgreement<V>(data: IndexData, store: Map<V>, keyOf: KeyOf<V>, primaryKey: Key, indexKey: Key)
    requires ValidIndex(data) && Complete(data, store, keyOf) && StoredUnder(store, keyOf, primaryKey) == Some(indexKey)
    ensures var r := Removed(data, indexKey, primaryKey);
      && r.Some? && ValidIndex(r.value) && Complete(r.value, Without(store, primaryKey), keyOf)
      && (Exact(data, store, keyOf) ==> Exact(r.value, Without(store, primaryKey), keyOf))
  {
    hide Compare, Without, Get, WithoutKey, With;
    assert Lists(data, indexKey, primaryKey);
    RemovedLists(data, indexKey, primaryKey);
    forall pk
      ensures StoredUnder(Without(store, primaryKey), keyOf, pk) == if pk == primaryKey then None
        else StoredUnder(store, keyOf, pk)
    {
      GetWithout(store, primaryKey, pk);
    }
  }

  /** In an exact index a full read finds the record of every position. */
  lemma ExactMeansReadable<V>(data: IndexData, store: Map<V>, keyOf: KeyOf<V>, e: Position)
    requires ValidIndex(data) && Exact(data, store, keyOf) && e in Entries(data)
    ensures Get(store, e.primaryKey).Some? && keyOf(Get(store, e.primaryKey).value) == Some(e.indexKey)
  {
    hide Compare;
    var i := EntriesMember(data, e);
    assert data[i] == Pair(e.indexKey, data[i].val);
    GetMeansMember(data, e.indexKey, data[i].val);
    assert Lists(data, e.indexKey, e.primaryKey);
  }

  /** When a record is overwritten by one with another index key and then deleted, the index still lists it under the
      old index key, and a full read that comes to that position finds no record. */
  lemma OverwriteThenDeleteDangles<V>(data: IndexData, store: Map<V>, keyOf: KeyOf<V>, primaryKey: Key, v: V)
    requires ValidIndex(data) && Exact(data, store, keyOf) && keyOf(v).Some?
    requires StoredUnder(store, keyOf, primaryKey).Some? && StoredUnder(store, keyOf, primaryKey) != keyOf(v)
    ensures var d := Removed(Stored(data, keyOf(v), primaryKey), keyOf(v).value, primaryKey);
      var s := Without(With(store, primaryKey, v), primaryKey);
      && d.Some? && Lists(d.value, StoredUnder(store, keyOf, primaryKey).value, primaryKey) && Get(s, primaryKey).None?
  {
    hide Compare, With, Without, Stored, Get, Lists, Removed;
    var d, s := Stored(data, keyOf(v), primaryKey), With(store, primaryKey, v);
    StoredValid(data, keyOf(v), primaryKey);
    StoreKeepsComplete(data, store, keyOf, primaryKey, v) by {
      ExactIsComplete(data, store, keyOf);
    }
    GetWith(store, primaryKey, v, primaryKey);
    DeleteKeepsAgreement(d, s, keyOf, primaryKey, keyOf(v).value);
    RemovedLists(d, keyOf(v).value, primaryKey);
    GetWithout(s, primaryKey, primaryKey);
    assert Lists(data, StoredUnder(store, keyOf, primaryKey).value, primaryKey);
  }

  lemma ExactIsComplete<V>(data: IndexData, store: Map<V>, keyOf: KeyOf<V>)
    requires Exact(data, store, keyOf)
    ensures Complete(data, store, keyOf)
  {
  }
}
