/** What the requests of a transaction do to a database. The data of each request are those that the methods of
    ObjectStores and KeyGeneration are proved to leave. */
module TransactionRequests {
  import opened Options
  import opened SortedPairs
  import opened Keys
  import opened KeyRanges
  import opened SortedMap
  import opened IndexQueries
  import opened IndexUpkeep
  import opened RangeDeletes
  import opened TransactionAtomicity
  import KeyQueries
  import Stores = ObjectStores
  import Keygen = KeyGeneration

  /** getIndexKeys, for an index with one key per record: none for a DataError. */
  type Extract<-V> = (IndexProperties, V) -> Option<Key>

  function At<V>(extract: Extract<V>, p: IndexProperties): KeyOf<V> {
    v => extract(p, v)
  }

  /** Storing a record at a level, with a key or without, in a store with a key path or without; fallback is the
      committed generator, which is in effect while the generator is zero. Other changes are operations as they are. */
  datatype Request<!V(!new)> =
    | Store(level: Keygen.StoreLevel, name: string, key: Option<Key>, value: V, keyPath: Option<Keygen.KeyPath<V>>,
        fallback: real)
    | Delete(name: string, range: KeyRange)
    | Clear(name: string)
    | MakeIndex(name: string, indexName: string, properties: IndexProperties)
    | MakeStore(name: string, autoIncrement: bool)
    | Change(change: Change)

  datatype Change = Version(version: nat) | Drop(name: string) | Rename(name: string, newName: string) |
    DropIndexOf(name: string, indexName: string)

  /** A deletion that throws: there is nothing to start from, or a record lacks a key in an index. */
  ghost predicate Throws<V(!new)>(v: View<V>, extract: Extract<V>, q: Request<V>) {
    q.Delete? && HasStore(v, q.name) &&
    var data := v.stores[q.name].data;
    StartFails(data, q.range) || exists n, p ::
      0 <= n < |data| && InDelete(data, q.range, n) && HasProperties(v, q.name, p) && extract(p, data[n].val).None?
  }

  ghost predicate InDelete<V>(data: Map<V>, range: KeyRange, n: int) {
    StartIndex(data, range) <= n < StopIndex(data, range, StartIndex(data, range))
  }

  /** The store has an index with these properties. */
  ghost predicate HasProperties<V>(v: View<V>, name: string, p: IndexProperties)
    requires HasStore(v, name)
  {
    p in v.schema.stores[name].indexes.Values
  }

  ghost function RecordsDeleted<V>(data: Map<V>, range: KeyRange): seq<Pair<Key, V>> {
    data[StartIndex(data, range)..StopIndex(data, range, StartIndex(data, range))]
  }

  ghost function LeftMap<V>(data: Map<V>, range: KeyRange): Map<V> {
    Stores.CutSorted(data, StartIndex(data, range), StopIndex(data, range, StartIndex(data, range)));
    Left(data, range)
  }

  /** What storing does to the records and the generator of a store, and what it answers: also when it refuses to
      overwrite a record, or finds none to update, or has no key. */
  ghost function StoreEffect<V(!new)>(v: View<V>, q: Request<V>): (e: Keygen.Effect<V>)
    requires q.Store? && HasStore(v, q.name)
    ensures if e.response.Stored?
      then Get(e.data, e.response.key).Some? && e.data == With(v.stores[q.name].data, e.response.key, StoredValue(e))
      else e.data == v.stores[q.name].data
  {
    hide Lookup, With;
    var s, autoIncrement := v.stores[q.name], v.schema.stores[q.name].autoIncrement;
    var generator := Keygen.Effective(Some(s.keyGenerator), q.fallback);
    var e := Keygen.StoreEffect(q.level, q.key, q.value, autoIncrement, q.keyPath, s.data, generator, None);
    StoresWhatIsMade(q, autoIncrement, s.data, generator);
    e
  }

  /** The value that has been stored. */
  function StoredValue<V>(e: Keygen.Effect<V>): V
    requires e.response.Stored? && Get(e.data, e.response.key).Some?
  {
    Get(e.data, e.response.key).value
  }

  lemma StoresWhatIsMade<V(!new)>(q: Request<V>, autoIncrement: bool, data: Map<V>, generator: real)
    requires q.Store?
    ensures var e := Keygen.StoreEffect(q.level, q.key, q.value, autoIncrement, q.keyPath, data, generator, None);
      if e.response.Stored?
      then Get(e.data, e.response.key).Some? && e.data == With(data, e.response.key, StoredValue(e))
      else e.data == data
  {
    hide Lookup, With;
    if q.level.UpdateExisting? {
      if q.key.Some? {
        GetWith(data, q.key.value, q.value, q.key.value);
      }
    } else {
      var made := Keygen.MakeStoreKeyValue(q.value, q.key, generator, autoIncrement, q.keyPath);
      if made.Made? {
        GetWith(data, made.key, made.value, made.key);
      }
    }
  }

  /** What the request writes. */
  ghost function Effect<V(!new)>(v: View<V>, extract: Extract<V>, q: Request<V>): Operation<V> {
    match q
    case Store(_, name, _, _, _, _) =>
      if !HasStore(v, name) then Write(name, [], None, map[]) else
      var e, s, p := StoreEffect(v, q), v.stores[name], v.schema.stores[name];
      Write(name, e.data, e.own, map i | i in s.indexes && i in p.indexes && e.response.Stored? ::
        Stored(s.indexes[i], extract(p.indexes[i], StoredValue(e)), e.response.key))
    case Delete(name, range) =>
      if !HasStore(v, name) then Write(name, [], None, map[]) else
      var s, p := v.stores[name], v.schema.stores[name];
      Write(name, LeftMap(s.data, range), None,
        map i | i in s.indexes && i in p.indexes :: IndexLeft(s.indexes[i], s.data, range, At(extract, p.indexes[i])))
    case Clear(name) =>
      Write(name, [], None, map i | HasStore(v, name) && i in v.stores[name].indexes :: [])
    case MakeIndex(name, indexName, properties) =>
      NewIndex(name, indexName, properties,
        if HasStore(v, name) then Stores.FilledFrom(v.stores[name].data, At(extract, properties)) else [])
    case MakeStore(name, autoIncrement) => NewStore(name, autoIncrement)
    case Change(Version(version)) => SetVersion(version)
    case Change(Drop(name)) => DropStore(name)
    case Change(Rename(name, newName)) => RenameStore(name, newName)
    case Change(DropIndexOf(name, indexName)) => DropIndex(name, indexName)
  }

  ghost function IndexLeft<V>(d: IndexData, data: Map<V>, range: KeyRange, keyOf: KeyOf<V>): IndexData {
    var r := Stores.RemovedAll(d, RecordsDeleted(data, range), keyOf);
    if r.Some? then r.value else d
  }

  // ------------------------------------------------ what a request leaves behind

  /** Nothing else has changed: not the schema, and no other store. */
  ghost predicate SameBut<V>(v: View<V>, w: View<V>, name: string) {
    && w.schema == v.schema && w.stores.Keys == v.stores.Keys
    && forall n <- v.stores :: n != name ==> w.stores[n] == v.stores[n]
  }

  lemma RecordRequestKeepsRest<V(!new)>(v: View<V>, extract: Extract<V>, q: Request<V>)
    requires (q.Store? || q.Delete? || q.Clear?) && HasStore(v, q.name)
    ensures var w := Apply(v, Effect(v, extract, q)); HasStore(w, q.name) && SameBut(v, w, q.name)
  {
    hide Compare, Sorted, StoreEffect, LeftMap, IndexLeft, Stores.FilledFrom;
  }

  /** What is found under a key of the store after storing. The record is stored under the key that is given or, in a
      store with a key path, read from the value, or else under the number that the generator stands at, which is then
      put into the value if there is a key path. Nothing is stored if a record may not be overwritten, if there is none
      to update, or if there is no such key. */
  lemma StoreRequestLeaves<V(!new)>(v: View<V>, extract: Extract<V>, q: Request<V>, w: View<V>, k: Key)
    requires q.Store? && HasStore(v, q.name) && w == Apply(v, Effect(v, extract, q)) && HasStore(w, q.name)
    ensures var s, generates := v.stores[q.name], v.schema.stores[q.name].autoIncrement;
      var generator := if s.keyGenerator != 0.0 then s.keyGenerator else q.fallback;
      var record: Option<Pair<Key, V>> :=
        if q.level.UpdateExisting? then (
          if q.key.Some? && Get(s.data, q.key.value).Some? then Some(Pair(q.key.value, q.value)) else None)
        else if q.keyPath.None? then (
          if q.key.Some? then Some(Pair(q.key.value, q.value))
          else if generates then Some(Pair(Number(generator), q.value)) else None)
        else if q.key.Some? || q.keyPath.value.read(q.value).NotKey? then None
        else if q.keyPath.value.read(q.value).IsKey? then Some(Pair(q.keyPath.value.read(q.value).key, q.value))
        else if generates && q.keyPath.value.write(q.value, generator).Some?
          then Some(Pair(Number(generator), q.keyPath.value.write(q.value, generator).value)) else None;
      Get(w.stores[q.name].data, k) ==
        if record.Some? && record.value.key == k && !(q.level.NoOverwrite? && Get(s.data, k).Some?)
        then Some(record.value.val) else Get(s.data, k)
  {
    hide Compare, Sorted, Lookup, With, Get, IndexLeft, Stores.FilledFrom;
    var s := v.stores[q.name];
    if q.level.UpdateExisting? {
      if q.key.Some? {
        GetWith(s.data, q.key.value, q.value, k);
      }
    } else {
      var made := Keygen.MakeStoreKeyValue(q.value, q.key, Keygen.Effective(Some(s.keyGenerator), q.fallback),
        v.schema.stores[q.name].autoIncrement, q.keyPath);
      if made.Made? {
        GetWith(s.data, made.key, made.value, k);
      }
    }
  }

  /** Where the generator of the store stands after storing: it has been set to a number that is given as the key, or
      has moved past one that is read from the value, or by one for a number that it has given out, whether the record
      is then stored or not; and it stays where there is no key. */
  lemma StoreRequestMovesGenerator<V(!new)>(v: View<V>, extract: Extract<V>, q: Request<V>, w: View<V>)
    requires q.Store? && HasStore(v, q.name) && w == Apply(v, Effect(v, extract, q)) && HasStore(w, q.name)
    ensures var s, generates := v.stores[q.name], v.schema.stores[q.name].autoIncrement;
      var generator := if s.keyGenerator != 0.0 then s.keyGenerator else q.fallback;
      w.stores[q.name].keyGenerator ==
        if q.level.UpdateExisting? || (q.key.Some? && q.keyPath.Some?) then s.keyGenerator
        else if q.key.Some? then (if generates && q.key.value.Number? then q.key.value.value else generator)
        else if q.keyPath.None? then (if generates then generator + 1.0 else s.keyGenerator)
        else
          var inline := q.keyPath.value.read(q.value);
          if inline.IsKey? then (
            if generates && inline.key.Number? && inline.key.value >= generator then inline.key.value + 1.0
            else generator)
          else if inline.Undefined? && generates then (
            if q.keyPath.value.write(q.value, generator).Some? then generator + 1.0 else s.keyGenerator)
          else if generates then generator else s.keyGenerator
  {
    hide Compare, Sorted, Lookup, With, Get, IndexLeft, Stores.FilledFrom;
  }

  /** A deletion that does not throw takes out the keys between the bounds and leaves all others. An open upper bound
      counts only if it is itself a key, and is not below the lower one. */
  lemma DeleteRequestLeaves<V(!new)>(v: View<V>, extract: Extract<V>, q: Request<V>, w: View<V>, k: Key)
    requires q.Delete? && HasStore(v, q.name) && w == Apply(v, Effect(v, extract, q)) && HasStore(w, q.name)
    ensures var s, range := v.stores[q.name], q.range;
      Get(w.stores[q.name].data, k) == if
          && (range.lower.Some? ==> Compare(range.lower.value, k) < if range.lowerOpen then 0 else 1)
          && (range.upper.Some? && !range.upperOpen ==> Compare(k, range.upper.value) <= 0)
          && (range.upper.Some? && range.upperOpen && Get(s.data, range.upper.value).Some?
            && (range.lower.Some? ==> Compare(range.lower.value, range.upper.value) < if range.lowerOpen then 0 else 1)
            ==> Compare(k, range.upper.value) < 0)
        then None else Get(s.data, k)
  {
    hide Compare, Sorted, Lookup, Left, IndexLeft, Stores.FilledFrom;
    Stores.LeftSorted(v.stores[q.name].data, q.range);
    LeftExactly(v.stores[q.name].data, q.range, k);
  }

  /** Clearing leaves no key. */
  lemma ClearRequestLeaves<V(!new)>(v: View<V>, extract: Extract<V>, q: Request<V>, w: View<V>, k: Key)
    requires q.Clear? && HasStore(v, q.name) && w == Apply(v, Effect(v, extract, q)) && HasStore(w, q.name)
    ensures Get(w.stores[q.name].data, k) == None
  {
    hide Compare, Sorted, Lookup;
    GetFromEmpty<V>(k);
  }

  /** A deletion throws exactly if there is no key to start from, or if one of the records that it would delete lacks a
      key in an index. */
  lemma ThrowsExactlyWhen<V(!new)>(v: View<V>, extract: Extract<V>, q: Request<V>)
    requires q.Delete? && HasStore(v, q.name)
    ensures var data, range := v.stores[q.name].data, q.range;
      Throws(v, extract, q) <==>
        || (if range.lower.None? then |data| == 0
            else range.lowerOpen && forall k :: Get(data, k).Some? ==> Compare(range.lower.value, k) >= 0)
        || exists k, p ::
          && Get(data, k).Some?
          && (range.lower.Some? ==> Compare(range.lower.value, k) < if range.lowerOpen then 0 else 1)
          && (range.upper.Some? && !range.upperOpen ==> Compare(k, range.upper.value) <= 0)
          && (range.upper.Some? && range.upperOpen && Get(data, range.upper.value).Some?
            && (range.lower.Some? ==> Compare(range.lower.value, range.upper.value) < if range.lowerOpen then 0 else 1)
            ==> Compare(k, range.upper.value) < 0)
          && p in v.schema.stores[q.name].indexes.Values && extract(p, Get(data, k).value).None?
  {
    hide Compare, Sorted, Lookup, StartFails, StartIndex, StopIndex;
    var data, range := v.stores[q.name].data, q.range;
    StartFailsExactlyWhen(data, range);
    if n, p :|
      && 0 <= n < |data| && InDelete(data, range, n) && HasProperties(v, q.name, p)
      && extract(p, data[n].val).None?
    {
      KeyQueries.GetAt(data, n);
      WalkedExactly(data, range, n);
      assert extract(p, Get(data, data[n].key).value).None?;
    }
    forall k, p | Get(data, k).Some? && p in v.schema.stores[q.name].indexes.Values &&
        extract(p, Get(data, k).value).None?
      ensures exists n ::
        0 <= n < |data| && data[n].key == k && (InDelete(data, range, n) ==> Throws(v, extract, q))
    {
      GetMeansMember(data, k, Get(data, k).value);
      var n := IndexOf(data, Pair(k, Get(data, k).value));
      assert HasProperties(v, q.name, p);
    }
    forall n: nat | n < |data| {
      WalkedExactly(data, range, n);
    }
  }

  /** What requests that are not about records leave: in the stores that stay the records are as they were. */
  lemma SchemaRequestLeaves<V(!new)>(v: View<V>, extract: Extract<V>, q: Request<V>)
    requires v.stores.Keys == v.schema.stores.Keys
    ensures var w := Apply(v, Effect(v, extract, q));
      && (q.MakeStore? ==>
          && w.stores == v.stores[q.name := StoreView([], 1.0, map[])]
          && w.schema == Schema(v.schema.version, v.schema.stores[q.name := StoreProperties(q.autoIncrement, map[])]))
      && (q.Change? && q.change.Version? ==> w == View(Schema(q.change.version, v.schema.stores), v.stores))
      && (q.Change? && q.change.Drop? ==>
          w == View(Schema(v.schema.version, v.schema.stores - {q.change.name}), v.stores - {q.change.name}))
      && (q.Change? && q.change.Rename? ==>
          var name, newName := q.change.name, q.change.newName;
          if name !in v.stores || newName in v.stores then w == v
          else
            && w.stores == (v.stores - {name})[newName := v.stores[name]]
            && w.schema == Schema(v.schema.version, (v.schema.stores - {name})[newName := v.schema.stores[name]]))
  {
    hide Compare, Sorted, StoreEffect, LeftMap, IndexLeft, Stores.FilledFrom, Written;
  }

  lemma IndexRequestLeaves<V(!new)>(v: View<V>, extract: Extract<V>, q: Request<V>)
    requires v.stores.Keys == v.schema.stores.Keys && (q.MakeIndex? || (q.Change? && q.change.DropIndexOf?))
    ensures var w, name := Apply(v, Effect(v, extract, q)), if q.MakeIndex? then q.name else q.change.name;
      && w.stores.Keys == w.schema.stores.Keys == v.stores.Keys
      && forall n <- v.stores ::
        && w.stores[n].data == v.stores[n].data
        && w.schema.stores[n].indexes ==
          if n != name then v.schema.stores[n].indexes
          else if q.MakeIndex? then v.schema.stores[n].indexes[q.indexName := q.properties]
          else v.schema.stores[n].indexes - {q.change.indexName}
  {
    hide Compare, Sorted, StoreEffect, LeftMap, IndexLeft, Stores.FilledFrom, Written;
  }

  /** A request on records has left, under each key, the record that it stores, or none where it deletes, or what was
      there, and the rest of the database. */
  ghost predicate Leaves<V(!new)>(v: View<V>, q: Request<V>, w: View<V>) {
    (q.Store? || q.Delete? || q.Clear?) && HasStore(v, q.name) ==>
      HasStore(w, q.name) && SameBut(v, w, q.name) &&
      var before, after := v.stores[q.name].data, w.stores[q.name].data;
      && (q.Store? ==>
          var e := StoreEffect(v, q);
          forall k :: Get(after, k) ==
            if e.response == Keygen.Stored(k) then Some(StoredValue(e)) else Get(before, k))
      && (q.Delete? ==>
          var range := q.range;
          forall k :: Get(after, k) == if
              && (range.lower.Some? ==> Compare(range.lower.value, k) < if range.lowerOpen then 0 else 1)
              && (range.upper.Some? && !range.upperOpen ==> Compare(k, range.upper.value) <= 0)
              && (range.upper.Some? && range.upperOpen && Get(before, range.upper.value).Some?
                && (range.lower.Some? ==>
                    Compare(range.lower.value, range.upper.value) < if range.lowerOpen then 0 else 1)
                ==> Compare(k, range.upper.value) < 0)
            then None else Get(before, k))
      && (q.Clear? ==> forall k :: Get(after, k) == None)
  }

  lemma EffectLeaves<V(!new)>(v: View<V>, extract: Extract<V>, q: Request<V>)
    ensures Leaves(v, q, Apply(v, Effect(v, extract, q)))
  {
    hide Compare, Sorted, Apply, Effect, StoreEffect, Get, SameBut;
    if (q.Store? || q.Delete? || q.Clear?) && HasStore(v, q.name) {
      RecordRequestKeepsRest(v, extract, q);
      var w := Apply(v, Effect(v, extract, q));
      match q
      case Store(_, _, _, _, _, _) => StoredOrKept(v, extract, q, w);
      case Delete(_, _) => forall k { DeleteRequestLeaves(v, extract, q, w, k); }
      case Clear(_) => forall k { ClearRequestLeaves(v, extract, q, w, k); }
    }
  }

  lemma StoredOrKept<V(!new)>(v: View<V>, extract: Extract<V>, q: Request<V>, w: View<V>)
    requires q.Store? && HasStore(v, q.name) && w == Apply(v, Effect(v, extract, q)) && HasStore(w, q.name)
    ensures var e := StoreEffect(v, q);
      forall k :: Get(w.stores[q.name].data, k) ==
        if e.response == Keygen.Stored(k) then Some(StoredValue(e)) else Get(v.stores[q.name].data, k)
  {
    hide Compare, Sorted, Lookup, With, Get, IndexLeft, Stores.FilledFrom, StoreEffect, StoredValue;
    var s, e := v.stores[q.name], StoreEffect(v, q);
    if e.response.Stored? {
      forall k { GetWith(s.data, e.response.key, StoredValue(e), k); }
    }
  }
}
