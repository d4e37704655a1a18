/** What a transaction does to a database is seen by nobody until it commits, and not at all if it rolls back.

    Stores and indexes are shared between the database and the connection: each has the data of the last commit,
    shadowed by the data of the transaction. The connection has maps and a schema of its own. */
module TransactionAtomicity {
  import opened Options
  import opened SortedPairs
  import opened Keys
  import opened SortedMap
  import opened IndexQueries

  datatype IndexProperties = IndexProperties(keyPath: string, unique: bool)
  datatype StoreProperties = StoreProperties(autoIncrement: bool, indexes: map<string, IndexProperties>)
  datatype Schema = Schema(version: nat, stores: map<string, StoreProperties>)

  class Index {
    var originalData: IndexData
    var modifiedData: Option<IndexData>
    var deleted: bool

    function Data(): IndexData
      reads `originalData, `modifiedData
    {
      if modifiedData.Some? then modifiedData.value else originalData
    }

    constructor ()
      ensures originalData == [] && modifiedData == None
    {
      originalData, modifiedData, deleted := [], None, false;
    }

    /** The data of the transaction becomes the committed data. */
    method TakeOver()
      modifies this
      ensures TakenOver(this)
    {
      deleted := false;
      originalData := Data();
    }

    method Forget()
      modifies this`modifiedData, this`deleted
      ensures modifiedData == None
    {
      deleted, modifiedData := false, None;
    }
  }

  class ObjectStore<V(!new)> {
    var originalData: Map<V>
    var modifiedData: Option<Map<V>>
    var originalKeyGenerator: real
    var modifiedKeyGenerator: Option<real>
    var committedIndexes: map<string, Index>
    var deleted: bool

    function Data(): Map<V>
      reads `originalData, `modifiedData
    {
      if modifiedData.Some? then modifiedData.value else originalData
    }

    /** The key generator as the transaction has set it, or else as committed. */
    function KeyGenerator(): real
      reads `originalKeyGenerator, `modifiedKeyGenerator
    {
      if modifiedKeyGenerator.Some? then modifiedKeyGenerator.value else originalKeyGenerator
    }

    constructor ()
      ensures originalData == [] && modifiedData == None && originalKeyGenerator == 1.0 && modifiedKeyGenerator == None
      ensures committedIndexes == map[]
    {
      originalData, modifiedData, originalKeyGenerator, modifiedKeyGenerator, committedIndexes, deleted :=
        [], None, 1.0, None, map[], false;
    }
  }

  /** What a connection knows of a store: the store, and its indexes by their names in the transaction. */
  datatype Entry<V(!new)> = Entry(store: ObjectStore<V>, indexMap: map<string, Index>)

  class Database<V(!new)> {
    var committedObjectStores: map<string, ObjectStore<V>>
    var committedSchema: Schema

    ghost function Stores(): set<ObjectStore<V>>
      reads this
    {
      set n <- committedObjectStores :: committedObjectStores[n]
    }

    ghost function Indexes(): set<Index>
      reads this, Stores()`committedIndexes
    {
      set n, i | n in committedObjectStores && i in committedObjectStores[n].committedIndexes ::
        committedObjectStores[n].committedIndexes[i]
    }
  }

  ghost function StoresIn<V(!new)>(m: map<string, Entry<V>>): set<ObjectStore<V>> {
    set n <- m :: m[n].store
  }

  ghost function IndexesIn<V(!new)>(m: map<string, Entry<V>>): set<Index> {
    set n, i | n in m && i in m[n].indexMap :: m[n].indexMap[i]
  }

  class Connection<V(!new)> {
    var objectStoreMap: map<string, Entry<V>>
    var modifiedSchema: Schema

    ghost function Stores(): set<ObjectStore<V>>
      reads this
    {
      StoresIn(objectStoreMap)
    }

    ghost function Indexes(): set<Index>
      reads this
    {
      IndexesIn(objectStoreMap)
    }
  }

  // ------------------------------------------------------------------ views

  datatype StoreView<V> = StoreView(data: Map<V>, keyGenerator: real, indexes: map<string, IndexData>)

  /** What can be seen of a database: its schema and, by name, its stores and the indexes that the schema lists. */
  datatype View<V> = View(schema: Schema, stores: map<string, StoreView<V>>)

  /** The indexes that an entry reaches, in the transaction or as committed, with their names. */
  ghost function Reach<V(!new)>(e: Entry<V>): set<(string, Index)>
    reads e.store`committedIndexes
  {
    e.indexMap.Items + e.store.committedIndexes.Items
  }

  /** No index belongs to two stores or has two names. */
  ghost predicate Tidy<V(!new)>(m: map<string, Entry<V>>)
    reads StoresIn(m)`committedIndexes
  {
    forall k <- m, n <- m, p <- Reach(m[k]), q <- Reach(m[n]) :: p.1 == q.1 ==> k == n && p.0 == q.0
  }

  /** makeObjectStoreMap. */
  function MakeObjectStoreMap<V(!new)>(db: Database<V>): map<string, Entry<V>>
    reads db, db.Stores()`committedIndexes
  {
    map n | n in db.committedObjectStores ::
      Entry(db.committedObjectStores[n], db.committedObjectStores[n].committedIndexes)
  }

  /** The schema of a database lists what is there. */
  ghost predicate ValidDatabase<V(!new)>(db: Database<V>)
    reads db, db.Stores()`committedIndexes
  {
    && db.committedObjectStores.Keys == db.committedSchema.stores.Keys
    && (forall n <- db.committedObjectStores ::
      db.committedSchema.stores[n].indexes.Keys <= db.committedObjectStores[n].committedIndexes.Keys)
    && (forall m, n :: m in db.committedObjectStores && n in db.committedObjectStores && m != n ==>
        db.committedObjectStores[m] != db.committedObjectStores[n])
    && Tidy(MakeObjectStoreMap(db))
  }

  /** What others see of a database. A dump also has the indexes of a store that were deleted and committed. */
  ghost function Committed<V(!new)>(db: Database<V>): View<V>
    requires ValidDatabase(db)
    reads db, db.Stores()`committedIndexes, db.Stores()`originalData, db.Stores()`originalKeyGenerator,
      db.Indexes()`originalData
  {
    View(db.committedSchema, map n | n in db.committedObjectStores :: CommittedStore(db, n))
  }

  ghost function CommittedStore<V(!new)>(db: Database<V>, n: string): StoreView<V>
    requires ValidDatabase(db) && n in db.committedObjectStores
    reads db, db.Stores()`committedIndexes, db.Stores()`originalData, db.Stores()`originalKeyGenerator,
      db.Indexes()`originalData
  {
    OfStore(db.committedObjectStores[n], db.committedSchema.stores[n].indexes.Keys)
  }

  ghost function OfStore<V(!new)>(s: ObjectStore<V>, listed: set<string>): StoreView<V>
    requires listed <= s.committedIndexes.Keys
    reads s`originalData, s`originalKeyGenerator, s`committedIndexes,
      (set i | i in s.committedIndexes :: s.committedIndexes[i])`originalData
  {
    StoreView(s.originalData, s.originalKeyGenerator, map i | i in listed :: s.committedIndexes[i].originalData)
  }

  ghost predicate ValidConnection<V(!new)>(c: Connection<V>)
    reads c
  {
    Listed(c.objectStoreMap, c.modifiedSchema)
  }

  /** A schema lists what a connection has, and no store has two names. */
  ghost predicate Listed<V(!new)>(m: map<string, Entry<V>>, schema: Schema) {
    && m.Keys == schema.stores.Keys
    && (forall n <- m :: schema.stores[n].indexes.Keys <= m[n].indexMap.Keys)
    && (forall k, n :: k in m && n in m && m[k].store == m[n].store ==> k == n)
  }

  /** What the transaction on a connection sees. */
  ghost function Current<V(!new)>(c: Connection<V>): View<V>
    requires ValidConnection(c)
    reads c, c.Stores()`originalData, c.Stores()`modifiedData, c.Stores()`originalKeyGenerator,
      c.Stores()`modifiedKeyGenerator
    reads c.Indexes()`originalData, c.Indexes()`modifiedData
  {
    Shown(c.objectStoreMap, c.modifiedSchema)
  }

  ghost function Shown<V(!new)>(m: map<string, Entry<V>>, schema: Schema): View<V>
    requires Listed(m, schema)
    reads StoresIn(m)`originalData, StoresIn(m)`modifiedData, StoresIn(m)`originalKeyGenerator,
      StoresIn(m)`modifiedKeyGenerator
    reads IndexesIn(m)`originalData, IndexesIn(m)`modifiedData
  {
    View(schema, map n | n in m :: OfEntry(m[n], schema.stores[n].indexes.Keys))
  }

  ghost function OfEntry<V(!new)>(e: Entry<V>, listed: set<string>): StoreView<V>
    requires listed <= e.indexMap.Keys
    reads e.store`originalData, e.store`modifiedData, e.store`originalKeyGenerator, e.store`modifiedKeyGenerator
    reads e.indexMap.Values`originalData, e.indexMap.Values`modifiedData
  {
    StoreView(e.store.Data(), e.store.KeyGenerator(), map i | i in listed :: e.indexMap[i].Data())
  }

  twostate lemma MapKept<V(!new)>(new db: Database<V>)
    requires old(allocated(db)) && db.committedObjectStores == old(db.committedObjectStores)
    requires forall s <- db.Stores() :: s.committedIndexes == old(s.committedIndexes)
    ensures MakeObjectStoreMap(db) == old(MakeObjectStoreMap(db))
    ensures old(Tidy(MakeObjectStoreMap(db))) ==> Tidy(MakeObjectStoreMap(db))
  {
    forall n | n in db.committedObjectStores
      ensures db.committedObjectStores[n].committedIndexes == old(db.committedObjectStores[n].committedIndexes)
    {
      assert db.committedObjectStores[n] in db.Stores();
    }
    TidyKept(MakeObjectStoreMap(db));
  }

  twostate lemma TidyKept<V(!new)>(new m: map<string, Entry<V>>)
    requires old(allocated(m)) && forall n <- m :: m[n].store.committedIndexes == old(m[n].store.committedIndexes)
    ensures old(Tidy(m)) ==> Tidy(m)
  {
    hide Compare, Sorted, Reach, Tidy;
    forall n | n in m ensures Reach(m[n]) == old(Reach(m[n])) {
      ReachKept(m[n]);
    }
    TidyShrunk(m);
  }

  twostate lemma ReachKept<V(!new)>(new e: Entry<V>)
    requires old(allocated(e)) && e.store.committedIndexes == old(e.store.committedIndexes)
    ensures Reach(e) == old(Reach(e))
  {
  }

  twostate lemma TidyShrunk<V(!new)>(new m: map<string, Entry<V>>)
    requires old(allocated(m)) && forall n <- m :: Reach(m[n]) <= old(Reach(m[n]))
    ensures old(Tidy(m)) ==> Tidy(m)
  {
    hide Compare, Sorted, Reach;
  }

  /** The committed view does not depend on what transactions write: the shadow data. */
  twostate lemma CommittedKept<V(!new)>(new db: Database<V>)
    requires old(allocated(db)) && old(ValidDatabase(db))
    requires db.committedObjectStores == old(db.committedObjectStores) && db.committedSchema == old(db.committedSchema)
    requires forall s <- db.Stores() ::
      s.committedIndexes == old(s.committedIndexes) && s.originalData == old(s.originalData) &&
        s.originalKeyGenerator == old(s.originalKeyGenerator)
    requires forall i <- old(db.Indexes()) :: i.originalData == old(i.originalData)
    ensures ValidDatabase(db) && Committed(db) == old(Committed(db))
  {
    hide Compare, Sorted, Tidy, MakeObjectStoreMap;
    MapKept(db);
    forall n | n in db.committedObjectStores ensures CommittedStore(db, n) == old(CommittedStore(db, n)) {
      var s := db.committedObjectStores[n];
      assert s in db.Stores();
      forall i | i in db.committedSchema.stores[n].indexes ensures s.committedIndexes[i] in old(db.Indexes()) {
      }
    }
  }

  // ------------------------------------------------------- maps and schemas

  lemma ListedPut<V(!new)>(m: map<string, Entry<V>>, schema: Schema, name: string, e: Entry<V>, p: StoreProperties)
    requires Listed(m, schema) && p.indexes.Keys <= e.indexMap.Keys
    requires forall n <- m :: n != name ==> m[n].store != e.store
    ensures Listed(m[name := e], schema.(stores := schema.stores[name := p]))
  {
  }

  lemma ListedRename<V(!new)>(m: map<string, Entry<V>>, schema: Schema, oldName: string, newName: string)
    requires Listed(m, schema) && oldName in m && newName !in m
    ensures Listed((m - {oldName})[newName := m[oldName]],
      schema.(stores := (schema.stores - {oldName})[newName := schema.stores[oldName]]))
  {
  }

  lemma TidyPut<V(!new)>(m: map<string, Entry<V>>, name: string, e: Entry<V>)
    requires Tidy(m) && NamedOnce(e) && forall p <- Reach(e) :: InPlace(m, name, p) || Unknown(m, p.1)
    ensures Tidy(m[name := e])
  {
    hide Compare, Sorted, Reach;
  }

  ghost predicate NamedOnce<V(!new)>(e: Entry<V>)
    reads e.store`committedIndexes
  {
    forall p <- Reach(e), q <- Reach(e) :: p.1 == q.1 ==> p.0 == q.0
  }

  ghost predicate InPlace<V(!new)>(m: map<string, Entry<V>>, name: string, p: (string, Index))
    reads StoresIn(m)`committedIndexes
  {
    name in m && p in Reach(m[name])
  }

  ghost predicate Unknown<V(!new)>(m: map<string, Entry<V>>, x: Index)
    reads StoresIn(m)`committedIndexes
  {
    forall n <- m, q <- Reach(m[n]) :: q.1 != x
  }

  /** A store's entry may get an index that is new, and lose any. */
  lemma TidyIndexes<V(!new)>(m: map<string, Entry<V>>, name: string, e: Entry<V>, i: string, x: Index)
    requires Tidy(m) && name in m && Unknown(m, x) && Reach(e) <= Reach(m[name]) + {(i, x)}
    ensures Tidy(m[name := e])
  {
    hide Compare, Sorted, Reach;
    TidyPut(m, name, e);
  }

  lemma TidyLess<V(!new)>(m: map<string, Entry<V>>, name: string, e: Entry<V>)
    requires Tidy(m) && name in m && Reach(e) <= Reach(m[name])
    ensures Tidy(m[name := e])
  {
    hide Compare, Sorted, Reach;
    TidyPut(m, name, e);
  }

  lemma TidyDrop<V(!new)>(m: map<string, Entry<V>>, name: string)
    requires Tidy(m)
    ensures Tidy(m - {name})
  {
    hide Compare, Sorted, Reach;
  }

  lemma TidyRename<V(!new)>(m: map<string, Entry<V>>, oldName: string, newName: string)
    requires Tidy(m) && oldName in m && newName !in m
    ensures Tidy((m - {oldName})[newName := m[oldName]])
  {
    hide Compare, Sorted, Reach;
    TidyDrop(m, oldName);
    TidyPut(m - {oldName}, newName, m[oldName]);
  }

  lemma NewReach<V(!new)>(e: Entry<V>, indexName: string, index: Index)
    ensures Reach(Entry(e.store, e.indexMap[indexName := index])) <= Reach(e) + {(indexName, index)}
  {
    var e' := Entry(e.store, e.indexMap[indexName := index]);
    forall p | p in Reach(e') ensures p in Reach(e) + {(indexName, index)} {
      if p in e'.indexMap.Items && p.0 != indexName {
        assert p in e.indexMap.Items;
      }
    }
  }

  lemma LessReach<V(!new)>(e: Entry<V>, indexName: string)
    ensures Reach(Entry(e.store, e.indexMap - {indexName})) <= Reach(e)
  {
  }

  /** A new index is known to nobody. */
  twostate lemma FreshUnknown<V(!new)>(new m: map<string, Entry<V>>, new x: Index)
    requires old(allocated(m)) && fresh(x)
    requires forall s <- StoresIn(m) :: s.committedIndexes == old(s.committedIndexes)
    ensures Unknown(m, x)
  {
    forall n, q | n in m && q in Reach(m[n]) ensures q.1 != x {
      assert m[n].store in StoresIn(m);
      assert q in old(Reach(m[n]));
    }
  }

  /** The indexes of an entry are each its own, and no other entry's. */
  lemma TidyApart<V(!new)>(m: map<string, Entry<V>>, name: string)
    requires Tidy(m) && name in m
    ensures forall i, j ::
      i in m[name].indexMap && j in m[name].indexMap && m[name].indexMap[i] == m[name].indexMap[j] ==> i == j
    ensures forall n <- m :: n != name ==> m[n].indexMap.Values !! m[name].indexMap.Values
  {
    forall i, j | i in m[name].indexMap && j in m[name].indexMap && m[name].indexMap[i] == m[name].indexMap[j]
      ensures i == j
    {
      assert (i, m[name].indexMap[i]) in Reach(m[name]) && (j, m[name].indexMap[j]) in Reach(m[name]);
    }
    forall n, x, y | n in m && n != name && x in m[n].indexMap.Values && y in m[name].indexMap.Values ensures x != y {
      var i :| i in m[n].indexMap && m[n].indexMap[i] == x;
      var j :| j in m[name].indexMap && m[name].indexMap[j] == y;
      assert (i, x) in Reach(m[n]) && (j, y) in Reach(m[name]);
    }
  }

  // ------------------------------------------------------- commit, rollback

  /** The shadow data is as before, and so is what it shadows or has been committed to. */
  twostate predicate SameData(i: Index)
    reads i
  {
    i.Data() == old(i.Data()) && i.modifiedData == old(i.modifiedData)
  }

  /** The store has the indexes of the entry under their names. */
  ghost predicate AllListed<V(!new)>(e: Entry<V>)
    reads e.store`committedIndexes
  {
    forall i <- e.indexMap :: i in e.store.committedIndexes && e.store.committedIndexes[i] == e.indexMap[i]
  }

  /** The data of the transaction has become the committed data. */
  twostate predicate TakenOver(i: Index)
    reads i
  {
    i.originalData == old(i.Data()) && i.modifiedData == old(i.modifiedData)
  }

  twostate predicate StoreTaken<V(!new)>(s: ObjectStore<V>)
    reads s
  {
    && s.originalData == old(s.Data()) && s.modifiedData == old(s.modifiedData)
    && s.originalKeyGenerator == old(s.KeyGenerator()) && s.modifiedKeyGenerator == old(s.modifiedKeyGenerator)
  }

  /** Between transactions, no store and no listed index has shadow data that differs from its committed data. */
  ghost predicate Quiet<V(!new)>(db: Database<V>)
    requires ValidDatabase(db)
    reads db, db.Stores()`committedIndexes, db.Stores()`originalData, db.Stores()`modifiedData,
      db.Stores()`originalKeyGenerator, db.Stores()`modifiedKeyGenerator
    reads db.Indexes()`originalData, db.Indexes()`modifiedData
  {
    forall n <- db.committedObjectStores ::
      QuietStore(db.committedObjectStores[n], db.committedSchema.stores[n].indexes.Keys)
  }

  ghost predicate QuietStore<V(!new)>(s: ObjectStore<V>, listed: set<string>)
    requires listed <= s.committedIndexes.Keys
    reads s`committedIndexes, s`originalData, s`modifiedData, s`originalKeyGenerator, s`modifiedKeyGenerator
    reads s.committedIndexes.Values`originalData, s.committedIndexes.Values`modifiedData
  {
    && s.modifiedData in {None, Some(s.originalData)}
    && s.modifiedKeyGenerator in {None, Some(s.originalKeyGenerator)}
    && forall i <- listed :: s.committedIndexes[i].modifiedData in {None, Some(s.committedIndexes[i].originalData)}
  }

  /** A connection whose map is made anew sees what is committed. */
  lemma QuietIsCurrent<V(!new)>(db: Database<V>, conn: Connection<V>)
    requires ValidDatabase(db) && Quiet(db)
    requires conn.modifiedSchema == db.committedSchema && conn.objectStoreMap == MakeObjectStoreMap(db)
    ensures ValidConnection(conn) && Current(conn) == Committed(db) && Tidy(conn.objectStoreMap)
  {
    hide Compare, Sorted, OfStore, OfEntry, QuietStore, Tidy;
    forall n | n in db.committedObjectStores
      ensures OfEntry(conn.objectStoreMap[n], db.committedSchema.stores[n].indexes.Keys) == CommittedStore(db, n)
    {
      QuietStoreView(db.committedObjectStores[n], db.committedSchema.stores[n].indexes.Keys);
    }
  }

  lemma QuietStoreView<V(!new)>(s: ObjectStore<V>, listed: set<string>)
    requires listed <= s.committedIndexes.Keys && QuietStore(s, listed)
    ensures OfEntry(Entry(s, s.committedIndexes), listed) == OfStore(s, listed)
  {
  }

  /** What a connection knows of, it knew of before, or it is new. */
  twostate predicate OnlyNew<V(!new)>(c: Connection<V>)
    reads c
  {
    && (forall s <- c.Stores() :: s in old(c.Stores()) || fresh(s))
    && (forall i <- c.Indexes() :: i in old(c.Indexes()) || fresh(i))
  }

  twostate lemma NothingNew<V(!new)>(new c: Connection<V>)
    requires old(allocated(c)) && unchanged(c)
    ensures OnlyNew(c)
  {
  }

  twostate lemma LessOnlyNew<V(!new)>(new c: Connection<V>)
    requires old(allocated(c)) && c.objectStoreMap.Values <= old(c.objectStoreMap.Values)
    ensures OnlyNew(c)
  {
    forall n | n in c.objectStoreMap
      ensures exists k :: k in old(c.objectStoreMap) && old(c.objectStoreMap[k]) == c.objectStoreMap[n]
    {
      assert c.objectStoreMap[n] in c.objectStoreMap.Values;
    }
  }

  twostate lemma PutOnlyNew<V(!new)>(new c: Connection<V>, new name: string, new e: Entry<V>)
    requires old(allocated(c)) && c.objectStoreMap == old(c.objectStoreMap)[name := e]
    requires e.store in old(c.Stores()) || fresh(e.store)
    requires forall i <- e.indexMap.Values :: i in old(c.Indexes()) || fresh(i)
    ensures OnlyNew(c)
  {
    forall i | i in c.Indexes() ensures i in old(c.Indexes()) || fresh(i) {
      var n, k :| n in c.objectStoreMap && k in c.objectStoreMap[n].indexMap && i == c.objectStoreMap[n].indexMap[k];
      if n == name {
        assert i in e.indexMap.Values;
      }
    }
  }

  // --------------------------------------------------------- during a commit

  /** What the indexes and the stores of a transaction held when it began to commit. */
  datatype Snapshot<V(!new)> = Snapshot(indexes: map<Index, IndexData>, stores: map<ObjectStore<V>, (Map<V>, real)>)

  /** They still hold that, some of it by now as committed data. */
  ghost predicate Holds<V(!new)>(snap: Snapshot<V>, taken: set<Index>)
    reads snap.indexes.Keys`originalData, snap.indexes.Keys`modifiedData
    reads snap.stores.Keys`originalData, snap.stores.Keys`modifiedData, snap.stores.Keys`originalKeyGenerator,
      snap.stores.Keys`modifiedKeyGenerator
  {
    && taken <= snap.indexes.Keys
    && (forall x <- snap.indexes :: x.Data() == snap.indexes[x])
    && (forall x <- taken :: x.originalData == snap.indexes[x])
    && (forall s <- snap.stores :: (s.Data(), s.KeyGenerator()) == snap.stores[s])
  }

  ghost predicate Covers<V(!new)>(snap: Snapshot<V>, e: Entry<V>) {
    e.store in snap.stores && e.indexMap.Values <= snap.indexes.Keys
  }

  /** An entry as it was when the commit began. */
  ghost function SeenEntry<V(!new)>(snap: Snapshot<V>, e: Entry<V>, listed: set<string>): StoreView<V>
    requires Covers(snap, e) && listed <= e.indexMap.Keys
  {
    StoreView(snap.stores[e.store].0, snap.stores[e.store].1, map i | i in listed :: snap.indexes[e.indexMap[i]])
  }

  /** All of the entry has been committed. */
  ghost predicate EntryDone<V(!new)>(snap: Snapshot<V>, taken: set<Index>, e: Entry<V>)
    reads e.store`originalData, e.store`originalKeyGenerator, e.store`committedIndexes
  {
    && Covers(snap, e) && e.indexMap.Values <= taken && AllListed(e)
    && (e.store.originalData, e.store.originalKeyGenerator) == snap.stores[e.store]
  }

  /** Committing an entry takes its indexes over, and changes none of the data that counts. */
  twostate lemma HoldsAfter<V(!new)>(new snap: Snapshot<V>, new taken: set<Index>, new e: Entry<V>)
    requires old(allocated(snap) && allocated(taken) && allocated(e)) && old(Holds(snap, taken)) && Covers(snap, e)
    requires StoreTaken(e.store) && forall x <- e.indexMap.Values :: TakenOver(x)
    requires forall x <- snap.indexes :: x !in e.indexMap.Values ==> unchanged(x)
    requires forall s <- snap.stores :: s != e.store ==> unchanged(s)
    ensures Holds(snap, taken + e.indexMap.Values)
  {
    forall x | x in snap.indexes
      ensures x.Data() == snap.indexes[x] && (x in taken + e.indexMap.Values ==> x.originalData == snap.indexes[x])
    {
      assert x in e.indexMap.Values ==> TakenOver(x);
    }
    forall s | s in snap.stores ensures (s.Data(), s.KeyGenerator()) == snap.stores[s] {
    }
  }

  twostate lemma DoneKept<V(!new)>(
      new snap: Snapshot<V>, new taken: set<Index>, new taken': set<Index>, new e: Entry<V>)
    requires old(allocated(snap) && allocated(taken) && allocated(e)) && Covers(snap, e)
    requires old(EntryDone(snap, taken, e))
    requires unchanged(e.store) && taken <= taken'
    ensures EntryDone(snap, taken', e)
  {
  }

  twostate lemma DoneNow<V(!new)>(new snap: Snapshot<V>, new taken: set<Index>, new taken': set<Index>, new e: Entry<V>)
    requires old(allocated(snap) && allocated(taken) && allocated(e)) && Covers(snap, e) && old(Holds(snap, taken))
    requires StoreTaken(e.store) && AllListed(e) && e.indexMap.Values <= taken'
    ensures EntryDone(snap, taken', e)
  {
  }

  lemma HeldIsCurrent<V(!new)>(snap: Snapshot<V>, taken: set<Index>, e: Entry<V>, listed: set<string>)
    requires Holds(snap, taken) && Covers(snap, e) && listed <= e.indexMap.Keys
    ensures OfEntry(e, listed) == SeenEntry(snap, e, listed)
  {
  }

  lemma DoneIsCommitted<V(!new)>(snap: Snapshot<V>, taken: set<Index>, e: Entry<V>, listed: set<string>)
    requires Holds(snap, taken) && Covers(snap, e) && listed <= e.indexMap.Keys && EntryDone(snap, taken, e)
    ensures listed <= e.store.committedIndexes.Keys && OfStore(e.store, listed) == SeenEntry(snap, e, listed)
    ensures QuietStore(e.store, listed)
  {
    forall i | i in listed
      ensures e.store.committedIndexes[i] == e.indexMap[i] && e.indexMap[i] in taken && e.indexMap[i] in snap.indexes
    {
    }
  }

  ghost predicate CoversAll<V(!new)>(snap: Snapshot<V>, m: map<string, Entry<V>>) {
    forall n <- m :: Covers(snap, m[n])
  }

  ghost function Seen<V(!new)>(snap: Snapshot<V>, m: map<string, Entry<V>>, schema: Schema): View<V>
    requires CoversAll(snap, m) && Listed(m, schema)
  {
    View(schema, map n | n in m :: SeenEntry(snap, m[n], schema.stores[n].indexes.Keys))
  }

  lemma SeenIsCurrent<V(!new)>(snap: Snapshot<V>, c: Connection<V>)
    requires ValidConnection(c) && CoversAll(snap, c.objectStoreMap) && Holds(snap, {})
    ensures Current(c) == Seen(snap, c.objectStoreMap, c.modifiedSchema)
  {
    hide Compare, Sorted, OfEntry, SeenEntry, Covers, Holds;
    forall n | n in c.objectStoreMap
      ensures OfEntry(c.objectStoreMap[n], c.modifiedSchema.stores[n].indexes.Keys)
        == SeenEntry(snap, c.objectStoreMap[n], c.modifiedSchema.stores[n].indexes.Keys)
    {
      HeldIsCurrent(snap, {}, c.objectStoreMap[n], c.modifiedSchema.stores[n].indexes.Keys);
    }
  }

  /** The database has the stores of the connection, under the same names. */
  ghost predicate SameStores<V(!new)>(db: Database<V>, m: map<string, Entry<V>>)
    reads db
  {
    db.committedObjectStores.Keys == m.Keys && forall n <- m :: db.committedObjectStores[n] == m[n].store
  }

  lemma TidyMade<V(!new)>(db: Database<V>, m: map<string, Entry<V>>)
    requires SameStores(db, m) && Tidy(m)
    ensures Tidy(MakeObjectStoreMap(db))
  {
    forall n | n in m ensures Reach(MakeObjectStoreMap(db)[n]) <= Reach(m[n]) {
    }
  }

  lemma DoneIsSeen<V(!new)>(
      snap: Snapshot<V>, taken: set<Index>, db: Database<V>, m: map<string, Entry<V>>, schema: Schema)
    requires Listed(m, schema) && CoversAll(snap, m) && Holds(snap, taken) && SameStores(db, m)
    requires db.committedSchema == schema && Tidy(m)
    requires forall n <- m :: EntryDone(snap, taken, m[n])
    ensures ValidDatabase(db) && Committed(db) == Seen(snap, m, schema) && Quiet(db)
  {
    hide Compare, Sorted, OfStore, SeenEntry, Covers, Holds, EntryDone, QuietStore, Tidy, MakeObjectStoreMap;
    TidyMade(db, m);
    forall n | n in m
      ensures var listed := schema.stores[n].indexes.Keys; var s := m[n].store;
        listed <= s.committedIndexes.Keys && OfStore(s, listed) == SeenEntry(snap, m[n], listed) &&
          QuietStore(s, listed)
    {
      DoneIsCommitted(snap, taken, m[n], schema.stores[n].indexes.Keys);
    }
  }

  // -------------------------------------------------------------- operations

  /** What the operations of a transaction do, with the data that they work out. A version change starts by setting the
      version. */
  datatype Operation<V> =
    | SetVersion(version: nat)
    | Write(name: string, data: Map<V>, keyGenerator: Option<real>, indexData: map<string, IndexData>)
    | NewStore(name: string, autoIncrement: bool)
    | DropStore(name: string)
    | RenameStore(name: string, newName: string)
    | NewIndex(name: string, indexName: string, properties: IndexProperties, filled: IndexData)
    | DropIndex(name: string, indexName: string)

  function PutStore<V>(v: View<V>, name: string, p: StoreProperties, s: StoreView<V>): View<V> {
    View(v.schema.(stores := v.schema.stores[name := p]), v.stores[name := s])
  }

  function DropName<V>(v: View<V>, name: string): View<V> {
    View(v.schema.(stores := v.schema.stores - {name}), v.stores - {name})
  }

  function Written<V>(
      s: StoreView<V>, data: Map<V>, keyGenerator: Option<real>, indexData: map<string, IndexData>): StoreView<V> {
    StoreView(data, if keyGenerator.Some? then keyGenerator.value else s.keyGenerator, Overlaid(s.indexes, indexData))
  }

  function Overlaid(indexes: map<string, IndexData>, indexData: map<string, IndexData>): map<string, IndexData> {
    map i | i in indexes :: if i in indexData then indexData[i] else indexes[i]
  }

  predicate HasStore<V>(v: View<V>, name: string) {
    name in v.stores && name in v.schema.stores
  }

  /** An operation succeeds; one that does not changes nothing. */
  predicate Succeeds<V>(v: View<V>, op: Operation<V>) {
    match op
    case SetVersion(_) => true
    case Write(name, _, _, _) => HasStore(v, name)
    case NewStore(_, _) => true
    case DropStore(name) => HasStore(v, name)
    case RenameStore(name, newName) => HasStore(v, name) && !HasStore(v, newName)
    case NewIndex(name, _, _, _) => HasStore(v, name)
    case DropIndex(name, indexName) => HasStore(v, name) && indexName in v.schema.stores[name].indexes
  }

  /** What an operation is to do to a database, with no word on who shares what. */
  function Apply<V>(v: View<V>, op: Operation<V>): View<V> {
    if !Succeeds(v, op) then v else
    match op
    case SetVersion(version) => v.(schema := v.schema.(version := version))
    case Write(name, data, keyGenerator, indexData) =>
      v.(stores := v.stores[name := Written(v.stores[name], data, keyGenerator, indexData)])
    case NewStore(name, autoIncrement) =>
      PutStore(v, name, StoreProperties(autoIncrement, map[]), StoreView([], 1.0, map[]))
    case DropStore(name) => DropName(v, name)
    case RenameStore(name, newName) => PutStore(DropName(v, name), newName, v.schema.stores[name], v.stores[name])
    case NewIndex(name, indexName, properties, data) =>
      var p, s := v.schema.stores[name], v.stores[name];
      PutStore(v, name, p.(indexes := p.indexes[indexName := properties]), s.(indexes := s.indexes[indexName := data]))
    case DropIndex(name, indexName) =>
      var p, s := v.schema.stores[name], v.stores[name];
      PutStore(v, name, p.(indexes := p.indexes - {indexName}), s.(indexes := s.indexes - {indexName}))
  }

  function ApplyAll<V>(v: View<V>, ops: seq<Operation<V>>): View<V> {
    if |ops| == 0 then v else Apply(ApplyAll(v, ops[..|ops| - 1]), ops[|ops| - 1])
  }

  lemma FailureKeeps<V>(v: View<V>, op: Operation<V>)
    requires !Succeeds(v, op)
    ensures Apply(v, op) == v
  {
  }

  /** What an operation leaves under a name, and that it leaves the rest: the version, the names, and what is under each
      of them. */
  lemma ApplyLeaves<V>(v: View<V>, op: Operation<V>, n: string)
    requires v.stores.Keys == v.schema.stores.Keys
    ensures var w := Apply(v, op);
      && w.stores.Keys == w.schema.stores.Keys
      && w.schema.version == (if op.SetVersion? then op.version else v.schema.version)
      && (n in w.stores <==>
          match op
          case NewStore(name, _) => n == name || n in v.stores
          case DropStore(name) => n != name && n in v.stores
          case RenameStore(name, newName) =>
            if name in v.stores && newName !in v.stores then n == newName || (n != name && n in v.stores)
            else n in v.stores
          case _ => n in v.stores)
    ensures n in Apply(v, op).stores ==>
      var (s, p) := (Apply(v, op).stores[n], Apply(v, op).schema.stores[n]);
      match op
      case NewStore(name, autoIncrement) =>
        if n == name then s == StoreView([], 1.0, map[]) && p == StoreProperties(autoIncrement, map[])
        else s == v.stores[n] && p == v.schema.stores[n]
      case RenameStore(name, newName) =>
        var m := if n !in v.stores then name else n;
        s == v.stores[m] && p == v.schema.stores[m]
      case NewIndex(name, indexName, properties, data) =>
        && s.data == v.stores[n].data && s.keyGenerator == v.stores[n].keyGenerator
        && p.autoIncrement == v.schema.stores[n].autoIncrement
        && (if n == name
              then s.indexes == v.stores[n].indexes[indexName := data]
                && p.indexes == v.schema.stores[n].indexes[indexName := properties]
              else s.indexes == v.stores[n].indexes && p.indexes == v.schema.stores[n].indexes)
      case DropIndex(name, indexName) =>
        && s.data == v.stores[n].data && s.keyGenerator == v.stores[n].keyGenerator
        && p.autoIncrement == v.schema.stores[n].autoIncrement
        && (if n == name && indexName in v.schema.stores[n].indexes
              then s.indexes == v.stores[n].indexes - {indexName}
                && p.indexes == v.schema.stores[n].indexes - {indexName}
              else s.indexes == v.stores[n].indexes && p.indexes == v.schema.stores[n].indexes)
      case Write(name, data, keyGenerator, indexData) =>
        && p == v.schema.stores[n]
        && (if n == name
              then s.data == data
                && s.keyGenerator == (if keyGenerator.Some? then keyGenerator.value else v.stores[n].keyGenerator)
                && s.indexes.Keys == v.stores[n].indexes.Keys
                && forall i <- s.indexes ::
                  s.indexes[i] == if i in indexData then indexData[i] else v.stores[n].indexes[i]
              else s == v.stores[n])
      case _ => s == v.stores[n] && p == v.schema.stores[n]
  {
  }

  lemma OneMoreOperation<V>(v: View<V>, ops: seq<Operation<V>>, op: Operation<V>)
    ensures ApplyAll(v, ops + [op]) == Apply(ApplyAll(v, ops), op)
  {
    hide Apply;
    assert (ops + [op])[..|ops|] == ops;
  }

  // ------------------------------------------------------- shown by operations

  lemma ShownNames<V(!new)>(m: map<string, Entry<V>>, schema: Schema)
    requires Listed(m, schema)
    ensures Shown(m, schema).schema == schema && Shown(m, schema).stores.Keys == m.Keys == schema.stores.Keys
    ensures forall n <- m :: schema.stores[n].indexes.Keys <= m[n].indexMap.Keys
    ensures forall n <- m :: Shown(m, schema).stores[n] == OfEntry(m[n], schema.stores[n].indexes.Keys)
  {
  }

  lemma ShownPut<V(!new)>(m: map<string, Entry<V>>, schema: Schema, name: string, e: Entry<V>, p: StoreProperties)
    requires Listed(m, schema) && p.indexes.Keys <= e.indexMap.Keys
    requires forall n <- m :: n != name ==> m[n].store != e.store
    ensures var m', schema' := m[name := e], schema.(stores := schema.stores[name := p]);
      Listed(m', schema') && Shown(m', schema') == PutStore(Shown(m, schema), name, p, OfEntry(e, p.indexes.Keys))
  {
    hide Compare, Sorted, OfEntry;
    ListedPut(m, schema, name, e, p);
  }

  /** Making a new object touches none that was there. */
  twostate lemma NothingTouched<V(!new)>(new c: Connection<V>)
    requires old(allocated(c)) && old(ValidConnection(c)) && unchanged(c)
    requires forall s <- StoresIn(c.objectStoreMap) :: unchanged(s)
    requires forall x <- IndexesIn(c.objectStoreMap) :: unchanged(x)
    ensures old(Tidy(c.objectStoreMap)) ==> Tidy(c.objectStoreMap)
    ensures Current(c) == old(Current(c))
  {
    hide Compare, Sorted, Tidy, Shown;
    var m := c.objectStoreMap;
    forall n | n in m ensures m[n].store.committedIndexes == old(m[n].store.committedIndexes) {
      assert m[n].store in StoresIn(m);
    }
    TidyKept(m);
    assert Shown(m, c.modifiedSchema) == old(Shown(m, c.modifiedSchema));
  }

  lemma ShownNew<V(!new)>(
      m: map<string, Entry<V>>, schema: Schema, name: string, autoIncrement: bool, s: ObjectStore<V>)
    requires Listed(m, schema) && Tidy(m) && s.committedIndexes == map[]
    requires OfEntry(Entry(s, map[]), {}) == StoreView([], 1.0, map[])
    ensures Tidy(m[name := Entry(s, map[])])
    ensures PutStore(Shown(m, schema), name, StoreProperties(autoIncrement, map[]), OfEntry(Entry(s, map[]), {}))
      == Apply(Shown(m, schema), NewStore(name, autoIncrement))
  {
    hide Compare, Sorted, Shown;
    assert Reach(Entry(s, map[])) == {};
    TidyPut(m, name, Entry(s, map[]));
  }

  /** The entry has one more index. */
  lemma ShownNewIndex<V(!new)>(
      v: View<V>, name: string, indexName: string, properties: IndexProperties, e: Entry<V>, index: Index)
    requires HasStore(v, name) && v.schema.stores[name].indexes.Keys <= e.indexMap.Keys
    requires v.stores[name] == OfEntry(e, v.schema.stores[name].indexes.Keys)
    ensures var p := v.schema.stores[name];
      var p' := p.(indexes := p.indexes[indexName := properties]);
      p'.indexes.Keys <= e.indexMap.Keys + {indexName} &&
      PutStore(v, name, p', OfEntry(Entry(e.store, e.indexMap[indexName := index]), p'.indexes.Keys))
        == Apply(v, NewIndex(name, indexName, properties, index.Data()))
  {
    hide Compare, Sorted;
    var p := v.schema.stores[name];
    var p' := p.(indexes := p.indexes[indexName := properties]);
    var s := v.stores[name];
    assert OfEntry(Entry(e.store, e.indexMap[indexName := index]), p'.indexes.Keys).indexes
      == s.indexes[indexName := index.Data()];
  }

  lemma ShownLessIndex<V(!new)>(v: View<V>, name: string, indexName: string, e: Entry<V>)
    requires HasStore(v, name) && indexName in v.schema.stores[name].indexes
    requires v.schema.stores[name].indexes.Keys <= e.indexMap.Keys
    requires v.stores[name] == OfEntry(e, v.schema.stores[name].indexes.Keys)
    ensures var p := v.schema.stores[name];
      var p' := p.(indexes := p.indexes - {indexName});
      p'.indexes.Keys <= (e.indexMap - {indexName}).Keys &&
      PutStore(v, name, p', OfEntry(Entry(e.store, e.indexMap - {indexName}), p'.indexes.Keys))
        == Apply(v, DropIndex(name, indexName))
  {
    hide Compare, Sorted;
    var p := v.schema.stores[name];
    var p' := p.(indexes := p.indexes - {indexName});
    var s := v.stores[name];
    assert OfEntry(Entry(e.store, e.indexMap - {indexName}), p'.indexes.Keys).indexes == s.indexes - {indexName};
  }

  /** Filling an index shows in it and nowhere else. */
  twostate lemma ShownFilled<V(!new)>(new c: Connection<V>, new name: string, new indexName: string, new index: Index)
    requires old(allocated(c)) && old(allocated(index)) && unchanged(c) && ValidConnection(c)
    requires Tidy(c.objectStoreMap) && name in c.objectStoreMap
    requires indexName in c.objectStoreMap[name].indexMap && c.objectStoreMap[name].indexMap[indexName] == index
    requires indexName in c.modifiedSchema.stores[name].indexes
    requires forall s <- StoresIn(c.objectStoreMap) :: unchanged(s)
    requires forall x <- IndexesIn(c.objectStoreMap) :: x != index ==> unchanged(x)
    ensures var v := old(Current(c));
      HasStore(v, name) && Current(c) == Filled(v, name, indexName, index.Data())
  {
    hide Compare, Sorted, Shown, Tidy, OfEntry;
    var m := c.objectStoreMap;
    var listed := c.modifiedSchema.stores[name].indexes.Keys;
    TidyApart(m, name);
    ShownNames(m, c.modifiedSchema);
    assert index in m[name].indexMap.Values;
    ShownWritten(m, c.modifiedSchema, name);
    assert m[name].store in StoresIn(m);
    forall i | i in listed && i != indexName ensures unchanged(m[name].indexMap[i]) {
      assert m[name].indexMap[i] in IndexesIn(m);
    }
    assert OfEntry(m[name], listed) == old(
      OfEntry(m[name], listed)).(indexes := old(OfEntry(m[name], listed)).indexes[indexName := index.Data()]) by {
      FilledEntry(m[name], listed, indexName);
    }
  }

  twostate lemma FilledEntry<V(!new)>(new e: Entry<V>, new listed: set<string>, new indexName: string)
    requires old(allocated(e)) && listed <= e.indexMap.Keys && indexName in listed && unchanged(e.store)
    requires forall i <- listed :: i != indexName ==> unchanged(e.indexMap[i])
    ensures var s := old(OfEntry(e, listed));
      OfEntry(e, listed) == s.(indexes := s.indexes[indexName := e.indexMap[indexName].Data()])
  {
    hide Compare, Sorted;
    var s := old(OfEntry(e, listed));
    assert OfEntry(e, listed).indexes == s.indexes[indexName := e.indexMap[indexName].Data()];
  }

  function Filled<V>(v: View<V>, name: string, indexName: string, data: IndexData): View<V>
    requires name in v.stores
  {
    var s := v.stores[name];
    v.(stores := v.stores[name := s.(indexes := s.indexes[indexName := data])])
  }

  lemma FilledAfter<V>(v: View<V>, name: string, indexName: string, properties: IndexProperties, data: IndexData)
    requires HasStore(v, name)
    ensures var v' := Apply(v, NewIndex(name, indexName, properties, []));
      HasStore(v', name) && Filled(v', name, indexName, data) == Apply(v, NewIndex(name, indexName, properties, data))
  {
    hide Compare;
    var v' := Apply(v, NewIndex(name, indexName, properties, []));
    var s := v.stores[name];
    assert v'.stores[name].indexes[indexName := data] == s.indexes[indexName := data];
    assert Filled(v', name, indexName, data).stores == Apply(v, NewIndex(name, indexName, properties, data)).stores;
  }

  lemma ShownDrop<V(!new)>(m: map<string, Entry<V>>, schema: Schema, name: string)
    requires Listed(m, schema)
    ensures var schema' := schema.(stores := schema.stores - {name});
      Listed(m - {name}, schema') && Shown(m - {name}, schema') == DropName(Shown(m, schema), name)
    ensures name in m ==> DropName(Shown(m, schema), name) == Apply(Shown(m, schema), DropStore(name))
  {
    hide Compare, Sorted, OfEntry;
  }

  lemma ShownRename<V(!new)>(m: map<string, Entry<V>>, schema: Schema, oldName: string, newName: string)
    requires Listed(m, schema) && oldName in m && newName !in m
    ensures var m' := (m - {oldName})[newName := m[oldName]];
      var schema' := schema.(stores := (schema.stores - {oldName})[newName := schema.stores[oldName]]);
      Listed(m', schema') && Shown(m', schema') == Apply(Shown(m, schema), RenameStore(oldName, newName))
  {
    hide Compare, Sorted, OfEntry, Shown, Listed;
    ListedRename(m, schema, oldName, newName);
    ShownNames(m, schema);
    OneName(m, schema, oldName);
    var schema' := schema.(stores := schema.stores - {oldName});
    ShownDrop(m, schema, oldName);
    ShownPut(m - {oldName}, schema', newName, m[oldName], schema.stores[oldName]);
  }

  lemma OneName<V(!new)>(m: map<string, Entry<V>>, schema: Schema, name: string)
    requires Listed(m, schema) && name in m
    ensures forall n <- m :: n != name ==> m[n].store != m[name].store
  {
  }

  twostate lemma EntryWritten<V(!new)>(
      new e: Entry<V>, new listed: set<string>, new data: Map<V>, new keyGenerator: Option<real>,
      new indexData: map<string, IndexData>)
    requires old(allocated(e)) && listed <= e.indexMap.Keys && e.store.Data() == data
    requires e.store.KeyGenerator() == if keyGenerator.Some? then keyGenerator.value else old(e.store.KeyGenerator())
    requires forall i <- listed ::
      e.indexMap[i].Data() == if i in indexData then indexData[i] else old(e.indexMap[i].Data())
    ensures OfEntry(e, listed) == Written(old(OfEntry(e, listed)), data, keyGenerator, indexData)
  {
    hide Compare, Sorted;
    var was, now := old(OfEntry(e, listed)), OfEntry(e, listed);
    assert was.keyGenerator == old(e.store.KeyGenerator()) && was.indexes.Keys == now.indexes.Keys == listed;
    forall i | i in listed ensures now.indexes[i] == Overlaid(was.indexes, indexData)[i] {
      assert was.indexes[i] == old(e.indexMap[i].Data());
    }
  }

  /** Only what the entry of a name refers to has been written, and it shows there and nowhere else. */
  twostate lemma ShownWritten<V(!new)>(new m: map<string, Entry<V>>, new schema: Schema, new name: string)
    requires old(allocated(m)) && Listed(m, schema) && name in m && Tidy(m)
    requires forall s <- StoresIn(m) :: s != m[name].store ==> unchanged(s)
    requires forall x <- IndexesIn(m) :: x !in m[name].indexMap.Values ==> unchanged(x)
    ensures var v := old(Shown(m, schema));
      name in schema.stores && schema.stores[name].indexes.Keys <= m[name].indexMap.Keys && HasStore(v, name) &&
      v.stores[name] == old(OfEntry(m[name], schema.stores[name].indexes.Keys)) &&
      Shown(m, schema) == v.(stores := v.stores[name := OfEntry(m[name], schema.stores[name].indexes.Keys)])
  {
    hide Compare, Sorted, Tidy, OfEntry;
    TidyApart(m, name);
    forall n | n in m && n != name
      ensures OfEntry(m[n], schema.stores[n].indexes.Keys) == old(OfEntry(m[n], schema.stores[n].indexes.Keys))
    {
      assert m[n].store in StoresIn(m);
      forall x | x in m[n].indexMap.Values ensures unchanged(x) {
        assert x in IndexesIn(m);
      }
    }
  }

  /** A running transaction: its database, and the connection that it runs on. */
  class Transaction<V(!new)> {
    const db: Database<V>
    const conn: Connection<V>

    ghost predicate Valid()
      reads db, conn, db.Stores()`committedIndexes, conn.Stores()`committedIndexes
    {
      ValidDatabase(db) && ValidConnection(conn) && Tidy(conn.objectStoreMap)
    }

    constructor (db: Database<V>, conn: Connection<V>)
      ensures this.db == db && this.conn == conn
    {
      this.db, this.conn := db, conn;
    }

    // ------------------------------------------------------------ operations

    /** enterVersionChange. */
    method SetVersion(version: nat)
      requires Valid()
      modifies conn`modifiedSchema
      ensures Valid() && Committed(db) == old(Committed(db)) && OnlyNew(conn)
      ensures Current(conn) == Apply(old(Current(conn)), Operation.SetVersion(version))
      ensures Current(conn).schema == Schema(version, old(Current(conn)).schema.stores)
      ensures Current(conn).stores == old(Current(conn)).stores
    {
      hide Compare, Sorted, Committed, ValidDatabase, Tidy, OfEntry;
      conn.modifiedSchema := conn.modifiedSchema.(version := version);
      CommittedKept(db);
    }

    /** An operation on the data of a store writes what it makes of the records, of the key generator and of the indexes
        over the shadow data. */
    method WriteData(name: string, data: Map<V>, keyGenerator: Option<real>, indexData: map<string, IndexData>)
      requires Valid() && name in conn.objectStoreMap
      modifies conn.Stores()`modifiedData, conn.Stores()`modifiedKeyGenerator, conn.Indexes()`modifiedData
      ensures Valid() && Committed(db) == old(Committed(db)) && OnlyNew(conn)
      ensures Current(conn) == Apply(old(Current(conn)), Write(name, data, keyGenerator, indexData))
    {
      hide Compare, Sorted, Committed, ValidDatabase, Listed, Tidy, Shown, OfEntry, Written;
      ShownNames(conn.objectStoreMap, conn.modifiedSchema);
      TidyApart(conn.objectStoreMap, name);
      var e := conn.objectStoreMap[name];
      assert e.store in conn.Stores() && e.indexMap.Values <= conn.Indexes();
      WriteEntry(e, conn.modifiedSchema.stores[name].indexes.Keys, data, keyGenerator, indexData);
      CommittedKept(db);
      ShownWritten(conn.objectStoreMap, conn.modifiedSchema, name);
    }

    method WriteEntry(
        e: Entry<V>, listed: set<string>, data: Map<V>, keyGenerator: Option<real>, indexData: map<string, IndexData>)
      requires listed <= e.indexMap.Keys
      requires forall i, j :: i in e.indexMap && j in e.indexMap && e.indexMap[i] == e.indexMap[j] ==> i == j
      modifies e.store`modifiedData, e.store`modifiedKeyGenerator, e.indexMap.Values`modifiedData
      ensures OfEntry(e, listed) == Written(old(OfEntry(e, listed)), data, keyGenerator, indexData)
    {
      hide Compare, Sorted, OfEntry, Written;
      e.store.modifiedData := Some(data);
      if keyGenerator.Some? {
        e.store.modifiedKeyGenerator := keyGenerator;
      }
      WriteIndexes(e, listed, indexData);
      EntryWritten(e, listed, data, keyGenerator, indexData);
    }

    method WriteIndexes(e: Entry<V>, listed: set<string>, indexData: map<string, IndexData>)
      requires listed <= e.indexMap.Keys
      requires forall i, j :: i in e.indexMap && j in e.indexMap && e.indexMap[i] == e.indexMap[j] ==> i == j
      modifies e.indexMap.Values`modifiedData
      ensures forall i <- listed ::
        e.indexMap[i].Data() == if i in indexData then indexData[i] else old(e.indexMap[i].Data())
    {
      hide Compare, Sorted;
      var rest := listed;
      while rest != {}
        invariant rest <= listed
        invariant forall i <- listed ::
          e.indexMap[i].Data() == if i !in rest && i in indexData then indexData[i] else old(e.indexMap[i].Data())
      {
        var i :| i in rest;
        if i in indexData {
          e.indexMap[i].modifiedData := Some(indexData[i]);
        }
        rest := rest - {i};
      }
    }

    /** The connection gets an entry, and the schema properties, under a name. */
    method PutEntry(name: string, e: Entry<V>, p: StoreProperties)
      requires Valid() && p.indexes.Keys <= e.indexMap.Keys && Tidy(conn.objectStoreMap[name := e])
      requires forall n <- conn.objectStoreMap :: n != name ==> conn.objectStoreMap[n].store != e.store
      modifies conn
      ensures Valid() && Committed(db) == old(Committed(db))
      ensures conn.objectStoreMap == old(conn.objectStoreMap)[name := e]
      ensures conn.modifiedSchema == old(conn.modifiedSchema).(stores := old(conn.modifiedSchema).stores[name := p])
      ensures Current(conn) == PutStore(old(Current(conn)), name, p, old(OfEntry(e, p.indexes.Keys)))
    {
      hide Compare, Sorted, Committed, ValidDatabase, Listed, Tidy, OfEntry, Shown;
      ShownPut(conn.objectStoreMap, conn.modifiedSchema, name, e, p);
      conn.objectStoreMap := conn.objectStoreMap[name := e];
      conn.modifiedSchema := conn.modifiedSchema.(stores := conn.modifiedSchema.stores[name := p]);
      CommittedKept(db);
    }

    method CreateObjectStore(name: string, autoIncrement: bool)
      requires Valid()
      modifies conn
      ensures Valid() && Committed(db) == old(Committed(db)) && OnlyNew(conn)
      ensures Current(conn) == Apply(old(Current(conn)), NewStore(name, autoIncrement))
    {
      hide Compare, Sorted, Committed, ValidDatabase, Listed, OnlyNew, Tidy, Shown, Apply, PutStore;
      label Making:
      var store := new ObjectStore();
      NothingTouched@Making(conn);
      CommittedKept(db);
      assert OfEntry(Entry(store, map[]), {}) == StoreView([], 1.0, map[]);
      ShownNew(conn.objectStoreMap, conn.modifiedSchema, name, autoIncrement, store);
      PutEntry(name, Entry(store, map[]), StoreProperties(autoIncrement, map[]));
      PutOnlyNew(conn, name, Entry(store, map[]));
    }

    method MarkDeleted(e: Entry<V>, names: set<string>)
      requires names <= e.indexMap.Keys
      modifies e.store`deleted, e.indexMap.Values`deleted
    {
      var rest := names;
      while rest != {}
        invariant rest <= names
      {
        var i :| i in rest;
        e.indexMap[i].deleted := true;
        rest := rest - {i};
      }
      e.store.deleted := true;
    }

    /** Nobody sees the marks. */
    method DeleteEntry(name: string)
      requires Valid() && name in conn.objectStoreMap
      modifies conn.Stores()`deleted, conn.Indexes()`deleted
      ensures Valid() && Committed(db) == old(Committed(db)) && Current(conn) == old(Current(conn))
    {
      hide Compare, Sorted, Committed, ValidDatabase, Listed, Tidy, Shown, OnlyNew;
      ShownNames(conn.objectStoreMap, conn.modifiedSchema);
      var e := conn.objectStoreMap[name];
      assert e.store in conn.Stores() && e.indexMap.Values <= conn.Indexes();
      MarkDeleted(e, conn.modifiedSchema.stores[name].indexes.Keys);
      CommittedKept(db);
    }

    method DropEntry(name: string)
      requires Valid() && name in conn.objectStoreMap
      modifies conn
      ensures Valid() && Committed(db) == old(Committed(db)) && conn.objectStoreMap == old(conn.objectStoreMap) - {name}
      ensures Current(conn) == Apply(old(Current(conn)), DropStore(name))
    {
      hide Compare, Sorted, Committed, ValidDatabase, Listed, Tidy, Shown, Apply, DropName;
      ShownDrop(conn.objectStoreMap, conn.modifiedSchema, name);
      TidyDrop(conn.objectStoreMap, name);
      conn.objectStoreMap := conn.objectStoreMap - {name};
      conn.modifiedSchema := conn.modifiedSchema.(stores := conn.modifiedSchema.stores - {name});
      CommittedKept(db);
    }

    method DeleteObjectStore(name: string) returns (ok: bool)
      requires Valid()
      modifies conn, conn.Stores()`deleted, conn.Indexes()`deleted
      ensures Valid() && Committed(db) == old(Committed(db)) && OnlyNew(conn)
      ensures ok <==> name in old(Current(conn)).stores
      ensures Current(conn) == Apply(old(Current(conn)), DropStore(name))
    {
      hide Compare, Sorted, Committed, ValidDatabase, Listed, Tidy, OfEntry, Shown, Apply, DropName, OnlyNew;
      ShownNames(conn.objectStoreMap, conn.modifiedSchema);
      if name !in conn.modifiedSchema.stores {
        NothingNew(conn);
        FailureKeeps(Current(conn), DropStore(name));
        return false;
      }
      DeleteEntry(name);
      DropEntry(name);
      LessOnlyNew(conn);
      ok := true;
    }

    method RenameObjectStore(oldName: string, newName: string) returns (ok: bool)
      requires Valid()
      modifies conn
      ensures Valid() && Committed(db) == old(Committed(db)) && OnlyNew(conn)
      ensures ok <==> oldName in old(Current(conn)).stores && newName !in old(Current(conn)).stores
      ensures Current(conn) == Apply(old(Current(conn)), RenameStore(oldName, newName))
    {
      hide Compare, Sorted, Committed, ValidDatabase, Listed, Tidy, OfEntry, Shown, Apply, OnlyNew;
      ShownNames(conn.objectStoreMap, conn.modifiedSchema);
      if oldName !in conn.modifiedSchema.stores || newName in conn.modifiedSchema.stores {
        NothingNew(conn);
        FailureKeeps(Current(conn), RenameStore(oldName, newName));
        return false;
      }
      var stores := conn.modifiedSchema.stores;
      ShownRename(conn.objectStoreMap, conn.modifiedSchema, oldName, newName);
      TidyRename(conn.objectStoreMap, oldName, newName);
      conn.modifiedSchema := conn.modifiedSchema.(stores := (stores - {oldName})[newName := stores[oldName]]);
      conn.objectStoreMap := (conn.objectStoreMap - {oldName})[newName := conn.objectStoreMap[oldName]];
      LessOnlyNew(conn);
      CommittedKept(db);
      ok := true;
    }

    /** The new index is filled from the records of the store; data is what that gives. */
    method CreateIndex(name: string, indexName: string, properties: IndexProperties, data: IndexData) returns (ok: bool)
      requires Valid()
      modifies conn
      ensures Valid() && Committed(db) == old(Committed(db)) && OnlyNew(conn)
      ensures ok <==> name in old(Current(conn)).stores
      ensures Current(conn) == Apply(old(Current(conn)), NewIndex(name, indexName, properties, data))
    {
      hide Compare, Sorted, Committed, ValidDatabase, Listed, OnlyNew, Tidy, Shown, OfEntry, Apply;
      ShownNames(conn.objectStoreMap, conn.modifiedSchema);
      if name !in conn.objectStoreMap {
        NothingNew(conn);
        FailureKeeps(Current(conn), NewIndex(name, indexName, properties, data));
        return false;
      }
      var index := AddIndex(name, indexName, properties);
      label Filling:
      index.modifiedData := Some(data);
      CommittedKept(db);
      ShownFilled@Filling(conn, name, indexName, index);
      FilledAfter(old(Current(conn)), name, indexName, properties, data);
      ok := true;
    }

    method AddIndex(name: string, indexName: string, properties: IndexProperties) returns (index: Index)
      requires Valid() && name in conn.objectStoreMap
      modifies conn
      ensures Valid() && Committed(db) == old(Committed(db)) && OnlyNew(conn) && fresh(index)
      ensures name in conn.objectStoreMap && indexName in conn.objectStoreMap[name].indexMap
      ensures index == conn.objectStoreMap[name].indexMap[indexName]
      ensures name in conn.modifiedSchema.stores && indexName in conn.modifiedSchema.stores[name].indexes
      ensures Current(conn) == Apply(old(Current(conn)), NewIndex(name, indexName, properties, index.Data()))
      ensures index.Data() == []
    {
      hide Compare, Sorted, Committed, ValidDatabase, Listed, OnlyNew, Tidy, Shown, OfEntry, Apply, PutStore, Reach;
      ShownNames(conn.objectStoreMap, conn.modifiedSchema);
      label Making:
      index := new Index();
      NothingTouched@Making(conn);
      CommittedKept(db);
      var e := conn.objectStoreMap[name];
      var p := conn.modifiedSchema.stores[name];
      var e' := Entry(e.store, e.indexMap[indexName := index]);
      NewReach(e, indexName, index);
      FreshUnknown(conn.objectStoreMap, index);
      TidyIndexes(conn.objectStoreMap, name, e', indexName, index);
      OneName(conn.objectStoreMap, conn.modifiedSchema, name);
      ShownNewIndex(Current(conn), name, indexName, properties, e, index);
      PutEntry(name, e', p.(indexes := p.indexes[indexName := properties]));
      PutOnlyNew(conn, name, e');
    }

    method DeleteIndex(name: string, indexName: string) returns (ok: bool)
      requires Valid()
      modifies conn, conn.Indexes()`deleted
      ensures Valid() && Committed(db) == old(Committed(db)) && OnlyNew(conn)
      ensures ok <==>
        name in old(Current(conn)).schema.stores && indexName in old(Current(conn)).schema.stores[name].indexes
      ensures Current(conn) == Apply(old(Current(conn)), DropIndex(name, indexName))
    {
      hide Compare, Sorted, Committed, ValidDatabase, Listed, OnlyNew, Tidy, Shown, OfEntry, Apply, PutStore, Reach;
      ShownNames(conn.objectStoreMap, conn.modifiedSchema);
      if name !in conn.modifiedSchema.stores || indexName !in conn.modifiedSchema.stores[name].indexes {
        NothingNew(conn);
        FailureKeeps(Current(conn), DropIndex(name, indexName));
        return false;
      }
      var e := conn.objectStoreMap[name];
      var p := conn.modifiedSchema.stores[name];
      assert e.indexMap[indexName] in conn.Indexes();
      e.indexMap[indexName].deleted := true;
      CommittedKept(db);
      var e', p' := Entry(e.store, e.indexMap - {indexName}), p.(indexes := p.indexes - {indexName});
      LessReach(e, indexName);
      TidyLess(conn.objectStoreMap, name, e');
      OneName(conn.objectStoreMap, conn.modifiedSchema, name);
      ShownLessIndex(Current(conn), name, indexName, e);
      PutEntry(name, e', p');
      PutOnlyNew(conn, name, e');
      ok := true;
    }

    // ------------------------------------------------------- commit, rollback

    /** Nothing the transaction has done has been seen, and nothing of it remains. */
    method Rollback()
      requires Valid()
      modifies conn, db.Stores()`modifiedData, db.Stores()`modifiedKeyGenerator, db.Stores()`deleted,
        db.Indexes()`modifiedData, db.Indexes()`deleted
      ensures Valid() && Committed(db) == old(Committed(db)) && Current(conn) == Committed(db) && Quiet(db)
    {
      hide Compare, Sorted, Committed, Current, Listed, ValidDatabase, Quiet, MakeObjectStoreMap, Tidy;
      conn.modifiedSchema := db.committedSchema;
      conn.objectStoreMap := MakeObjectStoreMap(db);
      RollbackStores();
      CommittedKept(db);
      QuietIsCurrent(db, conn);
    }

    method RollbackStores()
      requires ValidDatabase(db)
      modifies db.Stores()`modifiedData, db.Stores()`modifiedKeyGenerator, db.Stores()`deleted,
        db.Indexes()`modifiedData, db.Indexes()`deleted
      ensures ValidDatabase(db) && Quiet(db)
    {
      hide Compare, Sorted, Tidy;
      var names := db.committedObjectStores.Keys;
      ghost var done: set<string> := {};
      while names != {}
        invariant names <= db.committedObjectStores.Keys && done == db.committedObjectStores.Keys - names
        invariant ValidDatabase(db)
        invariant forall n <- done ::
          db.committedObjectStores[n].modifiedData == None && db.committedObjectStores[n].modifiedKeyGenerator == None
        invariant forall n <- done, i <- db.committedSchema.stores[n].indexes ::
          db.committedObjectStores[n].committedIndexes[i].modifiedData == None
      {
        var n :| n in names;
        RollbackStore(db.committedObjectStores[n], db.committedSchema.stores[n].indexes.Keys);
        names := names - {n};
        done := done + {n};
      }
    }

    method RollbackStore(s: ObjectStore<V>, listed: set<string>)
      requires listed <= s.committedIndexes.Keys
      modifies s`modifiedData, s`modifiedKeyGenerator, s`deleted, s.committedIndexes.Values`modifiedData,
        s.committedIndexes.Values`deleted
      ensures s.modifiedData == None && s.modifiedKeyGenerator == None
      ensures forall i <- listed :: s.committedIndexes[i].modifiedData == None
      ensures forall x <- s.committedIndexes.Values :: x.modifiedData in {None, old(x.modifiedData)}
    {
      s.deleted, s.modifiedData, s.modifiedKeyGenerator := false, None, None;
      var rest := listed;
      while rest != {}
        invariant rest <= listed && s.modifiedData == None && s.modifiedKeyGenerator == None
        invariant forall i <- listed - rest :: s.committedIndexes[i].modifiedData == None
        invariant forall x <- s.committedIndexes.Values :: x.modifiedData in {None, old(x.modifiedData)}
      {
        var i :| i in rest;
        s.committedIndexes[i].Forget();
        rest := rest - {i};
      }
    }

    /** What is committed becomes what the transaction saw, all of it. */
    method Commit()
      requires Valid()
      modifies db, conn, conn.Stores(), conn.Indexes()
      ensures Valid() && Committed(db) == old(Current(conn)) && Current(conn) == Committed(db) && Quiet(db)
    {
      hide Compare, Sorted, Committed, Current, ValidDatabase, Listed, Quiet, Seen, Holds, CoversAll, EntryDone, Tidy;
      ghost var snap := Snap();
      SeenIsCurrent(snap, conn);
      ghost var taken;
      var stores;
      stores, taken := CommitStores(snap);
      db.committedSchema, db.committedObjectStores := conn.modifiedSchema, stores;
      DoneIsSeen(snap, taken, db, conn.objectStoreMap, conn.modifiedSchema);
      Renew();
    }

    ghost function Snap(): (snap: Snapshot<V>)
      reads conn, conn.Stores(), conn.Indexes()
      ensures CoversAll(snap, conn.objectStoreMap) && Holds(snap, {})
      ensures snap.indexes.Keys == conn.Indexes() && snap.stores.Keys == conn.Stores()
    {
      Snapshot(map x | x in conn.Indexes() :: x.Data(), map s | s in conn.Stores() :: (s.Data(), s.KeyGenerator()))
    }

    /** The connection's map is made anew from what is committed. */
    method Renew()
      requires ValidDatabase(db) && Quiet(db) && conn.modifiedSchema == db.committedSchema
      modifies conn`objectStoreMap
      ensures Valid() && Quiet(db) && Committed(db) == old(Committed(db)) && Current(conn) == Committed(db)
    {
      hide Compare, Sorted, Committed, Current, Listed, ValidDatabase, Quiet, MakeObjectStoreMap, Tidy;
      conn.objectStoreMap := MakeObjectStoreMap(db);
      QuietIsCurrent(db, conn);
    }

    /** The entries under these names have been committed. */
    ghost predicate UnderWay(snap: Snapshot<V>, taken: set<Index>, done: set<string>)
      reads conn, conn.Stores(), conn.Indexes(), snap.indexes.Keys, snap.stores.Keys
    {
      && done <= conn.objectStoreMap.Keys && Tidy(conn.objectStoreMap) && Holds(snap, taken)
      && forall n <- done :: EntryDone(snap, taken, conn.objectStoreMap[n])
    }

    /** The entries are committed one by one. */
    method CommitStores(ghost snap: Snapshot<V>) returns (stores: map<string, ObjectStore<V>>, ghost taken: set<Index>)
      requires ValidConnection(conn) && CoversAll(snap, conn.objectStoreMap) && UnderWay(snap, {}, {})
      requires snap.indexes.Keys == conn.Indexes() && snap.stores.Keys == conn.Stores()
      modifies conn.Stores(), conn.Indexes()
      ensures stores.Keys == conn.objectStoreMap.Keys && forall n <- stores :: stores[n] == conn.objectStoreMap[n].store
      ensures UnderWay(snap, taken, conn.objectStoreMap.Keys)
    {
      hide Compare, Sorted, Holds, EntryDone, CoversAll, Listed, Tidy;
      stores, taken := map[], {};
      var names := conn.objectStoreMap.Keys;
      while names != {}
        invariant names <= conn.objectStoreMap.Keys && stores.Keys == conn.objectStoreMap.Keys - names
        invariant forall n <- stores :: stores[n] == conn.objectStoreMap[n].store
        invariant UnderWay(snap, taken, stores.Keys)
      {
        var n :| n in names;
        taken := CommitNext(n, stores.Keys, taken, snap);
        stores := stores[n := conn.objectStoreMap[n].store];
        names := names - {n};
      }
      assert stores.Keys == conn.objectStoreMap.Keys;
    }

    method CommitNext(n: string, ghost done: set<string>, ghost taken: set<Index>, ghost snap: Snapshot<V>)
        returns (ghost taken': set<Index>)
      requires ValidConnection(conn) && CoversAll(snap, conn.objectStoreMap) && UnderWay(snap, taken, done)
      requires n in conn.objectStoreMap && n !in done
      requires snap.indexes.Keys == conn.Indexes() && snap.stores.Keys == conn.Stores()
      modifies conn.Stores(), conn.Indexes()
      ensures UnderWay(snap, taken', done + {n})
    {
      hide Compare, Sorted, Holds, EntryDone, Tidy, Reach;
      var e := conn.objectStoreMap[n];
      assert Covers(snap, e);
      CommitEntry(e);
      forall k | k in conn.objectStoreMap ensures Reach(conn.objectStoreMap[k]) <= old(Reach(conn.objectStoreMap[k])) {
      }
      TidyShrunk(conn.objectStoreMap);
      taken' := taken + e.indexMap.Values;
      HoldsAfter(snap, taken, e);
      forall k | k in done ensures EntryDone(snap, taken', conn.objectStoreMap[k]) {
        assert conn.objectStoreMap[k].store != e.store;
        DoneKept(snap, taken, taken', conn.objectStoreMap[k]);
      }
      DoneNow(snap, taken, taken', e);
    }

    /** A store and its indexes take over what the transaction has made of them. */
    method CommitEntry(e: Entry<V>)
      modifies e.store, e.indexMap.Values
      ensures StoreTaken(e.store) && AllListed(e) && Reach(e) <= old(Reach(e))
      ensures forall x <- e.indexMap.Values :: TakenOver(x)
    {
      e.store.deleted := false;
      e.store.originalData := e.store.Data();
      if e.store.modifiedKeyGenerator.Some? {
        e.store.originalKeyGenerator := e.store.modifiedKeyGenerator.value;
      }
      CommitIndexes(e);
      forall p | p in e.store.committedIndexes.Items ensures p in old(Reach(e)) {
        assert if p.0 in e.indexMap then p in e.indexMap.Items else p in old(e.store.committedIndexes.Items);
      }
    }

    method CommitIndexes(e: Entry<V>)
      modifies e.store`committedIndexes, e.indexMap.Values
      ensures e.store.committedIndexes == old(e.store.committedIndexes) + e.indexMap
      ensures forall x <- e.indexMap.Values :: TakenOver(x)
    {
      var names := e.indexMap.Keys;
      ghost var before := e.store.committedIndexes;
      ghost var done: set<string> := {};
      while names != {}
        invariant names <= e.indexMap.Keys && done == e.indexMap.Keys - names
        invariant e.store.committedIndexes.Keys == before.Keys + done
        invariant forall i <- e.store.committedIndexes ::
          e.store.committedIndexes[i] == if i in done then e.indexMap[i] else before[i]
        invariant forall x <- e.indexMap.Values :: SameData(x)
        invariant forall i <- done :: e.indexMap[i].originalData == old(e.indexMap[i].Data())
      {
        var i :| i in names;
        e.indexMap[i].TakeOver();
        e.store.committedIndexes := e.store.committedIndexes[i := e.indexMap[i]];
        names := names - {i};
        done := done + {i};
      }
    }

    // ------------------------------------------------------ whole transactions

    method Do(op: Operation<V>)
      requires Valid()
      modifies conn, conn.Stores()`modifiedData, conn.Stores()`modifiedKeyGenerator, conn.Stores()`deleted,
        conn.Indexes()`modifiedData, conn.Indexes()`deleted
      ensures Valid() && Committed(db) == old(Committed(db)) && OnlyNew(conn)
      ensures Current(conn) == Apply(old(Current(conn)), op)
    {
      hide Compare, Sorted, Committed, ValidDatabase, Listed, Tidy, Shown;
      ShownNames(conn.objectStoreMap, conn.modifiedSchema);
      match op {
        case SetVersion(version) =>
          SetVersion(version);
        case Write(name, data, keyGenerator, indexData) =>
          if name in conn.objectStoreMap {
            WriteData(name, data, keyGenerator, indexData);
          }
        case NewStore(name, autoIncrement) =>
          CreateObjectStore(name, autoIncrement);
        case DropStore(name) =>
          var ok := DeleteObjectStore(name);
        case RenameStore(name, newName) =>
          var ok := RenameObjectStore(name, newName);
        case NewIndex(name, indexName, properties, data) =>
          var ok := CreateIndex(name, indexName, properties, data);
        case DropIndex(name, indexName) =>
          var ok := DeleteIndex(name, indexName);
      }
    }

    /** Whatever a transaction does, it sees what it has done, and nothing of it is seen by others before it ends. */
    method DoAll(ops: seq<Operation<V>>)
      requires Valid()
      modifies conn, conn.Stores()`modifiedData, conn.Stores()`modifiedKeyGenerator, conn.Stores()`deleted,
        conn.Indexes()`modifiedData, conn.Indexes()`deleted
      ensures Valid() && Committed(db) == old(Committed(db)) && OnlyNew(conn)
      ensures Current(conn) == ApplyAll(old(Current(conn)), ops)
    {
      hide Compare, Sorted, Committed, Current, ValidDatabase, Listed, Quiet, Apply, Tidy;
      for n := 0 to |ops|
        invariant Valid() && Committed(db) == old(Committed(db)) && OnlyNew(conn)
        invariant Current(conn) == ApplyAll(old(Current(conn)), ops[..n])
      {
        Do(ops[n]);
        assert ops[..n + 1][..n] == ops[..n];
      }
      assert ops[..|ops|] == ops;
    }

    /** A transaction that begins with what is committed, does any operations, and commits or rolls back: then the
        committed database is what all of the operations make of what it was, or what it was. */
    method Run(ops: seq<Operation<V>>, commit: bool)
      requires Valid() && Current(conn) == Committed(db)
      modifies db, conn, conn.Stores(), conn.Indexes(), db.Stores(), db.Indexes()
      ensures Valid() && Current(conn) == Committed(db) && Quiet(db)
      ensures Committed(db) == if commit then ApplyAll(old(Committed(db)), ops) else old(Committed(db))
    {
      hide Compare, Sorted, Committed, Current, ValidDatabase, Listed, Quiet, ApplyAll, Tidy;
      DoAll(ops);
      if commit {
        Commit();
      } else {
        Rollback();
      }
    }
  }
}
