/** Transactions of requests: the indexes that are committed agree with the records that are committed, and what is
    committed is what the requests leave. */
module TransactionRecords {
  import opened Options
  import opened SortedPairs
  import opened Keys
  import opened KeyRanges
  import opened SortedMap
  import opened IndexQueries
  import opened IndexUpkeep
  import opened RangeDeletes
  import opened TransactionAtomicity
  import opened TransactionRequests
  import Stores = ObjectStores
  import Keygen = KeyGeneration

  // --------------------------------------------------------------- agreement

  ghost predicate IndexAgrees<V>(d: IndexData, data: Map<V>, keyOf: KeyOf<V>) {
    ValidIndex(d) && Complete(d, data, keyOf)
  }

  /** The store has the indexes of its properties, and each lists every record that has a key in it. */
  ghost predicate StoreAgrees<V>(s: StoreView<V>, p: StoreProperties, extract: Extract<V>) {
    s.indexes.Keys == p.indexes.Keys && forall i <- s.indexes ::
      IndexAgrees(s.indexes[i], s.data, At(extract, p.indexes[i]))
  }

  ghost predicate Agrees<V>(v: View<V>, extract: Extract<V>) {
    v.stores.Keys == v.schema.stores.Keys && forall n <- v.stores ::
      StoreAgrees(v.stores[n], v.schema.stores[n], extract)
  }

  lemma WriteAgrees<V>(v: View<V>, extract: Extract<V>, name: string, data: Map<V>, keyGenerator: Option<real>,
      indexData: map<string, IndexData>)
    requires Agrees(v, extract) && HasStore(v, name) && v.stores[name].indexes.Keys <= indexData.Keys
    requires forall i <- v.stores[name].indexes ::
      i in v.schema.stores[name].indexes &&
        IndexAgrees(indexData[i], data, At(extract, v.schema.stores[name].indexes[i]))
    ensures Agrees(Apply(v, Write(name, data, keyGenerator, indexData)), extract)
  {
    hide Compare, Sorted, IndexAgrees, Complete, ValidIndex;
    assert StoreAgrees(Written(v.stores[name], data, keyGenerator, indexData), v.schema.stores[name], extract);
  }

  lemma StoredAgrees<V>(d: IndexData, data: Map<V>, keyOf: KeyOf<V>, key: Key, value: V)
    requires IndexAgrees(d, data, keyOf)
    ensures IndexAgrees(Stored(d, keyOf(value), key), With(data, key, value), keyOf)
  {
    hide Compare, Sorted, With, Stored, Complete, ValidIndex;
    StoreKeepsComplete(d, data, keyOf, key, value);
    StoredValid(d, keyOf(value), key);
  }

  lemma DeletedAgrees<V>(d: IndexData, data: Map<V>, range: KeyRange, keyOf: KeyOf<V>)
    requires IndexAgrees(d, data, keyOf) && forall n ::
      0 <= n < |data| && InDelete(data, range, n) ==> keyOf(data[n].val).Some?
    ensures IndexAgrees(IndexLeft(d, data, range, keyOf), LeftMap(data, range), keyOf)
  {
    hide Compare, Sorted, Splice, StartIndex, StopIndex, Complete, ValidIndex, Exact, Stores.RemovedAll;
    var i := StartIndex(data, range);
    forall n | i <= n < StopIndex(data, range, i) ensures keyOf(data[n].val).Some? {
      assert InDelete(data, range, n);
    }
    Stores.RemovedAllFollows(d, data, i, StopIndex(data, range, i), keyOf);
  }

  lemma EmptyAgrees<V>(keyOf: KeyOf<V>)
    ensures IndexAgrees([], [], keyOf)
  {
  }

  lemma FilledAgrees<V>(data: Map<V>, keyOf: KeyOf<V>)
    ensures IndexAgrees(Stores.FilledFrom(data, keyOf), data, keyOf)
  {
    hide Compare, Exact, Complete, ValidIndex, Stores.FilledFrom;
    assert data[..|data|] == data;
    Stores.FilledExact(data, keyOf, |data|);
    ExactIsComplete(Stores.FilledFrom(data, keyOf), data, keyOf);
  }

  lemma IndexRequestAgrees<V(!new)>(v: View<V>, extract: Extract<V>, q: Request<V>)
    requires Agrees(v, extract) && q.MakeIndex? && HasStore(v, q.name)
    ensures Agrees(Apply(v, Effect(v, extract, q)), extract)
  {
    hide Compare, Sorted, IndexAgrees, Stores.FilledFrom;
    FilledAgrees(v.stores[q.name].data, At(extract, q.properties));
  }

  lemma WithoutStore<V(!new)>(v: View<V>, extract: Extract<V>, q: Request<V>)
    requires (q.Store? || q.Delete? || q.Clear? || q.MakeIndex?) && !HasStore(v, q.name)
    ensures Apply(v, Effect(v, extract, q)) == v
  {
    hide Compare, Sorted, Stores.FilledFrom;
  }

  lemma SchemaRequestAgrees<V(!new)>(v: View<V>, extract: Extract<V>, q: Request<V>)
    requires Agrees(v, extract) && (q.MakeStore? || q.Change?)
    ensures Agrees(Apply(v, Effect(v, extract, q)), extract)
  {
    hide Compare, Sorted, IndexAgrees;
  }

  /** Every request that does not throw leaves indexes that agree with the records. */
  lemma EffectAgrees<V(!new)>(v: View<V>, extract: Extract<V>, q: Request<V>)
    requires Agrees(v, extract) && !Throws(v, extract, q)
    ensures Agrees(Apply(v, Effect(v, extract, q)), extract)
  {
    hide Agrees, Throws, Apply, Effect;
    if q.MakeStore? || q.Change? {
      SchemaRequestAgrees(v, extract, q);
    } else if !HasStore(v, q.name) {
      WithoutStore(v, extract, q);
    } else {
      match q
      case Store(_, _, _, _, _, _) => StoreRequestAgrees(v, extract, q);
      case Delete(_, _) => DeleteRequestAgrees(v, extract, q);
      case Clear(_) => ClearRequestAgrees(v, extract, q);
      case MakeIndex(_, _, _) => IndexRequestAgrees(v, extract, q);
    }
  }

  lemma StoreRequestAgrees<V(!new)>(v: View<V>, extract: Extract<V>, q: Request<V>)
    requires Agrees(v, extract) && q.Store? && HasStore(v, q.name)
    ensures Agrees(Apply(v, Effect(v, extract, q)), extract)
  {
    hide Compare, Sorted, IndexAgrees, Stored, With, Apply, Get, StoredValue, StoreEffect;
    var s, p, w, e := v.stores[q.name], v.schema.stores[q.name], Effect(v, extract, q), StoreEffect(v, q);
    if e.response.Stored? {
      forall i | i in s.indexes
        ensures i in w.indexData && IndexAgrees(w.indexData[i], w.data, At(extract, p.indexes[i]))
      {
        StoredAgrees(s.indexes[i], s.data, At(extract, p.indexes[i]), e.response.key, StoredValue(e));
      }
      WriteAgrees(v, extract, q.name, w.data, w.keyGenerator, w.indexData);
    } else {
      assert w == Write(q.name, s.data, e.own, map[]);
      NothingStored(v, extract, q.name, e.own);
    }
  }

  /** The generator may have moved on, and that is all. */
  lemma NothingStored<V(!new)>(v: View<V>, extract: Extract<V>, name: string, own: Option<real>)
    requires Agrees(v, extract) && HasStore(v, name)
    ensures Agrees(Apply(v, Write(name, v.stores[name].data, own, map[])), extract)
  {
    hide Compare, Sorted, IndexAgrees;
    var s := v.stores[name];
    assert Written(s, s.data, own, map[]).indexes == s.indexes;
    assert StoreAgrees(Written(s, s.data, own, map[]), v.schema.stores[name], extract);
  }

  lemma DeleteRequestAgrees<V(!new)>(v: View<V>, extract: Extract<V>, q: Request<V>)
    requires Agrees(v, extract) && q.Delete? && HasStore(v, q.name) && !Throws(v, extract, q)
    ensures Agrees(Apply(v, Effect(v, extract, q)), extract)
  {
    hide Compare, Sorted, IndexAgrees, IndexLeft, InDelete, LeftMap, Apply;
    var s, p, w := v.stores[q.name], v.schema.stores[q.name], Effect(v, extract, q);
    forall i | i in s.indexes
      ensures i in w.indexData && IndexAgrees(w.indexData[i], w.data, At(extract, p.indexes[i]))
    {
      forall n | 0 <= n < |s.data| && InDelete(s.data, q.range, n)
        ensures At(extract, p.indexes[i])(s.data[n].val).Some?
      {
        assert HasProperties(v, q.name, p.indexes[i]);
      }
      DeletedAgrees(s.indexes[i], s.data, q.range, At(extract, p.indexes[i]));
    }
    WriteAgrees(v, extract, q.name, w.data, w.keyGenerator, w.indexData);
  }

  lemma ClearRequestAgrees<V(!new)>(v: View<V>, extract: Extract<V>, q: Request<V>)
    requires Agrees(v, extract) && q.Clear? && HasStore(v, q.name)
    ensures Agrees(Apply(v, Effect(v, extract, q)), extract)
  {
    hide Compare, IndexAgrees, Apply;
    var s, p, w := v.stores[q.name], v.schema.stores[q.name], Effect(v, extract, q);
    forall i | i in s.indexes
      ensures i in w.indexData && IndexAgrees(w.indexData[i], w.data, At(extract, p.indexes[i]))
    {
      EmptyAgrees(At(extract, p.indexes[i]));
    }
    WriteAgrees(v, extract, q.name, w.data, w.keyGenerator, w.indexData);
  }

  // -------------------------------------------------------------- generators

  /** In a store that generates keys all numbers are below the generator. */
  ghost predicate Numbered<V(!new)>(v: View<V>) {
    && v.stores.Keys == v.schema.stores.Keys
    && forall n <- v.stores :: v.schema.stores[n].autoIncrement ==> IsFresh(v.stores[n])
  }

  ghost predicate IsFresh<V(!new)>(s: StoreView<V>) {
    1.0 <= s.keyGenerator && Keygen.Fresh(s.data, s.keyGenerator)
  }

  /** A number is given explicitly for a record. */
  predicate GivesNumber<V(!new)>(q: Request<V>) {
    q.Store? && !q.level.UpdateExisting? && Keygen.ExplicitNumber(q.key, true, q.keyPath)
  }

  /** Requests other than those leave all numbers below the generators. */
  lemma EffectKeepsNumbered<V(!new)>(v: View<V>, extract: Extract<V>, q: Request<V>)
    requires Numbered(v) && !GivesNumber(q)
    ensures Numbered(Apply(v, Effect(v, extract, q)))
  {
    hide Compare, Sorted, IsFresh, StoreEffect, LeftMap, IndexLeft, Stores.FilledFrom;
    match q {
      case Store(_, name, _, _, _, _) =>
        if HasStore(v, name) && v.schema.stores[name].autoIncrement {
          StoreKeepsFresh(v, q);
        }
      case Delete(name, range) =>
        if HasStore(v, name) && v.schema.stores[name].autoIncrement {
          DeleteKeepsFresh(v.stores[name], range);
        }
      case Clear(name) =>
        EmptyIsFresh(v, name);
      case MakeIndex(name, indexName, properties) =>
        IndexesDoNotMatter(v);
      case MakeStore(name, autoIncrement) =>
        NewIsFresh<V>();
      case Change(_) =>
        IndexesDoNotMatter(v);
    }
  }

  lemma StoreKeepsFresh<V(!new)>(v: View<V>, q: Request<V>)
    requires q.Store? && HasStore(v, q.name) && v.schema.stores[q.name].autoIncrement && !GivesNumber(q)
    requires IsFresh(v.stores[q.name])
    ensures var e := StoreEffect(v, q);
      forall d :: IsFresh(Written(v.stores[q.name], e.data, e.own, d))
  {
    hide Keygen.StoreEffect, Keygen.Fresh;
    var s, e := v.stores[q.name], StoreEffect(v, q);
    Keygen.OthersKeep(
      q.level, q.key, q.value, q.keyPath, s.data, None, s.keyGenerator, e.data, e.own, e.response);
  }

  lemma DeleteKeepsFresh<V(!new)>(s: StoreView<V>, range: KeyRange)
    requires IsFresh(s)
    ensures forall d :: IsFresh(Written(s, LeftMap(s.data, range), None, d))
  {
    hide Compare, Sorted, StartIndex, StopIndex, Get;
    forall n | s.keyGenerator <= n ensures Get(LeftMap(s.data, range), Number(n)).None? {
      var left := Get(LeftMap(s.data, range), Number(n));
      if left.Some? {
        GetMeansMember(LeftMap(s.data, range), Number(n), left.value);
        assert Pair(Number(n), left.value) in s.data;
        GetMeansMember(s.data, Number(n), left.value);
      }
    }
  }

  lemma EmptyIsFresh<V(!new)>(v: View<V>, name: string)
    ensures HasStore(v, name) && IsFresh(v.stores[name]) ==> forall d :: IsFresh(Written(v.stores[name], [], None, d))
  {
  }

  lemma NewIsFresh<V(!new)>()
    ensures IsFresh<V>(StoreView([], 1.0, map[]))
  {
  }

  lemma IndexesDoNotMatter<V(!new)>(v: View<V>)
    ensures forall n, d :: n in v.stores ==> (IsFresh(v.stores[n].(indexes := d)) <==> IsFresh(v.stores[n]))
  {
  }

  // ------------------------------------------------------ whole transactions

  /** What the requests write, one after the other. */
  ghost function Effects<V(!new)>(v: View<V>, extract: Extract<V>, qs: seq<Request<V>>): (ops: seq<Operation<V>>)
    ensures |ops| == |qs|
  {
    if |qs| == 0 then []
    else
      var ops := Effects(v, extract, qs[..|qs| - 1]);
      ops + [Effect(ApplyAll(v, ops), extract, qs[|qs| - 1])]
  }

  /** Each request in turn has its effect on what those before it have left. */
  lemma {:induction false} OneByOne<V(!new)>(v: View<V>, extract: Extract<V>, qs: seq<Request<V>>, i: nat)
    requires i < |qs|
    ensures var ops := Effects(v, extract, qs);
      var before := ApplyAll(v, ops[..i]);
      ApplyAll(v, ops[..i + 1]) == Apply(before, Effect(before, extract, qs[i]))
  {
    hide Compare, Sorted, Apply, Effect;
    var rest := qs[..|qs| - 1];
    var ops, fewer := Effects(v, extract, qs), Effects(v, extract, rest);
    assert ops[..|ops| - 1] == fewer;
    if i == |qs| - 1 {
      assert ops[..i] == fewer && ops[..i + 1] == ops;
    } else {
      OneByOne(v, extract, rest, i);
      assert ops[..i] == fewer[..i] && ops[..i + 1] == fewer[..i + 1];
    }
  }

  /** Each request has its effect on what those before it have left, and leaves behind what it should. */
  ghost predicate InTurn<V(!new)>(v: View<V>, extract: Extract<V>, qs: seq<Request<V>>, ops: seq<Operation<V>>) {
    && |ops| == |qs|
    && forall i :: 0 <= i < |qs| ==>
      && ApplyAll(v, ops[..i + 1]) == Apply(ApplyAll(v, ops[..i]), Effect(ApplyAll(v, ops[..i]), extract, qs[i]))
      && Leaves(ApplyAll(v, ops[..i]), qs[i], ApplyAll(v, ops[..i + 1]))
  }

  lemma AllInTurn<V(!new)>(v: View<V>, extract: Extract<V>, qs: seq<Request<V>>)
    ensures InTurn(v, extract, qs, Effects(v, extract, qs))
  {
    hide Compare, Sorted, Apply, ApplyAll, Effect, Effects, Leaves;
    var ops := Effects(v, extract, qs);
    forall i | 0 <= i < |qs|
      ensures ApplyAll(v, ops[..i + 1]) == Apply(ApplyAll(v, ops[..i]), Effect(ApplyAll(v, ops[..i]), extract, qs[i]))
      ensures Leaves(ApplyAll(v, ops[..i]), qs[i], ApplyAll(v, ops[..i + 1]))
    {
      OneByOne(v, extract, qs, i);
      EffectLeaves(ApplyAll(v, ops[..i]), extract, qs[i]);
    }
  }

  /** None of them throws. */
  ghost predicate NoneThrows<V(!new)>(v: View<V>, extract: Extract<V>, qs: seq<Request<V>>) {
    |qs| > 0 ==>
      && NoneThrows(v, extract, qs[..|qs| - 1])
      && !Throws(ApplyAll(v, Effects(v, extract, qs[..|qs| - 1])), extract, qs[|qs| - 1])
  }

  /** Each request is one that does not throw on what those before it have left. */
  lemma {:induction false} NoneThrowsExactlyWhen<V(!new)>(v: View<V>, extract: Extract<V>, qs: seq<Request<V>>)
    ensures NoneThrows(v, extract, qs) <==>
      forall i :: 0 <= i < |qs| ==> !Throws(ApplyAll(v, Effects(v, extract, qs)[..i]), extract, qs[i])
  {
    hide Compare, Sorted, Apply, ApplyAll, Effect, Throws;
    if |qs| > 0 {
      var rest := qs[..|qs| - 1];
      var ops, fewer := Effects(v, extract, qs), Effects(v, extract, rest);
      NoneThrowsExactlyWhen(v, extract, rest);
      assert ops[..|ops| - 1] == fewer;
      forall i | 0 <= i < |rest| ensures ops[..i] == fewer[..i] && rest[i] == qs[i] {
      }
    }
  }

  lemma {:induction false} EffectsAgree<V(!new)>(v: View<V>, extract: Extract<V>, qs: seq<Request<V>>)
    requires Agrees(v, extract) && NoneThrows(v, extract, qs)
    ensures Agrees(ApplyAll(v, Effects(v, extract, qs)), extract)
  {
    hide Compare, Sorted, Agrees, Throws, Effect, Apply;
    if |qs| > 0 {
      var rest := qs[..|qs| - 1];
      EffectsAgree(v, extract, rest);
      var ops := Effects(v, extract, qs);
      assert ops[..|ops| - 1] == Effects(v, extract, rest);
      EffectAgrees(ApplyAll(v, Effects(v, extract, rest)), extract, qs[|qs| - 1]);
    }
  }

  lemma {:induction false} EffectsKeepNumbered<V(!new)>(v: View<V>, extract: Extract<V>, qs: seq<Request<V>>)
    requires Numbered(v) && forall q <- qs :: !GivesNumber(q)
    ensures Numbered(ApplyAll(v, Effects(v, extract, qs)))
  {
    hide Compare, Sorted, Numbered, GivesNumber, Effect, Apply;
    if |qs| > 0 {
      var rest := qs[..|qs| - 1];
      EffectsKeepNumbered(v, extract, rest);
      var ops := Effects(v, extract, qs);
      assert ops[..|ops| - 1] == Effects(v, extract, rest);
      EffectKeepsNumbered(ApplyAll(v, Effects(v, extract, rest)), extract, qs[|qs| - 1]);
    }
  }

  /** A whole transaction: the committed indexes agree with the committed records before it, and after it too, if it
      commits requests of which none throws, or rolls back whatever it has done. Storing that is refused may be
      committed. And the committed generators stay above all committed numbers, if no number is given explicitly. */
  method RunRequests<V(!new)>(
      t: Transaction<V>, ops: seq<Operation<V>>, commit: bool, ghost extract: Extract<V>, ghost qs: seq<Request<V>>)
    requires t.Valid() && Current(t.conn) == Committed(t.db) && Agrees(Committed(t.db), extract)
    requires commit ==> ops == Effects(Committed(t.db), extract, qs) && NoneThrows(Committed(t.db), extract, qs)
    modifies t.db, t.conn, t.conn.Stores(), t.conn.Indexes(), t.db.Stores(), t.db.Indexes()
    ensures t.Valid() && Current(t.conn) == Committed(t.db) && Agrees(Committed(t.db), extract)
    ensures Committed(t.db) == if commit then ApplyAll(old(Committed(t.db)), ops) else old(Committed(t.db))
    ensures commit ==> InTurn(old(Committed(t.db)), extract, qs, ops)
    ensures old(Numbered(Committed(t.db))) && (forall q <- qs :: !GivesNumber(q)) ==> Numbered(Committed(t.db))
  {
    hide Compare, Sorted, Agrees, Effects, NoneThrows, ApplyAll, Committed, Current, Numbered, GivesNumber, InTurn;
    ghost var v0 := Committed(t.db);
    if commit {
      AllInTurn(v0, extract, qs);
      EffectsAgree(Committed(t.db), extract, qs);
      if Numbered(Committed(t.db)) && forall q <- qs :: !GivesNumber(q) {
        EffectsKeepNumbered(Committed(t.db), extract, qs);
      }
    }
    t.Run(ops, commit);
  }
}
