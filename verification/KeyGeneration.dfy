/** Where the key of a new record comes from (section 2.11 of Indexed Database API 2.0), and why a generated key is
    new. */
module KeyGeneration {
  import opened Options
  import opened Keys
  import opened SortedMap

  /** What is found in a value at the key path of a store. */
  datatype InlineKey = Undefined | IsKey(key: Key) | NotKey

  /** How a store with in-line keys reads a key out of a value and puts one in. */
  datatype KeyPath<!V(!new)> = KeyPath(read: V -> InlineKey, write: (V, real) -> Option<V>)

  /** A key that was put in is the key that is read. */
  ghost predicate Lawful<V(!new)>(keyPath: KeyPath<V>) {
    forall v, n ::
      keyPath.read(v) == Undefined && keyPath.write(v, n).Some? ==>
      keyPath.read(keyPath.write(v, n).value) == IsKey(Number(n))
  }

  datatype StoreKey<V> =
    | Made(key: Key, value: V, updatedKeyGenerator: real)
    | DataError
    | CannotInject
    /** The key is not checked in this row; updatedKeyGenerator is the generator as it was. */
    | NoKeyMade(updatedKeyGenerator: real)

  /** The decision table on having a key, having a key path, and generating keys. */
  function MakeStoreKeyValue<V(!new)>(
      value: V, key: Option<Key>, generator: real, autoIncrement: bool, keyPath: Option<KeyPath<V>>): StoreKey<V> {
    match (key, keyPath, autoIncrement)
    case (Some(_), Some(_), _) => DataError
    case (Some(k), None, true) => Made(k, value, if k.Number? then k.value else generator)
    case (Some(k), None, false) => Made(k, value, generator)
    case (None, Some(kp), true) => (
      match kp.read(value)
      case Undefined =>
        var injected := kp.write(value, generator);
        if injected.None? then CannotInject else Made(Number(generator), injected.value, generator + 1.0)
      case IsKey(k) => Made(k, value, if k.Number? && k.value >= generator then k.value + 1.0 else generator)
      case NotKey => NoKeyMade(generator))
    case (None, Some(kp), false) => (
      match kp.read(value)
      case IsKey(k) => Made(k, value, generator)
      case _ => DataError)
    case (None, None, true) => Made(Number(generator), value, generator + 1.0)
    case (None, None, false) => DataError
  }

  /** The row in which the generator is set to the key itself. */
  predicate ExplicitNumber<V(!new)>(key: Option<Key>, autoIncrement: bool, keyPath: Option<KeyPath<V>>) {
    autoIncrement && keyPath.None? && key.Some? && key.value.Number?
  }

  /** The rows in which the key is the generator's. */
  predicate Generates<V(!new)>(value: V, key: Option<Key>, autoIncrement: bool, keyPath: Option<KeyPath<V>>) {
    autoIncrement && key.None? && (keyPath.Some? ==> keyPath.value.read(value).Undefined?)
  }

  /** Every number among the keys is below the generator. */
  ghost predicate Fresh<V(!new)>(data: Map<V>, generator: real) {
    forall n :: generator <= n ==> Get(data, Number(n)).None?
  }

  lemma FreshWith<V(!new)>(data: Map<V>, key: Key, value: V, generator: real)
    ensures Fresh(With(data, key, value), generator) <==>
      Fresh(data, generator) && (key.Number? ==> key.value < generator)
  {
    var after := With(data, key, value);
    forall n ensures Get(after, Number(n)).None? <==> Get(data, Number(n)).None? && key != Number(n) {
      GetWith(data, key, value, Number(n));
    }
    if key.Number? {
      GetWith(data, key, value, key);
    }
  }

  lemma FreshWithout<V(!new)>(data: Map<V>, key: Key, generator: real)
    requires Fresh(data, generator)
    ensures Fresh(Without(data, key), generator)
  {
    forall n ensures Get(Without(data, key), Number(n)).None? <== Get(data, Number(n)).None? {
      GetWithout(data, key, Number(n));
    }
  }

  /** Every row but one keeps the numbers below the generator, whether or not the record is then stored. */
  lemma TableKeepsFresh<V(!new)>(
      data: Map<V>, value: V, key: Option<Key>, generator: real, autoIncrement: bool, keyPath: Option<KeyPath<V>>)
    requires autoIncrement && Fresh(data, generator)
    requires MakeStoreKeyValue(value, key, generator, autoIncrement, keyPath).Made?
    ensures var made := MakeStoreKeyValue(value, key, generator, autoIncrement, keyPath);
      && (ExplicitNumber(key, autoIncrement, keyPath) <==>
        !Fresh(With(data, made.key, made.value), made.updatedKeyGenerator))
      && (!ExplicitNumber(key, autoIncrement, keyPath) ==>
        Fresh(data, made.updatedKeyGenerator) && made.updatedKeyGenerator >= generator)
      && (Generates(value, key, autoIncrement, keyPath) ==> (
        made.key == Number(generator) && Get(data, made.key).None? && made.updatedKeyGenerator == generator + 1.0))
  {
    var made := MakeStoreKeyValue(value, key, generator, autoIncrement, keyPath);
    FreshWith(data, made.key, made.value, made.updatedKeyGenerator);
  }

  /** In a store with in-line keys, the value that is stored has the key that it is stored under. */
  lemma InlineKeyIsKey<V(!new)>(
      value: V, key: Option<Key>, generator: real, autoIncrement: bool, keyPath: Option<KeyPath<V>>)
    requires keyPath.Some? && Lawful(keyPath.value)
    requires MakeStoreKeyValue(value, key, generator, autoIncrement, keyPath).Made?
    ensures var made := MakeStoreKeyValue(value, key, generator, autoIncrement, keyPath);
      keyPath.value.read(made.value) == IsKey(made.key)
  {
    if Generates(value, key, autoIncrement, keyPath) {
      assert keyPath.value.write(value, generator).Some?;
    }
  }

  // -------------------------------------------------------------------- stores

  datatype StoreLevel = NoOverwrite | AllowOverwrite | UpdateExisting

  datatype Response =
    | Stored(key: Key)
    | RefusesToOverwrite
    | NoSuchRecord
    | BadData
    | CannotStore

  datatype Op<V> =
    | Store(level: StoreLevel, key: Option<Key>, value: V)
    | Delete(deleted: Key)
    | Clear
    | Commit
    | Rollback

  /** What storing leaves: the data, the generator that the transaction has set, and what is answered. */
  datatype Effect<V> = Effect(data: Map<V>, own: Option<real>, response: Response)

  /** The generator moves on before an existing record makes the operation fail. */
  function StoreEffect<V(!new)>(
      level: StoreLevel, key: Option<Key>, value: V, autoIncrement: bool, keyPath: Option<KeyPath<V>>,
      data: Map<V>, generator: real, own: Option<real>): Effect<V> {
    if level.UpdateExisting? then
      if key.Some? && Get(data, key.value).Some?
      then Effect(With(data, key.value, value), own, Stored(key.value))
      else Effect(data, own, NoSuchRecord)
    else
      match MakeStoreKeyValue(value, key, generator, autoIncrement, keyPath)
      case Made(k, v, g) =>
        if level.NoOverwrite? && Get(data, k).Some? then Effect(data, Some(g), RefusesToOverwrite)
        else Effect(With(data, k, v), Some(g), Stored(k))
      case DataError => Effect(data, own, BadData)
      case CannotInject => Effect(data, own, CannotStore)
      case NoKeyMade(g) => Effect(data, Some(g), CannotStore)
  }

  ghost predicate StoreDoes<V(!new)>(
      level: StoreLevel, key: Option<Key>, value: V, autoIncrement: bool, keyPath: Option<KeyPath<V>>,
      data: Map<V>, generator: real, own: Option<real>, data': Map<V>, own': Option<real>, r: Response) {
    Effect(data', own', r) == StoreEffect(level, key, value, autoIncrement, keyPath, data, generator, own)
  }

  /** A generator that is zero counts as one that has not been set. */
  function Effective(own: Option<real>, committed: real): real {
    if own.Some? && own.value != 0.0 then own.value else committed
  }

  /** The generator that a commit leaves; here zero counts. */
  function Committed(own: Option<real>, committed: real): real {
    if own.Some? then own.value else committed
  }

  ghost predicate SoundGenerator<V(!new)>(data: Map<V>, own: Option<real>, committed: real) {
    && 1.0 <= committed && (own.Some? ==> 1.0 <= own.value)
    && Fresh(data, Effective(own, committed))
  }

  /** Every store operation but those with an explicit number keeps the invariant. */
  lemma OthersKeep<V(!new)>(level: StoreLevel, key: Option<Key>, value: V, keyPath: Option<KeyPath<V>>,
      data: Map<V>, own: Option<real>, committed: real, data': Map<V>, own': Option<real>, r: Response)
    requires level.UpdateExisting? || !ExplicitNumber(key, true, keyPath)
    requires SoundGenerator(data, own, committed)
    requires StoreDoes(level, key, value, true, keyPath, data, Effective(own, committed), own, data', own', r)
    ensures SoundGenerator(data', own', committed) && Effective(own', committed) >= Effective(own, committed)
  {
    hide With, Get, Fresh;
    var generator := Effective(own, committed);
    if level.UpdateExisting? {
      if r.Stored? {
        FreshWith(data, r.key, value, generator);
        UpdateKeepsFresh(data, r.key, generator);
      }
    } else if MakeStoreKeyValue(value, key, generator, true, keyPath).Made? {
      TableKeepsFresh(data, value, key, generator, true, keyPath);
    }
  }

  /** Storing keeps all numbers below the generator if and only if no number is given explicitly for a record, or it is
      zero and no number has come up to the committed generator yet. For the generator is set to the number itself; and
      if that is zero it counts as not set, and the committed one is back. */
  lemma StoreKeepsFreshExactlyWhen<V(!new)>(level: StoreLevel, key: Option<Key>, value: V, keyPath: Option<KeyPath<V>>,
      data: Map<V>, own: Option<real>, committed: real, data': Map<V>, own': Option<real>, r: Response)
    requires SoundGenerator(data, own, committed)
    requires StoreDoes(level, key, value, true, keyPath, data, Effective(own, committed), own, data', own', r)
    ensures Fresh(data', Effective(own', committed)) <==>
      level.UpdateExisting? || !ExplicitNumber(key, true, keyPath) ||
        (key == Some(Number(0.0)) && Fresh(data, committed))
  {
    hide With, Get, StoreDoes, Fresh;
    if level.UpdateExisting? || !ExplicitNumber(key, true, keyPath) {
      OthersKeep(level, key, value, keyPath, data, own, committed, data', own', r);
    } else {
      ExplicitStored(level, key, value, keyPath, data, Effective(own, committed), own, data', own', r);
      var n := key.value.value;
      FreshWith(data, key.value, value, if n == 0.0 then committed else n);
      FreshMember(data, key.value, if n == 0.0 then committed else n);
    }
  }

  lemma ExplicitStored<V(!new)>(level: StoreLevel, key: Option<Key>, value: V, keyPath: Option<KeyPath<V>>,
      data: Map<V>, generator: real, own: Option<real>, data': Map<V>, own': Option<real>, r: Response)
    requires !level.UpdateExisting? && ExplicitNumber(key, true, keyPath)
    requires StoreDoes(level, key, value, true, keyPath, data, generator, own, data', own', r)
    ensures own' == Some(key.value.value)
    ensures (data' == With(data, key.value, value) || (data' == data && Get(data, key.value).Some?))
  {
  }

  /** A key that is there is below the generator. */
  lemma FreshMember<V(!new)>(data: Map<V>, key: Key, generator: real)
    requires key.Number?
    ensures Fresh(data, generator) && Get(data, key).Some? ==> key.value < generator
  {
    hide Get;
    assert key == Number(key.value);
  }

  /** A generated key is new: the record is stored, whatever the level, and the generator moves on. */
  lemma GeneratedIsNew<V(!new)>(level: StoreLevel, key: Option<Key>, value: V, keyPath: Option<KeyPath<V>>,
      data: Map<V>, own: Option<real>, committed: real, data': Map<V>, own': Option<real>, r: Response)
    requires !level.UpdateExisting? && Generates(value, key, true, keyPath) && SoundGenerator(data, own, committed)
    requires StoreDoes(level, key, value, true, keyPath, data, Effective(own, committed), own, data', own', r)
    ensures r == CannotStore || (r == Stored(Number(Effective(own, committed))) && Get(data, r.key).None? &&
      Get(data', r.key).Some?)
    ensures r.Stored? ==> Effective(own', committed) > Effective(own, committed)
  {
    hide With, Get, Fresh;
    var generator := Effective(own, committed);
    var made := MakeStoreKeyValue(value, key, generator, true, keyPath);
    if made.Made? {
      TableKeepsFresh(data, value, key, generator, true, keyPath);
      GetWith(data, made.key, made.value, made.key);
    }
  }

  /** After a record has been stored under a number that was given explicitly, the next generated key is that very
      number: adding fails, and putting replaces the record. If the number is zero that is so once the transaction has
      committed. */
  lemma ExplicitCollides<V(!new)>(
      level: StoreLevel, key: Option<Key>, value: V, data: Map<V>, own: Option<real>, committed: real,
      data': Map<V>, own': Option<real>, r: Response, commits: bool, again: StoreLevel, next: V, data'': Map<V>,
        own'': Option<real>, r': Response)
    requires !level.UpdateExisting? && ExplicitNumber<V>(key, true, None) && (key.value.value != 0.0 || commits)
    requires !again.UpdateExisting?
    requires StoreDoes(level, key, value, true, None, data, Effective(own, committed), own, data', own', r)
    requires var committed' := if commits then Committed(own', committed) else committed;
      StoreDoes(again, None, next, true, None, data', Effective(own', committed'), own', data'', own'', r')
    ensures again.NoOverwrite? ==> r' == RefusesToOverwrite && data'' == data'
    ensures again.AllowOverwrite? ==>
      r' == Stored(key.value) && Get(data', key.value).Some? && Get(data'', key.value) == Some(next)
  {
    hide With, Get;
    GetWith(data, key.value, value, key.value);
    GetWith(data', key.value, next, key.value);
  }

  lemma UpdateKeepsFresh<V(!new)>(data: Map<V>, key: Key, generator: real)
    requires Fresh(data, generator) && Get(data, key).Some?
    ensures key.Number? ==> key.value < generator
  {
  }

  /** Numbers that a generator has given out on its way from the first to the last value, each once. */
  ghost predicate Increasing(s: seq<real>, first: real, last: real) {
    && first <= last
    && (forall n <- s :: first <= n < last)
    && (forall i, j :: 0 <= i < j < |s| ==> s[i] < s[j])
  }

  lemma Unmoved(generator: real)
    ensures Increasing([], generator, generator)
  {
  }

  lemma OneMore(s: seq<real>, first: real, before: real, after: real, g: Option<real>)
    requires Increasing(s, first, before) && before <= after && (g.Some? ==> g.value == before < after)
    ensures Increasing(if g.Some? then s + [g.value] else s, first, after)
  {
    var t := if g.Some? then s + [g.value] else s;
    forall n | n in t ensures first <= n < after {
      assert n in s || (g.Some? && n == g.value);
    }
    forall i, j | 0 <= i < j < |t| ensures t[i] < t[j] {
      assert s[i] in s;
    }
  }

  // --------------------------------------------------------- runs of operations

  /** The records and the generator that are committed, the records that the transaction sees, and the generator that it
      has set. */
  datatype Records<V> = Records(committed: Map<V>, committedGenerator: real, data: Map<V>, own: Option<real>)

  function Generator<V>(s: Records<V>): real {
    Effective(s.own, s.committedGenerator)
  }

  function EffectOn<V(!new)>(
      s: Records<V>, op: Op<V>, autoIncrement: bool, keyPath: Option<KeyPath<V>>): (e: Effect<V>)
    requires op.Store?
    ensures StoreDoes(op.level, op.key, op.value, autoIncrement, keyPath, s.data, Generator(s), s.own, e.data, e.own,
      e.response)
  {
    StoreEffect(op.level, op.key, op.value, autoIncrement, keyPath, s.data, Generator(s), s.own)
  }

  function Step<V(!new)>(
      s: Records<V>, op: Op<V>, autoIncrement: bool, keyPath: Option<KeyPath<V>>): Records<V> {
    match op
    case Store(_, _, _) => var e := EffectOn(s, op, autoIncrement, keyPath); s.(data := e.data, own := e.own)
    case Delete(key) => s.(data := Without(s.data, key))
    case Clear => s.(data := [])
    case Commit => s.(committed := s.data, committedGenerator := Committed(s.own, s.committedGenerator))
    case Rollback => s.(data := s.committed, own := None)
  }

  /** The key that the generator gives out for a record that is stored. */
  function GivenOut<V(!new)>(
      s: Records<V>, op: Op<V>, autoIncrement: bool, keyPath: Option<KeyPath<V>>): Option<real> {
    if op.Store? && !op.level.UpdateExisting? && Generates(op.value, op.key, autoIncrement, keyPath) &&
      EffectOn(s, op, autoIncrement, keyPath).response.Stored?
    then Some(Generator(s))
    else None
  }

  /** The state after all of the operations, and the keys given out on the way. */
  function StepAll<V(!new)>(
      s: Records<V>, ops: seq<Op<V>>, autoIncrement: bool, keyPath: Option<KeyPath<V>>): (Records<V>, seq<real>) {
    if |ops| == 0 then (s, [])
    else
      var (t, given) := StepAll(s, ops[..|ops| - 1], autoIncrement, keyPath);
      var g := GivenOut(t, ops[|ops| - 1], autoIncrement, keyPath);
      (Step(t, ops[|ops| - 1], autoIncrement, keyPath), if g.Some? then given + [g.value] else given)
  }

  /** What an operation leaves: a deletion takes out the one key and clearing all of them, and neither touches the
      generator; a commit makes what the transaction sees the committed state, and a rollback goes back to that. */
  lemma StepLeaves<V(!new)>(s: Records<V>, op: Op<V>, autoIncrement: bool, keyPath: Option<KeyPath<V>>, k: Key)
    ensures var t := Step(s, op, autoIncrement, keyPath);
      match op
      case Store(level, key, value) =>
        && t.committed == s.committed && t.committedGenerator == s.committedGenerator
        && exists r ::
          StoreDoes(level, key, value, autoIncrement, keyPath, s.data, Generator(s), s.own, t.data, t.own, r)
      case Delete(deleted) =>
        && Get(t.data, k) == (if k == deleted then None else Get(s.data, k))
        && t.committed == s.committed && t.own == s.own && t.committedGenerator == s.committedGenerator
      case Clear =>
        && Get(t.data, k) == None
        && t.committed == s.committed && t.own == s.own && t.committedGenerator == s.committedGenerator
      case Commit =>
        && t.data == t.committed == s.data && t.own == s.own
        && t.committedGenerator == if s.own.Some? then s.own.value else s.committedGenerator
      case Rollback =>
        t.data == t.committed == s.committed && t.own == None && t.committedGenerator == s.committedGenerator
  {
    hide Without, Get, StoreEffect;
    if op.Delete? {
      GetWithout(s.data, op.deleted, k);
    } else if op.Clear? {
      GetFromEmpty<V>(k);
    }
  }

  /** A number is given out when, without a key, a record is stored under the number that the generator stands at. */
  lemma GivenOutExactlyWhen<V(!new)>(s: Records<V>, op: Op<V>, autoIncrement: bool, keyPath: Option<KeyPath<V>>)
    requires op.Store?
    ensures var t, g := Step(s, op, autoIncrement, keyPath), Generator(s);
      GivenOut(s, op, autoIncrement, keyPath) ==
        if autoIncrement && !op.level.UpdateExisting? && op.key.None?
          && (keyPath.Some? ==> keyPath.value.read(op.value).Undefined?)
          && StoreDoes(op.level, None, op.value, true, keyPath, s.data, g, s.own, t.data, t.own, Stored(Number(g)))
        then Some(g) else None
  {
    hide With, Get;
  }

  lemma OneMoreStep<V(!new)>(
      s: Records<V>, ops: seq<Op<V>>, op: Op<V>, autoIncrement: bool, keyPath: Option<KeyPath<V>>)
    ensures var (t, given) := StepAll(s, ops, autoIncrement, keyPath);
      var g := GivenOut(t, op, autoIncrement, keyPath);
      StepAll(s, ops + [op], autoIncrement, keyPath) ==
        (Step(t, op, autoIncrement, keyPath), if g.Some? then given + [g.value] else given)
  {
    hide Step, GivenOut;
    assert (ops + [op])[..|ops|] == ops;
  }

  /** The operation is of the row in which the generator is set to the key itself. */
  predicate Explicit<V(!new)>(op: Op<V>, autoIncrement: bool, keyPath: Option<KeyPath<V>>) {
    op.Store? && !op.level.UpdateExisting? && ExplicitNumber(op.key, autoIncrement, keyPath)
  }

  /** Both what is committed and what the transaction sees have all numbers below the generator. */
  ghost predicate Sound<V(!new)>(s: Records<V>) {
    && SoundGenerator(s.committed, Some(s.committedGenerator), s.committedGenerator)
    && SoundGenerator(s.data, s.own, s.committedGenerator)
  }

  /** Every operation but those with an explicit number keeps that, and none but a rollback lets the generator go back.
      A key that is given out was not there, is there then, and is below the generator from then on. */
  lemma StepKeepsSound<V(!new)>(s: Records<V>, op: Op<V>, keyPath: Option<KeyPath<V>>)
    requires Sound(s) && !Explicit(op, true, keyPath)
    ensures var t, g := Step(s, op, true, keyPath), GivenOut(s, op, true, keyPath);
      && Sound(t)
      && (!op.Rollback? ==> Generator(s) <= Generator(t))
      && (g.Some? ==>
          && g.value == Generator(s) < Generator(t)
          && Get(s.data, Number(g.value)).None? && Get(t.data, Number(g.value)).Some?)
  {
    hide StoreEffect, StoreDoes, With, Without, Get, Generates, Fresh;
    match op {
      case Store(level, key, value) =>
        var e := EffectOn(s, op, true, keyPath);
        OthersKeep(level, key, value, keyPath, s.data, s.own, s.committedGenerator, e.data, e.own, e.response);
        if !level.UpdateExisting? && Generates(value, key, true, keyPath) {
          GeneratedIsNew(level, key, value, keyPath, s.data, s.own, s.committedGenerator, e.data, e.own, e.response);
        }
      case Delete(key) =>
        FreshWithout(s.data, key, Generator(s));
      case Clear =>
        EmptyIsFresh<V>(Generator(s));
      case Commit =>
      case Rollback =>
    }
  }

  lemma EmptyIsFresh<V(!new)>(generator: real)
    ensures Fresh<V>([], generator)
  {
  }

  /** No run gives out a generated key twice, unless a transaction is rolled back in between: not even for records that
      have been deleted. */
  lemma GivenOutOnce<V(!new)>(s: Records<V>, ops: seq<Op<V>>, keyPath: Option<KeyPath<V>>)
    requires Sound(s) && forall op <- ops :: !Explicit(op, true, keyPath)
    ensures var (t, given) := StepAll(s, ops, true, keyPath);
      && Sound(t)
      && ((forall op <- ops :: !op.Rollback?) ==>
          && (forall i, j :: 0 <= i < j < |given| ==> given[i] < given[j])
          && (forall n <- given :: Generator(s) <= n < Generator(t)))
  {
    hide Sound, Generator, StepAll, Explicit;
    GivenOutInOrder(s, ops, keyPath);
  }

  lemma {:induction false} GivenOutInOrder<V(!new)>(s: Records<V>, ops: seq<Op<V>>, keyPath: Option<KeyPath<V>>)
    requires Sound(s) && forall op <- ops :: !Explicit(op, true, keyPath)
    ensures var (t, given) := StepAll(s, ops, true, keyPath);
      && Sound(t)
      && ((forall op <- ops :: !op.Rollback?) ==>
          Increasing(given, Generator(s), Generator(t)))
  {
    hide Sound, Generator, Step, GivenOut, Explicit, Increasing;
    if |ops| == 0 {
      Unmoved(Generator(s));
    } else {
      var rest, op := ops[..|ops| - 1], ops[|ops| - 1];
      GivenOutInOrder(s, rest, keyPath);
      var (t, given) := StepAll(s, rest, true, keyPath);
      StepKeepsSound(t, op, keyPath);
      if forall op <- ops :: !op.Rollback? {
        OneMore(given, Generator(s), Generator(t), Generator(Step(t, op, true, keyPath)),
          GivenOut(t, op, true, keyPath));
      }
    }
  }

  class ObjectStore<V(!new)> {
    const autoIncrement: bool
    const keyPath: Option<KeyPath<V>>
    var originalData: Map<V>
    var modifiedData: Option<Map<V>>
    var originalKeyGenerator: real
    var modifiedKeyGenerator: Option<real>

    function Data(): Map<V>
      reads this
    {
      if modifiedData.Some? then modifiedData.value else originalData
    }

    function KeyGenerator(): real
      reads this
    {
      Effective(modifiedKeyGenerator, originalKeyGenerator)
    }

    function Now(): Records<V>
      reads this
    {
      Records(originalData, originalKeyGenerator, Data(), modifiedKeyGenerator)
    }

    ghost predicate Valid()
      reads this
    {
      autoIncrement ==> Sound(Now())
    }

    constructor (autoIncrement: bool, keyPath: Option<KeyPath<V>>)
      ensures Valid() && Data() == [] && KeyGenerator() == 1.0
      ensures this.autoIncrement == autoIncrement && this.keyPath == keyPath
    {
      this.autoIncrement, this.keyPath := autoIncrement, keyPath;
      originalData, modifiedData, originalKeyGenerator, modifiedKeyGenerator := [], None, 1.0, None;
    }

    /** storeRecord. An update changes a record that is there. Otherwise the record is stored under the key that is
        given, or read from the value at the key path, or generated, unless a record that has that key may not be
        overwritten; a key that is given does not go with a key path, and without a key and a generator there is none.
        All other records stay. The generator has been moved on before an existing record makes the operation fail. */
    method StoreRecord(level: StoreLevel, key: Option<Key>, value: V) returns (r: Response)
      modifies this`modifiedData, this`modifiedKeyGenerator
      ensures level.UpdateExisting? ==>
        if key.Some? && Get(old(Data()), key.value).Some?
        then r == Stored(key.value) && Get(Data(), key.value) == Some(value)
        else r == NoSuchRecord
      ensures !level.UpdateExisting? && key.Some? ==>
        if keyPath.Some? then r == BadData
        else if level.NoOverwrite? && Get(old(Data()), key.value).Some? then r == RefusesToOverwrite
        else r == Stored(key.value) && Get(Data(), key.value) == Some(value)
      ensures !level.UpdateExisting? && key.None? && keyPath.Some? ==>
        match keyPath.value.read(value)
        case IsKey(k) =>
          if level.NoOverwrite? && Get(old(Data()), k).Some? then r == RefusesToOverwrite
          else r == Stored(k) && Get(Data(), k) == Some(value)
        case NotKey => r == if autoIncrement then CannotStore else BadData
        case Undefined =>
          var k, injected := Number(old(KeyGenerator())), keyPath.value.write(value, old(KeyGenerator()));
          if !autoIncrement then r == BadData
          else if injected.None? then r == CannotStore
          else if level.NoOverwrite? && Get(old(Data()), k).Some? then r == RefusesToOverwrite
          else r == Stored(k) && Get(Data(), k) == injected
      ensures !level.UpdateExisting? && key.None? && keyPath.None? ==>
        var k := Number(old(KeyGenerator()));
        if !autoIncrement then r == BadData
        else if level.NoOverwrite? && Get(old(Data()), k).Some? then r == RefusesToOverwrite
        else r == Stored(k) && Get(Data(), k) == Some(value)
      ensures if r.Stored? then forall k :: k != r.key ==> Get(Data(), k) == Get(old(Data()), k)
        else Data() == old(Data())
      ensures
        if level.UpdateExisting? || r == BadData ||
          (r == CannotStore && keyPath.Some? && keyPath.value.read(value).Undefined?)
        then modifiedKeyGenerator == old(modifiedKeyGenerator)
        else modifiedKeyGenerator == var g := old(KeyGenerator()); Some(
          if !autoIncrement then g
          else if key.Some? then (if key.value.Number? then key.value.value else g)
          else if keyPath.None? || keyPath.value.read(value).Undefined? then g + 1.0
          else
            match keyPath.value.read(value)
            case IsKey(Number(n)) => if n >= g then n + 1.0 else g
            case _ => g)
      ensures StoreDoes(level, key, value, autoIncrement, keyPath, old(Data()), old(KeyGenerator()),
        old(modifiedKeyGenerator),
        Data(), modifiedKeyGenerator, r)
    {
      hide With, Get;
      ghost var data := Data();
      if modifiedData.None? {
        modifiedData := Some(originalData);
      }
      if level.UpdateExisting? {
        if key.None? || Get(modifiedData.value, key.value).None? {
          return NoSuchRecord;
        }
        modifiedData := Some(With(modifiedData.value, key.value, value));
        forall x { GetWith(data, key.value, value, x); }
        return Stored(key.value);
      }
      match MakeStoreKeyValue(value, key, KeyGenerator(), autoIncrement, keyPath) {
        case DataError =>
          return BadData;
        case CannotInject =>
          return CannotStore;
        case NoKeyMade(g) =>
          modifiedKeyGenerator := Some(g);
          return CannotStore;
        case Made(k, v, g) =>
          modifiedKeyGenerator := Some(g);
          if level.NoOverwrite? && Get(modifiedData.value, k).Some? {
            return RefusesToOverwrite;
          }
          modifiedData := Some(With(modifiedData.value, k, v));
          forall x { GetWith(data, k, v, x); }
          return Stored(k);
      }
    }

    /** All numbers stay below the generator, unless a number is given explicitly for a record, and is not a zero that
        finds the committed generator above all numbers. */
    method StoreChecked(level: StoreLevel, key: Option<Key>, value: V) returns (r: Response)
      requires Valid()
      modifies this`modifiedData, this`modifiedKeyGenerator
      ensures autoIncrement ==> (Fresh(Data(), KeyGenerator()) <==>
        !Explicit(Store(level, key, value), autoIncrement, keyPath) ||
          (key == Some(Number(0.0)) && Fresh(old(Data()), originalKeyGenerator)))
      ensures !Explicit(Store(level, key, value), autoIncrement, keyPath) ==> Valid()
      ensures autoIncrement && !Explicit(Store(level, key, value), autoIncrement, keyPath) ==>
        KeyGenerator() >= old(KeyGenerator())
      ensures !level.UpdateExisting? && Generates(value, key, autoIncrement, keyPath) && r != CannotStore ==> (
        && r == Stored(Number(old(KeyGenerator()))) && KeyGenerator() > old(KeyGenerator())
        && Get(old(Data()), r.key).None? && Get(Data(), r.key).Some?)
    {
      hide StoreDoes, SoundGenerator, With, Get, Generates, Fresh;
      ghost var data, own := Data(), modifiedKeyGenerator;
      r := StoreRecord(level, key, value);
      if autoIncrement {
        StoreKeepsFreshExactlyWhen(level, key, value, keyPath, data, own, originalKeyGenerator, Data(),
          modifiedKeyGenerator, r);
        if !Explicit(Store(level, key, value), autoIncrement, keyPath) {
          OthersKeep(level, key, value, keyPath, data, own, originalKeyGenerator, Data(), modifiedKeyGenerator, r);
        }
        if !level.UpdateExisting? && Generates(value, key, autoIncrement, keyPath) {
          GeneratedIsNew(level, key, value, keyPath, data, own, originalKeyGenerator, Data(), modifiedKeyGenerator, r);
        }
      } else {
        NotGenerated(value, key, keyPath);
      }
    }

    method DeleteRecord(key: Key)
      modifies this`modifiedData
      ensures Now() == old(Now()).(data := Without(old(Data()), key))
    {
      modifiedData := Some(Without(Data(), key));
    }

    method ClearStore()
      modifies this`modifiedData
      ensures Now() == old(Now()).(data := [])
    {
      modifiedData := Some([]);
    }

    method CommitStore()
      modifies this
      ensures Now() == old(Now()).(committed := old(Data()),
        committedGenerator := Committed(old(modifiedKeyGenerator), old(originalKeyGenerator)))
    {
      originalData := Data();
      originalKeyGenerator := Committed(modifiedKeyGenerator, originalKeyGenerator);
    }

    method RollbackStore()
      modifies this
      ensures Now() == old(Now()).(data := old(originalData), own := None)
    {
      modifiedData, modifiedKeyGenerator := None, None;
    }

    method Apply(op: Op<V>) returns (generated: Option<real>)
      modifies this
      ensures Now() == Step(old(Now()), op, autoIncrement, keyPath)
      ensures generated == GivenOut(old(Now()), op, autoIncrement, keyPath)
    {
      hide StoreEffect, With, Without, Get, Generates;
      generated := None;
      match op {
        case Store(level, key, value) =>
          var generator := KeyGenerator();
          var r := StoreRecord(level, key, value);
          if !level.UpdateExisting? && Generates(value, key, autoIncrement, keyPath) && r.Stored? {
            generated := Some(generator);
          }
        case Delete(key) =>
          DeleteRecord(key);
        case Clear =>
          ClearStore();
        case Commit =>
          CommitStore();
        case Rollback =>
          RollbackStore();
      }
    }

    /** Any operations: the store is what all of them make of it, and the keys given out are theirs. */
    method Run(ops: seq<Op<V>>) returns (generated: seq<real>)
      modifies this
      ensures (Now(), generated) == StepAll(old(Now()), ops, autoIncrement, keyPath)
      ensures old(Valid()) && (forall op <- ops :: !Explicit(op, autoIncrement, keyPath)) ==>
        && Valid()
        && (autoIncrement && (forall op <- ops :: !op.Rollback?) ==>
            && (forall i, j :: 0 <= i < j < |generated| ==> generated[i] < generated[j])
            && (forall n <- generated :: old(KeyGenerator()) <= n < KeyGenerator()))
    {
      hide Step, GivenOut, Sound, Explicit, Increasing;
      generated := [];
      for i := 0 to |ops|
        invariant (Now(), generated) == StepAll(old(Now()), ops[..i], autoIncrement, keyPath)
      {
        assert ops[..i + 1][..i] == ops[..i];
        var g := Apply(ops[i]);
        generated := if g.Some? then generated + [g.value] else generated;
      }
      assert ops[..|ops|] == ops;
      if autoIncrement && old(Valid()) && forall op <- ops :: !Explicit(op, autoIncrement, keyPath) {
        GivenOutOnce(old(Now()), ops, keyPath);
      }
    }
  }

  lemma NotGenerated<V(!new)>(value: V, key: Option<Key>, keyPath: Option<KeyPath<V>>)
    ensures !Generates(value, key, false, keyPath)
  {
  }
}
