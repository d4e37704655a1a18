/** Reads that go by one key per step: an object store in key order, and the keys of an index without repetition
    (getRecords without an index, direction "next", and with an index, direction "nextunique"). */
module KeyQueries {
  import opened Options
  import opened SortedPairs
  import opened Keys
  import opened KeyRanges
  import opened Filtering
  import opened SortedMap
  import IndexQueries
  import TreeDelete

  /** In the range, after the last key, and at or past the key to advance to. */
  predicate WantedKey(k: Key, range: KeyRange, last: Option<Key>, advance: Option<Key>) {
    && Includes(range, k)
    && (last.None? || Compare(last.value, k) < 0)
    && (advance.None? || Compare(k, advance.value) >= 0)
  }

  function KeyMatches<V>(data: Map<V>, range: KeyRange, last: Option<Key>, advance: Option<Key>): seq<Pair<Key, V>> {
    Filter(data, (p: Pair<Key, V>) => WantedKey(p.key, range, last, advance))
  }

  function From<V>(data: Map<V>, range: KeyRange, i: nat): seq<Pair<Key, V>>
    requires i <= |data|
  {
    Filter(data[i..], (p: Pair<Key, V>) => Includes(range, p.key))
  }

  /** Where what is wanted begins, everything in the range is wanted. */
  lemma MatchesFrom<V>(data: Map<V>, range: KeyRange, last: Option<Key>, advance: Option<Key>, i: nat)
    requires i <= |data|
    requires forall j :: 0 <= j < i ==> !WantedKey(data[j].key, range, last, advance)
    requires forall j ::
      i <= j < |data| ==> WantedKey(data[j].key, range, last, advance) == Includes(range, data[j].key)
    ensures KeyMatches(data, range, last, advance) == From(data, range, i)
  {
    hide Includes, Compare, Filter, WantedKey;
    var p, q := (p: Pair<Key, V>) => WantedKey(p.key, range, last, advance), (p: Pair<Key, V>) =>
      Includes(range, p.key);
    forall x | x in data[..i] ensures !p(x) {
      var j := IndexQueries.IndexOf(data[..i], x);
    }
    forall x | x in data[i..] ensures p(x) == q(x) {
      var j := IndexQueries.IndexOf(data[i..], x);
      assert data[i + j] == x;
    }
    FilterNone(data[..i], p);
    FilterSame(data[i..], p, q);
    FilterConcat(data[..i], data[i..], p);
    assert data == data[..i] + data[i..];
  }

  lemma FromStep<V>(data: Map<V>, range: KeyRange, i: nat)
    requires i < |data|
    ensures Includes(range, data[i].key) ==> From(data, range, i) == [data[i]] + From(data, range, i + 1)
    ensures AboveLower(range, data[i].key) && !Includes(range, data[i].key) ==> From(data, range, i) == []
  {
    hide Compare, AboveLower, BelowUpper;
    assert data[i..][1..] == data[i + 1..];
    if AboveLower(range, data[i].key) && !Includes(range, data[i].key) {
      CompareOpposite(data[i].key, data[i].key);
      forall x | x in data[i..] ensures !Includes(range, x.key) {
        var j := IndexQueries.IndexOf(data[i..], x);
        if j > 0 {
          IndexQueries.KeysAscend(data, i, i + j);
        }
        RangeIsInterval(range, data[i].key, data[i].key, x.key);
      }
      FilterNone(data[i..], (p: Pair<Key, V>) => Includes(range, p.key));
    }
  }

  lemma FromEnd<V>(data: Map<V>, range: KeyRange)
    ensures From(data, range, |data|) == []
  {
  }

  // ------------------------------------------------------------ object store

  /** The later of two positions, going forward. */
  function FurthestKey(a: Option<Key>, b: Option<Key>): Option<Key> {
    if a.None? then b
    else if b.None? then a
    else if Compare(a.value, b.value) >= 0 then a else b
  }

  /** Where the first record to be read is: past the last one, and at or past the starting key. */
  ghost function StartIndex<V>(data: Map<V>, range: KeyRange, last: Option<Key>, advance: Option<Key>): (i: nat)
    ensures i <= |data|
  {
    var start := FurthestKey(advance, if last.Some? then last else range.lower);
    if start.None? then 0
    else if last == start then PlaceAfter(Compare, data, start.value)
    else Place(Compare, data, start.value)
  }

  /** A first read from an open lower bound that is itself a key ends at once. */
  predicate StopsAtBound<V>(data: Map<V>, range: KeyRange, last: Option<Key>, advance: Option<Key>) {
    && last.None? && range.lower.Some? && range.lowerOpen
    && (advance.None? || Compare(advance.value, range.lower.value) <= 0)
    && Get(data, range.lower.value).Some?
  }

  lemma Furthest(a: Option<Key>, b: Option<Key>)
    ensures var f := FurthestKey(a, b);
      && (f == a || f == b) && (f.None? <==> a.None? && b.None?)
      && (a.Some? ==> Compare(a.value, f.value) <= 0) && (b.Some? ==> Compare(b.value, f.value) <= 0)
      && (a.Some? && b.Some? && f != b ==> Compare(b.value, f.value) < 0)
  {
    hide Compare;
    if a.Some? {
      CompareOpposite(a.value, a.value);
    }
    if b.Some? {
      CompareOpposite(b.value, b.value);
      if a.Some? {
        CompareOpposite(a.value, b.value);
      }
    }
  }

  /** Behind the start every key is below it, or at the last key; ahead of it every key is at or above it, and above the
      last key. */
  lemma AroundStart<V>(data: Map<V>, range: KeyRange, last: Option<Key>, advance: Option<Key>, start: Key, j: nat)
    requires FurthestKey(advance, if last.Some? then last else range.lower) == Some(start) && j < |data|
    ensures j < StartIndex(data, range, last, advance) ==>
      Compare(data[j].key, start) < 0 || (data[j].key == start && last == Some(start))
    ensures j >= StartIndex(data, range, last, advance) ==>
      Compare(start, data[j].key) <= 0 && (last == Some(start) ==> Compare(start, data[j].key) < 0)
  {
    hide Compare, Place;
    CompareIsTotalOrder();
    CompareOpposite(start, data[j].key);
    TreeDelete.PlaceSplits(Compare, data, start, j);
  }

  lemma StartWanted<V>(data: Map<V>, range: KeyRange, last: Option<Key>, advance: Option<Key>, j: nat)
    requires j < |data|
    ensures j < StartIndex(data, range, last, advance) ==> !WantedKey(data[j].key, range, last, advance)
    ensures j >= StartIndex(data, range, last, advance) ==>
      WantedKey(data[j].key, range, last, advance) == Includes(range, data[j].key)
  {
    hide Compare, Place, StartIndex, FurthestKey;
    var from := if last.Some? then last else range.lower;
    var start := FurthestKey(advance, from);
    Furthest(advance, from);
    if start.Some? {
      var k := data[j].key;
      AroundStart(data, range, last, advance, start.value, j);
      CompareOpposite(start.value, k);
      if advance.Some? {
        CompareOpposite(advance.value, k);
        Transitive(advance.value, start.value, if Compare(start.value, k) <= 0 then k else start.value);
      }
      if from.Some? {
        CompareOpposite(from.value, k);
        Transitive(from.value, start.value, if Compare(start.value, k) <= 0 then k else start.value);
      }
    } else {
      StartsAtFirst(data, range, last, advance);
    }
  }

  lemma StartsAtFirst<V>(data: Map<V>, range: KeyRange, last: Option<Key>, advance: Option<Key>)
    requires FurthestKey(advance, if last.Some? then last else range.lower).None?
    ensures StartIndex(data, range, last, advance) == 0
  {
  }

  lemma MatchesFromStart<V>(data: Map<V>, range: KeyRange, last: Option<Key>, advance: Option<Key>)
    ensures KeyMatches(data, range, last, advance) == From(data, range, StartIndex(data, range, last, advance))
  {
    hide StartIndex, WantedKey, Includes;
    var i := StartIndex(data, range, last, advance);
    forall j | 0 <= j < i ensures !WantedKey(data[j].key, range, last, advance) {
      StartWanted(data, range, last, advance, j);
    }
    forall j | i <= j < |data| ensures WantedKey(data[j].key, range, last, advance) == Includes(range, data[j].key) {
      StartWanted(data, range, last, advance, j);
    }
    MatchesFrom(data, range, last, advance, i);
  }

  /** The first record to be looked at is above the lower bound, unless it sits on an open one. */
  lemma StartAboveLower<V>(data: Map<V>, range: KeyRange, last: Option<Key>, advance: Option<Key>)
    requires StartIndex(data, range, last, advance) < |data|
    requires last.Some? ==> Includes(range, last.value)
    ensures AboveLower(range, data[StartIndex(data, range, last, advance)].key) <==>
      !StopsAtBound(data, range, last, advance)
  {
    hide Compare, Place, StartIndex, FurthestKey, BelowUpper;
    var i := StartIndex(data, range, last, advance);
    var from := if last.Some? then last else range.lower;
    var start := FurthestKey(advance, from);
    Furthest(advance, from);
    if from.Some? {
      var k := data[i].key;
      AroundStart(data, range, last, advance, start.value, i);
      Transitive(from.value, start.value, k);
      CompareOpposite(from.value, k);
      CompareOpposite(k, k);
      if last.Some? {
        RangeIsInterval(range, last.value, k, k);
      } else {
        StartAtBound(data, range, advance, i);
      }
    }
  }

  /** The search starts on the lower bound exactly when nothing moves it further and the bound is a key. */
  lemma StartAtBound<V>(data: Map<V>, range: KeyRange, advance: Option<Key>, i: nat)
    requires range.lower.Some? && i == StartIndex(data, range, None, advance) < |data|
    ensures data[i].key == range.lower.value <==>
      (advance.None? || Compare(advance.value, range.lower.value) <= 0) && Get(data, range.lower.value).Some?
  {
    hide Compare, Place;
    var lower := range.lower.value;
    CompareOpposite(lower, data[i].key);
    CompareOpposite(data[i].key, lower);
    if advance.Some? {
      CompareOpposite(advance.value, lower);
      CompareOpposite(advance.value, data[i].key);
      AroundStart(data, range, None, advance, FurthestKey(advance, range.lower).value, i);
    }
  }

  /** The records that a read answers with. */
  function AnsweredKeys<V>(
      data: Map<V>, range: KeyRange, last: Option<Key>, advance: Option<Key>, limit: nat): seq<Pair<Key, V>> {
    if StopsAtBound(data, range, last, advance) then [] else Take(KeyMatches(data, range, last, advance), limit)
  }

  /** getRecords on an object store, forward; a limit of 0 stands for no limit. */
  method GetFromStore<V>(data: Map<V>, range: KeyRange, last: Option<Key>, advance: Option<Key>, limit: nat)
      returns (records: seq<Pair<Key, V>>)
    requires last.Some? ==> Includes(range, last.value)
    ensures records == AnsweredKeys(data, range, last, advance, limit)
  {
    hide Compare, Includes, AboveLower, KeyMatches, StopsAtBound, From;
    var pos := FindStart(data, range, last, advance);
    ghost var i0 := StartIndex(data, range, last, advance);
    MatchesFromStart(data, range, last, advance);
    if i0 < |data| {
      StartAboveLower(data, range, last, advance);
    }
    records := CollectKeys(data, range, pos, limit, i0);
    FromEnd(data, range);
  }

  /** The key of the first record to be read. */
  method FindStart<V>(data: Map<V>, range: KeyRange, last: Option<Key>, advance: Option<Key>)
      returns (storePos: Option<Key>)
    ensures var i := StartIndex(data, range, last, advance);
      storePos == if i < |data| then Some(data[i].key) else None
  {
    hide Compare, Place;
    storePos := if last.Some? then last else range.lower;
    storePos := FurthestKey(advance, storePos);
    if storePos.Some? {
      CompareOpposite(if last.Some? then last.value else storePos.value, storePos.value);
      if Place(Compare, data, storePos.value) < |data| {
        CompareOpposite(data[Place(Compare, data, storePos.value)].key, storePos.value);
      }
      var entry := Get(data, storePos.value);
      if entry.None? || (last.Some? && Compare(last.value, storePos.value) == 0) {
        storePos := NextHigherKey(data, storePos.value);
      }
    } else {
      storePos := MinKey(data);
    }
  }

  method CollectKeys<V>(data: Map<V>, range: KeyRange, start: Option<Key>, limit: nat, ghost i0: nat)
      returns (records: seq<Pair<Key, V>>)
    requires i0 <= |data| && start == if i0 < |data| then Some(data[i0].key) else None
    ensures records == if start.Some? && !AboveLower(range, start.value) then [] else Take(From(data, range, i0), limit)
  {
    hide Compare, Place, AboveLower, BelowUpper, From;
    var storePos := start;
    ghost var i := i0;
    records := [];
    FromEnd(data, range);
    while true
      invariant i0 <= i <= |data| && storePos == if i < |data| then Some(data[i].key) else None
      invariant start.Some? && !AboveLower(range, start.value) ==> records == [] && i == i0
      invariant start.Some? && AboveLower(range, start.value) && storePos.Some? ==> AboveLower(range, storePos.value)
      invariant records + From(data, range, i) == From(data, range, i0) ||
        (start.Some? && !AboveLower(range, start.value))
      invariant limit != 0 ==> |records| <= limit
      decreases |data| - i
    {
      if limit != 0 && |records| == limit {
        break;
      }
      if storePos.None? {
        break;
      }
      FromStep(data, range, i);
      if !Includes(range, storePos.value) {
        break;
      }
      GetAt(data, i);
      var res := Get(data, storePos.value);
      if res.None? {
        break;
      }
      records := records + [Pair(storePos.value, res.value)];
      if i + 1 < |data| {
        RangeIsInterval(range, data[i].key, data[i + 1].key, data[i + 1].key);
      }
      storePos := NextHigherKey(data, storePos.value);
      i := i + 1;
    }
  }

  lemma GetAt<V>(data: Map<V>, i: nat)
    requires i < |data|
    ensures Get(data, data[i].key) == Some(data[i].val)
    ensures NextHigherPair(data, data[i].key) == if i + 1 < |data| then Some(data[i + 1]) else None
    ensures i + 1 < |data| ==>
      Compare(data[i].key, data[i + 1].key) <= 0 && Compare(data[i + 1].key, data[i + 1].key) <= 0
  {
    hide Compare;
    CompareOpposite(data[i].key, data[i].key);
    PlaceUnique(Compare, data, data[i].key, i);
    if i + 1 < |data| {
      IndexQueries.KeysAscend(data, i, i + 1);
      CompareOpposite(data[i + 1].key, data[i + 1].key);
    }
  }

  // ------------------------------------------------ index, without repetition

  /** Each index key with its least primary key. */
  function Firsts(s: seq<Pair<Key, seq<Key>>>): (r: seq<IndexQueries.Position>)
    requires forall p <- s :: |p.val| > 0
    ensures |r| == |s|
  {
    seq(|s|, i requires 0 <= i < |s| => IndexQueries.Position(s[i].key, s[i].val[0]))
  }

  lemma FirstsTake(s: seq<Pair<Key, seq<Key>>>, limit: nat)
    requires forall p <- s :: |p.val| > 0
    ensures (forall p <- Take(s, limit) :: |p.val| > 0) && Take(Firsts(s), limit) == Firsts(Take(s, limit))
  {
  }

  /** getRecords on an index, direction "nextunique"; a limit of 0 stands for no limit. */
  method GetUnique(data: IndexQueries.IndexData, range: KeyRange, last: Option<IndexQueries.Position>,
      advance: Option<Key>, limit: nat)
    returns (r: IndexQueries.Answer)
    requires IndexQueries.ValidIndex(data) && (last.Some? ==> Includes(range, last.value.indexKey))
    ensures r.Failed? <==> last.None? && range.lower.None? && (advance.Some? || |data| == 0)
    ensures r.Records? ==>
      var w := AnsweredKeys(data, range, LastKey(last), advance, limit);
      (forall p <- w :: |p.val| > 0) && r.positions == Firsts(w)
  {
    hide Compare, Includes, AboveLower, KeyMatches, From, StartIndex, Firsts, Place;
    var indexPos := if last.Some? then Some(last.value.indexKey) else range.lower;
    if advance.Some? {
      if indexPos.None? {
        return IndexQueries.Failed;
      }
      if Compare(advance.value, indexPos.value) > 0 {
        indexPos := advance;
      }
    }
    if indexPos.None? {
      indexPos := MinKey(data);
    }
    if indexPos.None? {
      return IndexQueries.Failed;
    }
    var pos, entry := IndexQueries.FindEntry(data, indexPos.value);
    ghost var i, from := Place(Compare, data, indexPos.value), StartIndex(data, range, LastKey(last), advance);
    MatchesFromStart(data, range, LastKey(last), advance);
    StartsOnLastOrAfter(data, range, last, advance, indexPos.value);
    FromNonEmpty(data, range, from);
    FirstsTake(From(data, range, from), limit);
    var positions := CollectUnique(data, range, pos, entry, LastKey(last), limit, i, from);
    r := IndexQueries.Records(positions);
  }

  function LastKey(last: Option<IndexQueries.Position>): Option<Key> {
    if last.Some? then Some(last.value.indexKey) else None
  }

  lemma FromNonEmpty(data: IndexQueries.IndexData, range: KeyRange, i: nat)
    requires IndexQueries.ValidIndex(data) && i <= |data|
    ensures forall p <- From(data, range, i) :: |p.val| > 0
  {
    hide Filter;
    forall p | p in From(data, range, i) ensures |p.val| > 0 {
      FilterMembers(data[i..], (p: Pair<Key, seq<Key>>) => Includes(range, p.key), p);
    }
  }

  /** The search starts at the first wanted entry, or just before it, on the last one. */
  lemma StartsOnLastOrAfter(data: IndexQueries.IndexData, range: KeyRange, last: Option<IndexQueries.Position>,
      advance: Option<Key>, start: Key)
    requires IndexQueries.StartKey(data, range, last, advance) == Some(start)
    requires (last.Some? ==> Includes(range, last.value.indexKey))
    ensures var i, from := Place(Compare, data, start), StartIndex(data, range, LastKey(last), advance);
      && (i == from || (i + 1 == from && LastKey(last) == Some(data[i].key) && Includes(range, data[i].key)))
      && (from < |data| ==>
        (AboveLower(range, data[from].key) <==> !IndexQueries.StopsAtBound(data, range, last, advance)))
      && (forall j :: from <= j < |data| ==> LastKey(last) != Some(data[j].key))
  {
    hide Compare, Place, Includes;
    var from := StartIndex(data, range, LastKey(last), advance);
    if from < |data| {
      StartAboveLower(data, range, LastKey(last), advance);
    }
    if advance.Some? {
      CompareOpposite(advance.value, if last.Some? then last.value.indexKey else range.lower.value);
    }
    forall j | from <= j < |data| ensures LastKey(last) != Some(data[j].key) {
      StartWanted(data, range, LastKey(last), advance, j);
      PastLast(data, range, LastKey(last), advance, j);
    }
    if last.None? && range.lower.None? {
      CompareOpposite(start, start);
      PlaceUnique(Compare, data, start, 0);
    } else if Place(Compare, data, start) < |data| {
      CompareOpposite(data[Place(Compare, data, start)].key, start);
    }
  }

  lemma PastLast<V>(data: Map<V>, range: KeyRange, last: Option<Key>, advance: Option<Key>, j: nat)
    requires StartIndex(data, range, last, advance) <= j < |data|
    ensures last.Some? ==> last.value != data[j].key
  {
    hide Compare, StartIndex, FurthestKey;
    if last.Some? {
      Furthest(advance, last);
      AroundStart(data, range, last, advance, FurthestKey(advance, last).value, j);
      CompareOpposite(last.value, last.value);
      Transitive(last.value, FurthestKey(advance, last).value, data[j].key);
    }
  }

  lemma UniqueStep(data: IndexQueries.IndexData, range: KeyRange, w: seq<Pair<Key, seq<Key>>>, taken: nat, i: nat)
    requires i < |data| && Includes(range, data[i].key) && (forall p <- w :: |p.val| > 0)
    requires taken <= |w| && w[taken..] == From(data, range, i)
    ensures taken < |w| && w[taken] == data[i] && w[taken + 1..] == From(data, range, i + 1)
    ensures Firsts(w)[..taken + 1] == Firsts(w)[..taken] + [IndexQueries.Position(data[i].key, data[i].val[0])]
  {
    hide Includes, From;
    FromStep(data, range, i);
    assert w[taken..][0] == data[i] && w[taken..][1..] == w[taken + 1..];
  }

  method CollectUnique(data: IndexQueries.IndexData, range: KeyRange, pos0: Key, entry0: Option<Pair<Key, seq<Key>>>,
      last: Option<Key>, limit: nat, ghost i0: nat, ghost from: nat)
      returns (positions: seq<IndexQueries.Position>)
    requires IndexQueries.ValidIndex(data) && i0 <= from <= |data|
    requires if i0 < |data| then entry0 == Some(data[i0]) && pos0 == data[i0].key else entry0 == None
    requires i0 == from || (i0 + 1 == from && last == Some(data[i0].key) && Includes(range, data[i0].key))
    requires forall j :: from <= j < |data| ==> last != Some(data[j].key)
    requires forall p <- From(data, range, from) :: |p.val| > 0
    ensures positions == if from < |data| && !AboveLower(range, data[from].key) then []
      else Take(Firsts(From(data, range, from)), limit)
  {
    hide Compare, Place, AboveLower, BelowUpper, From, Firsts, NextHigherPair, Lookup;
    var pos, entry := pos0, entry0;
    positions := [];
    ghost var i := i0;
    FromEnd(data, range);
    ghost var blocked := from < |data| && !AboveLower(range, data[from].key);
    ghost var w := From(data, range, from);
    ghost var taken := 0;
    while true
      invariant i0 <= i <= |data|
      invariant if i < |data| then entry == Some(data[i]) && pos == data[i].key else entry == None
      invariant i < from ==> i == i0 && positions == [] && taken == 0
      invariant blocked ==> positions == [] && i <= from
      invariant from <= i < |data| && !blocked ==> AboveLower(range, data[i].key)
      invariant !blocked ==>
        taken <= |w| && positions == Firsts(w)[..taken] && w[taken..] == From(data, range, if i < from then from else i)
      invariant limit != 0 ==> |positions| <= limit
      decreases |data| - i
    {
      if limit != 0 && |positions| == limit {
        break;
      }
      if i < |data| {
        FromStep(data, range, i);
      }
      if !Includes(range, pos) {
        break;
      }
      if entry.None? {
        break;
      }
      GetAt(data, i);
      if i >= from && !blocked {
        UniqueStep(data, range, w, taken, i);
      }
      if last.Some? {
        CompareOpposite(data[i].key, last.value);
      }
      if last.None? || Compare(entry.value.key, last.value) != 0 {
        positions := positions + [IndexQueries.Position(entry.value.key, entry.value.val[0])];
        taken := taken + 1;
      }
      var next := NextHigherPair(data, pos);
      if next.None? {
        break;
      }
      RangeIsInterval(range, data[i].key, data[i + 1].key, data[i + 1].key);
      pos, entry := next.value.key, next;
      i := i + 1;
    }
  }

  // ------------------------------------------------------------- resumption

  lemma {:induction false} FilterSorted<V>(s: seq<Pair<Key, V>>, p: Pair<Key, V> -> bool)
    requires Sorted(Compare, s)
    ensures Sorted(Compare, Filter(s, p))
  {
    hide Compare;
    if |s| > 0 {
      var rest := Filter(s[1..], p);
      FilterSorted(s[1..], p);
      forall j | 0 <= j < |rest| ensures Compare(s[0].key, rest[j].key) < 0 {
        FilterMembers(s[1..], p, rest[j]);
        var m := IndexQueries.IndexOf(s[1..], rest[j]);
        assert s[m + 1] == rest[j];
      }
    }
  }

  lemma AfterInOrder<V>(w: seq<Pair<Key, V>>, i: nat)
    requires Sorted(Compare, w) && i < |w|
    ensures Filter(w, (p: Pair<Key, V>) => Compare(w[i].key, p.key) < 0) == w[i + 1..]
  {
    hide Compare;
    forall j | 0 <= j < |w| ensures j <= i ==> !(Compare(w[i].key, w[j].key) < 0) {
      CompareOpposite(w[i].key, w[j].key);
    }
    FilterSplit(w, i + 1, (p: Pair<Key, V>) => Compare(w[i].key, p.key) < 0);
  }

  /** Resuming after the i-th record of a full read leaves exactly the records after it: reading a store record by
      record, or an index key by key, comes to the same as reading it at once. */
  lemma ResumeLeavesRest<V>(data: Map<V>, range: KeyRange, i: nat)
    requires i < |KeyMatches(data, range, None, None)|
    ensures KeyMatches(data, range, Some(KeyMatches(data, range, None, None)[i].key), None)
      == KeyMatches(data, range, None, None)[i + 1..]
  {
    hide Includes, Compare;
    var w := KeyMatches(data, range, None, None);
    var p, q := (p: Pair<Key, V>) => WantedKey(p.key, range, None, None), (p: Pair<Key, V>) =>
      Compare(w[i].key, p.key) < 0;
    FilterSorted(data, p);
    AfterInOrder(w, i);
    FilterTwice(data, p, q, (p: Pair<Key, V>) => WantedKey(p.key, range, Some(w[i].key), None));
  }

  /** The first record of an answer has the least wanted key. */
  lemma FirstIsLeast<V>(data: Map<V>, range: KeyRange, last: Option<Key>, advance: Option<Key>, x: Pair<Key, V>)
    requires x in data && WantedKey(x.key, range, last, advance)
    ensures var w := KeyMatches(data, range, last, advance);
      |w| > 0 && w[0] in data && WantedKey(w[0].key, range, last, advance) &&
        (x == w[0] || Compare(w[0].key, x.key) < 0)
  {
    hide Includes, Compare;
    var p := (p: Pair<Key, V>) => WantedKey(p.key, range, last, advance);
    var w := KeyMatches(data, range, last, advance);
    FilterSorted(data, p);
    FilterMembers(data, p, x);
    var j := IndexQueries.IndexOf(w, x);
    FilterMembers(data, p, w[0]);
  }
}
