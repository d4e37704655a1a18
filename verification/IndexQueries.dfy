/** Reading an index in key order, all at once or one record at a time through a cursor
    (getRecords with an index, directions "next" and "nextunique"). */
module IndexQueries {
  import opened Options
  import opened SortedPairs
  import opened Keys
  import opened KeyRanges
  import opened Filtering
  import opened SortedMap

  /** An index maps each index key to the ascending primary keys of its records. */
  type IndexData = Map<seq<Key>>

  ghost predicate ValidIndex(data: IndexData) {
    forall i :: 0 <= i < |data| ==> |data[i].val| > 0 && Ascending(Compare, data[i].val)
  }

  /** One record of an index, and so a position of a cursor. */
  datatype Position = Position(indexKey: Key, primaryKey: Key)

  /** Index key first, then primary key. */
  predicate Precedes(a: Position, b: Position) {
    Compare(a.indexKey, b.indexKey) < 0 ||
      (Compare(a.indexKey, b.indexKey) == 0 && Compare(a.primaryKey, b.primaryKey) < 0)
  }

  function EntriesOf(p: Pair<Key, seq<Key>>): (r: seq<Position>)
    ensures |r| == |p.val| && forall i :: 0 <= i < |r| ==> r[i] == Position(p.key, p.val[i])
  {
    seq(|p.val|, i requires 0 <= i < |p.val| => Position(p.key, p.val[i]))
  }

  /** All records of an index, in order. */
  function Entries(data: seq<Pair<Key, seq<Key>>>): seq<Position> {
    if |data| == 0 then [] else EntriesOf(data[0]) + Entries(data[1..])
  }

  /** What an answer consists of: in the range, after the last position, and at or past the key to advance to. */
  predicate Wanted(e: Position, range: KeyRange, last: Option<Position>, advance: Option<Key>) {
    && Includes(range, e.indexKey)
    && (last.None? || Precedes(last.value, e))
    && (advance.None? || Compare(e.indexKey, advance.value) >= 0)
  }

  function Matches(data: IndexData, range: KeyRange, last: Option<Position>, advance: Option<Key>): seq<Position> {
    Filter(Entries(data), (e: Position) => Wanted(e, range, last, advance))
  }

  function InRange(data: seq<Position>, range: KeyRange): seq<Position> {
    Filter(data, (e: Position) => Includes(range, e.indexKey))
  }

  // -------------------------------------------------------- positions in data

  lemma {:induction false} EntriesConcat(a: seq<Pair<Key, seq<Key>>>, b: seq<Pair<Key, seq<Key>>>)
    ensures Entries(a + b) == Entries(a) + Entries(b)
  {
    if |a| == 0 {
      assert a + b == b;
    } else {
      assert (a + b)[1..] == a[1..] + b;
      EntriesConcat(a[1..], b);
    }
  }

  lemma {:induction false} EntriesMember(data: seq<Pair<Key, seq<Key>>>, e: Position) returns (i: nat)
    requires e in Entries(data)
    ensures i < |data| && data[i].key == e.indexKey && e.primaryKey in data[i].val
  {
    if e in EntriesOf(data[0]) {
      var j :| 0 <= j < |data[0].val| && EntriesOf(data[0])[j] == e;
      i := 0;
    } else {
      var j := EntriesMember(data[1..], e);
      i := j + 1;
    }
  }

  /** The records from that index entry, and that primary key of it, on. */
  ghost function Ahead(data: seq<Pair<Key, seq<Key>>>, i: nat, sub: nat): seq<Position>
    requires i <= |data| && (i < |data| ==> sub <= |data[i].val|)
  {
    if i == |data| then [] else EntriesOf(Pair(data[i].key, data[i].val[sub..])) + Entries(data[i + 1..])
  }

  lemma EntriesAround(data: seq<Pair<Key, seq<Key>>>, i: nat, sub: nat)
    requires i <= |data| && (if i < |data| then sub <= |data[i].val| else sub == 0)
    ensures Entries(data) == Entries(data[..i]) + (if i < |data| then EntriesOf(data[i])[..sub] else [])
      + Ahead(data, i, sub)
  {
    hide Entries;
    EntriesConcat(data[..i], data[i..]);
    assert data == data[..i] + data[i..];
    EntriesTail(data, i);
    if i < |data| {
      assert EntriesOf(data[i]) == EntriesOf(data[i])[..sub] + EntriesOf(Pair(data[i].key, data[i].val[sub..]));
    }
  }

  lemma EntriesTail(data: seq<Pair<Key, seq<Key>>>, i: nat)
    requires i <= |data|
    ensures Entries(data[i..]) == if i < |data| then EntriesOf(data[i]) + Entries(data[i + 1..]) else []
  {
    if i < |data| {
      assert data[i..][1..] == data[i + 1..];
    }
  }

  lemma KeysAscend<V>(data: Map<V>, i: nat, j: nat)
    requires i < j < |data|
    ensures Compare(data[i].key, data[j].key) < 0
  {
  }

  // ----------------------------------------------------------------- getRecords

  /** The key that the search starts from. */
  function StartKey(data: IndexData, range: KeyRange, last: Option<Position>, advance: Option<Key>): Option<Key> {
    var pos := if last.Some? then Some(last.value.indexKey) else range.lower;
    if advance.Some? then
      if pos.None? then None
      else if Compare(advance.value, pos.value) > 0 then advance else pos
    else if pos.None? then MinKey(data) else pos
  }

  /** A first read from an open lower bound that is itself a key of the index ends at once. */
  predicate StopsAtBound(data: IndexData, range: KeyRange, last: Option<Position>, advance: Option<Key>) {
    && last.None? && range.lower.Some? && range.lowerOpen
    && (advance.None? || Compare(advance.value, range.lower.value) <= 0)
    && Get(data, range.lower.value).Some?
  }

  /** How many primary keys of the entry are not after the last position. */
  ghost function Passed(p: Pair<Key, seq<Key>>, last: Option<Position>): (n: nat)
    ensures n <= |p.val|
  {
    if last.Some? && p.key == last.value.indexKey then NotAbove(p.val, last.value.primaryKey) else 0
  }

  ghost function NotAbove(ks: seq<Key>, k: Key): (n: nat)
    ensures n <= |ks|
    ensures forall i :: 0 <= i < n ==> Compare(k, ks[i]) >= 0
    ensures n < |ks| ==> Compare(k, ks[n]) < 0
  {
    if |ks| == 0 || Compare(k, ks[0]) < 0 then 0 else 1 + NotAbove(ks[1..], k)
  }

  lemma AfterNotAbove(ks: seq<Key>, k: Key, i: nat)
    requires Ascending(Compare, ks) && NotAbove(ks, k) <= i < |ks|
    ensures Compare(k, ks[i]) < 0
  {
    hide Compare, NotAbove;
    var n := NotAbove(ks, k);
    if i > n {
      CompareTransitive(k, ks[n], ks[i]);
    }
  }

  /** What comes before the starting point is not wanted. */
  lemma NoneBehind(
      data: IndexData, range: KeyRange, last: Option<Position>, advance: Option<Key>, start: Key, i: nat, e: Position)
    requires ValidIndex(data) && StartKey(data, range, last, advance) == Some(start) && i == Place(Compare, data, start)
    requires e in Entries(data[..i]) || (i < |data| && e in EntriesOf(data[i])[..Passed(data[i], last)])
    ensures !Wanted(e, range, last, advance)
  {
    hide Compare, Place, Entries, NotAbove;
    if e in Entries(data[..i]) {
      var j := EntriesMember(data[..i], e);
      assert Compare(e.indexKey, start) < 0;
      CompareOpposite(e.indexKey, start);
    } else {
      var n := Passed(data[i], last);
      var j :| 0 <= j < n && EntriesOf(data[i])[..n][j] == e;
      CompareOpposite(last.value.indexKey, e.indexKey);
    }
  }

  /** From the starting point on, everything in the range is wanted. */
  lemma AllAhead(
      data: IndexData, range: KeyRange, last: Option<Position>, advance: Option<Key>, start: Key, i: nat, e: Position)
    requires ValidIndex(data) && StartKey(data, range, last, advance) == Some(start)
    requires i == Place(Compare, data, start) < |data|
    requires e in Ahead(data, i, Passed(data[i], last))
    ensures Wanted(e, range, last, advance) == Includes(range, e.indexKey)
  {
    hide Compare, Place, Entries, Ahead, Includes, NotAbove;
    var j, m := AheadMember(data, i, Passed(data[i], last), e);
    AheadIsPast(data, range, last, advance, start, i, j);
    if j == i && last.Some? && data[i].key == last.value.indexKey {
      AfterNotAbove(data[i].val, last.value.primaryKey, m);
    }
  }

  lemma IndexOf<T>(s: seq<T>, x: T) returns (i: nat)
    requires x in s
    ensures i < |s| && s[i] == x
  {
    i :| 0 <= i < |s| && s[i] == x;
  }

  lemma AheadMember(data: seq<Pair<Key, seq<Key>>>, i: nat, n: nat, e: Position) returns (j: nat, m: nat)
    requires i < |data| && n <= |data[i].val| && e in Ahead(data, i, n)
    ensures i <= j < |data| && m < |data[j].val| && e == Position(data[j].key, data[j].val[m]) && (j == i ==> m >= n)
  {
    hide Entries;
    var first := EntriesOf(Pair(data[i].key, data[i].val[n..]));
    if e in first {
      var k := IndexOf(first, e);
      j, m := i, n + k;
    } else {
      var later := data[i + 1..];
      j := EntriesMember(later, e);
      m := IndexOf(later[j].val, e.primaryKey);
      j := i + 1 + j;
    }
  }

  lemma AheadIsPast(
      data: IndexData, range: KeyRange, last: Option<Position>, advance: Option<Key>, start: Key, i: nat, j: nat)
    requires StartKey(data, range, last, advance) == Some(start) && i == Place(Compare, data, start) <= j < |data|
    ensures last.Some? ==> Compare(last.value.indexKey, data[j].key) <= 0
    ensures last.Some? ==> (Compare(last.value.indexKey, data[j].key) == 0 <==> last.value.indexKey == data[j].key)
    ensures last.Some? && i < j ==> Compare(last.value.indexKey, data[j].key) < 0
    ensures advance.Some? ==> Compare(data[j].key, advance.value) >= 0
  {
    hide Compare;
    AheadOfStart(data, start, i, j);
    if last.Some? {
      CompareOpposite(last.value.indexKey, data[j].key);
      CompareOpposite(last.value.indexKey, start);
      if advance.Some? {
        CompareOpposite(advance.value, last.value.indexKey);
      }
      Transitive(last.value.indexKey, start, data[j].key);
    }
    if advance.Some? {
      CompareOpposite(advance.value, start);
      CompareOpposite(advance.value, data[j].key);
      Transitive(advance.value, start, data[j].key);
    }
  }

  lemma AheadOfStart(data: IndexData, start: Key, i: nat, j: nat)
    requires i == Place(Compare, data, start) <= j < |data|
    ensures Compare(start, data[j].key) <= 0 && Compare(data[j].key, start) >= 0
    ensures i < j ==> Compare(start, data[j].key) < 0
  {
    hide Compare;
    CompareOpposite(start, data[i].key);
    CompareOpposite(start, data[j].key);
    if i < j {
      Transitive(start, data[i].key, data[j].key);
    }
  }

  /** Where the search starts in the data, and what is wanted from there. */
  lemma MatchesAhead(
      data: IndexData, range: KeyRange, last: Option<Position>, advance: Option<Key>, start: Key, i: nat, sub: nat)
    requires ValidIndex(data) && StartKey(data, range, last, advance) == Some(start) && i == Place(Compare, data, start)
    requires sub == if i < |data| then Passed(data[i], last) else 0
    ensures Matches(data, range, last, advance) == InRange(Ahead(data, i, sub), range)
  {
    hide Compare, Place, Entries, Ahead, Includes, NotAbove, Wanted, Filter, StartKey, ValidIndex;
    var p, q := (e: Position) => Wanted(e, range, last, advance), (e: Position) => Includes(range, e.indexKey);
    var behind := if i < |data| then EntriesOf(data[i])[..sub] else [];
    EntriesAround(data, i, sub);
    FilterConcat(Entries(data[..i]) + behind, Ahead(data, i, sub), p);
    forall e | e in Entries(data[..i]) + behind ensures !p(e) {
      NoneBehind(data, range, last, advance, start, i, e);
    }
    FilterNone(Entries(data[..i]) + behind, p);
    forall e | e in Ahead(data, i, sub) ensures p(e) == q(e) {
      NotEmptyAhead(data, i, sub);
      AllAhead(data, range, last, advance, start, i, e);
    }
    FilterSame(Ahead(data, i, sub), p, q);
  }

  lemma NotEmptyAhead(data: seq<Pair<Key, seq<Key>>>, i: nat, sub: nat)
    requires i <= |data| && (i < |data| ==> sub <= |data[i].val|)
    ensures i == |data| ==> Ahead(data, i, sub) == []
  {
  }

  /** Beyond the range nothing more is in it. */
  lemma NoneBeyond(data: IndexData, range: KeyRange, i: nat, sub: nat)
    requires i < |data| && sub <= |data[i].val|
    requires AboveLower(range, data[i].key) && !Includes(range, data[i].key)
    ensures InRange(Ahead(data, i, sub), range) == []
  {
    hide Compare, Entries, Ahead, NotAbove, BelowUpper, AboveLower;
    forall e | e in Ahead(data, i, sub) ensures !Includes(range, e.indexKey) {
      var j, m := AheadMember(data, i, sub, e);
      CompareOpposite(data[i].key, data[i].key);
      if j > i {
        KeysAscend(data, i, j);
      }
      RangeIsInterval(range, data[i].key, data[i].key, data[j].key);
    }
    FilterNone(Ahead(data, i, sub), (e: Position) => Includes(range, e.indexKey));
  }

  datatype Answer = Failed | Records(positions: seq<Position>)

  /** The position of the first primary key after the last one. */
  method SkipTo(ks: seq<Key>, k: Key) returns (pos: nat)
    requires |ks| > 0
    ensures pos == NotAbove(ks, k)
  {
    pos := 0;
    while pos < |ks|
      invariant pos <= |ks|
      invariant NotAbove(ks, k) == pos + NotAbove(ks[pos..], k)
    {
      if Compare(k, ks[pos]) < 0 {
        break;
      }
      assert ks[pos..][1..] == ks[pos + 1..];
      pos := pos + 1;
    }
  }

  /** Where in an entry the records after the last position begin. */
  method FirstAfter(entry: Pair<Key, seq<Key>>, last: Option<Position>) returns (sub: nat)
    requires |entry.val| > 0
    ensures sub == Passed(entry, last)
  {
    sub := 0;
    if last.Some? {
      CompareOpposite(entry.key, last.value.indexKey);
      if Compare(entry.key, last.value.indexKey) == 0 {
        sub := SkipTo(entry.val, last.value.primaryKey);
      }
    }
  }

  /** getRecords on an index, forward; a limit of 0 stands for no limit. */
  method GetByIndex(data: IndexData, range: KeyRange, last: Option<Position>, advance: Option<Key>, limit: nat)
      returns (r: Answer)
    requires ValidIndex(data) && (last.Some? ==> Includes(range, last.value.indexKey))
    ensures r.Failed? <==> last.None? && range.lower.None? && (advance.Some? || |data| == 0)
    ensures r.Records? ==> r.positions == Answered(data, range, last, advance, limit)
  {
    hide Compare, Place, Ahead, Entries, NotAbove, Includes, AboveLower, Matches, StopsAtBound, Answered, Passed,
      InRange, Lookup;
    var indexPos := if last.Some? then Some(last.value.indexKey) else range.lower;
    if advance.Some? {
      if indexPos.None? {
        return Failed;
      }
      if Compare(advance.value, indexPos.value) > 0 {
        indexPos := advance;
      }
    }
    if indexPos.None? {
      indexPos := MinKey(data);
    }
    if indexPos.None? {
      return Failed;
    }
    var pos, entry := FindEntry(data, indexPos.value);
    var sub: nat := 0;
    if entry.Some? {
      sub := FirstAfter(entry.value, last);
    }
    ghost var i := Place(Compare, data, indexPos.value);
    MatchesAhead(data, range, last, advance, indexPos.value, i, sub);
    var positions := Collect(data, range, pos, entry, sub, limit, i);
    CollectedIsAnswer(data, range, last, advance, limit, indexPos.value, i, sub);
    r := Records(positions);
  }

  /** The records that a read answers with. */
  function Answered(
      data: IndexData, range: KeyRange, last: Option<Position>, advance: Option<Key>, limit: nat): seq<Position> {
    if StopsAtBound(data, range, last, advance) then [] else Take(Matches(data, range, last, advance), limit)
  }

  lemma CollectedIsAnswer(data: IndexData, range: KeyRange, last: Option<Position>, advance: Option<Key>, limit: nat,
      start: Key, i: nat, sub: nat)
    requires ValidIndex(data) && (last.Some? ==> Includes(range, last.value.indexKey))
    requires StartKey(data, range, last, advance) == Some(start) && i == Place(Compare, data, start)
    requires sub == if i < |data| then Passed(data[i], last) else 0
    ensures Answered(data, range, last, advance, limit)
      == if !AboveLower(range, if i < |data| then data[i].key else start) then []
        else Take(InRange(Ahead(data, i, sub), range), limit)
  {
    hide Compare, Place, Entries, NotAbove, Includes, AboveLower, Matches, StopsAtBound, Passed, StartKey;
    MatchesAhead(data, range, last, advance, start, i, sub);
    if i < |data| {
      StartAboveLower(data, range, last, advance, start, i);
    }
  }

  lemma StartAboveLower(
      data: IndexData, range: KeyRange, last: Option<Position>, advance: Option<Key>, start: Key, i: nat)
    requires last.Some? ==> Includes(range, last.value.indexKey)
    requires StartKey(data, range, last, advance) == Some(start) && i == Place(Compare, data, start) < |data|
    ensures AboveLower(range, data[i].key) <==> !StopsAtBound(data, range, last, advance)
  {
    hide Compare, Place;
    AheadOfStart(data, start, i, i);
    if last.Some? {
      AheadIsPast(data, range, last, advance, start, i, i);
      CompareOpposite(data[i].key, data[i].key);
      RangeIsInterval(range, last.value.indexKey, data[i].key, data[i].key);
    } else if range.lower.Some? {
      CompareOpposite(range.lower.value, data[i].key);
      CompareOpposite(range.lower.value, start);
      if advance.Some? {
        CompareOpposite(range.lower.value, advance.value);
      }
      Transitive(range.lower.value, start, data[i].key);
    }
  }

  /** The entry at a key, or else the next higher one. */
  method FindEntry(data: IndexData, start: Key) returns (pos: Key, entry: Option<Pair<Key, seq<Key>>>)
    ensures var i := Place(Compare, data, start);
      if i < |data| then entry == Some(data[i]) && pos == data[i].key else entry == None && pos == start
  {
    CompareOpposite(
      if Place(Compare, data, start) < |data| then data[Place(Compare, data, start)].key else start, start);
    pos := start;
    var found := Get(data, pos);
    if found.Some? {
      entry := Some(Pair(pos, found.value));
    } else {
      entry := NextHigherPair(data, pos);
      if entry.Some? {
        pos := entry.value.key;
      }
    }
  }

  /** The loop that collects records until the limit, the end of the range, or the end of the index. */
  method Collect(data: IndexData, range: KeyRange, pos0: Key, entry0: Option<Pair<Key, seq<Key>>>, sub0: nat,
      limit: nat, ghost i0: nat)
    returns (positions: seq<Position>)
    requires ValidIndex(data) && i0 <= |data|
    requires if i0 < |data| then entry0 == Some(data[i0]) && pos0 == data[i0].key && sub0 <= |data[i0].val|
      else entry0 == None && sub0 == 0
    ensures positions == if !AboveLower(range, pos0) then [] else Take(InRange(Ahead(data, i0, sub0), range), limit)
  {
    hide Compare, Place, Entries, Ahead, AboveLower, BelowUpper, ValidIndex, InRange;
    var pos, entry := pos0, entry0;
    var sub: nat := sub0;
    ghost var i := i0;
    positions := [];
    while true
      invariant i <= |data|
      invariant if i < |data| then entry == Some(data[i]) && pos == data[i].key && sub <= |data[i].val|
        else entry == None && sub == 0
      invariant if AboveLower(range, pos0) then AboveLower(range, pos) else positions == [] && pos == pos0
      invariant positions + InRange(Ahead(data, i, sub), range) == InRange(Ahead(data, i0, sub0), range) ||
        !AboveLower(range, pos0)
      invariant limit != 0 ==> |positions| <= limit
      decreases |data| - i, if i < |data| then |data[i].val| - sub else 0
    {
      if limit != 0 && |positions| == limit {
        break;
      }
      if !Includes(range, pos) {
        if i < |data| && AboveLower(range, pos0) {
          NoneBeyond(data, range, i, sub);
        }
        NothingAhead(data, range, i, sub);
        break;
      }
      if entry.None? {
        NothingAhead(data, range, i, sub);
        break;
      }
      StepAhead(data, range, i, sub);
      NextOf(data, i);
      if sub >= |entry.value.val| {
        var next := NextHigherPair(data, pos);
        if next.None? {
          break;
        }
        RangeIsInterval(range, pos, next.value.key, next.value.key);
        pos, entry, sub := next.value.key, next, 0;
        i := i + 1;
      } else {
        positions := positions + [Position(entry.value.key, entry.value.val[sub])];
        sub := sub + 1;
      }
    }
  }

  lemma NothingAhead(data: IndexData, range: KeyRange, i: nat, sub: nat)
    requires i <= |data| && (i < |data| ==> sub <= |data[i].val|)
    ensures i == |data| ==> InRange(Ahead(data, i, sub), range) == []
  {
  }

  /** The next record to collect, or that this entry has no more. */
  lemma StepAhead(data: IndexData, range: KeyRange, i: nat, sub: nat)
    requires i < |data| && sub <= |data[i].val| && Includes(range, data[i].key)
    ensures sub < |data[i].val| ==>
      InRange(Ahead(data, i, sub), range)
        == [Position(data[i].key, data[i].val[sub])] + InRange(Ahead(data, i, sub + 1), range)
    ensures sub == |data[i].val| ==> Ahead(data, i, sub) == if i + 1 == |data| then [] else Ahead(data, i + 1, 0)
    ensures sub == |data[i].val| && i + 1 == |data| ==> InRange(Ahead(data, i, sub), range) == []
  {
    if sub < |data[i].val| {
      var p := Position(data[i].key, data[i].val[sub]);
      assert Ahead(data, i, sub) == [p] + Ahead(data, i, sub + 1);
    } else if i + 1 < |data| {
      assert data[i + 1..][1..] == data[i + 2..];
      assert Pair(data[i + 1].key, data[i + 1].val[0..]) == data[i + 1];
    }
  }

  lemma NextOf(data: IndexData, i: nat)
    requires i < |data|
    ensures NextHigherPair(data, data[i].key) == if i + 1 < |data| then Some(data[i + 1]) else None
    ensures i + 1 < |data| ==>
      Compare(data[i].key, data[i + 1].key) <= 0 && Compare(data[i + 1].key, data[i + 1].key) <= 0
  {
    CompareOpposite(data[i].key, data[i].key);
    PlaceUnique(Compare, data, data[i].key, i);
    if i + 1 < |data| {
      CompareOpposite(data[i + 1].key, data[i + 1].key);
    }
  }
}
