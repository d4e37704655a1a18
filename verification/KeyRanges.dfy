/** Key ranges (section 2.9 of Indexed Database API 2.0). */
module KeyRanges {
  import opened Options
  import opened Keys

  datatype KeyRange = KeyRange(lower: Option<Key>, upper: Option<Key>, lowerOpen: bool, upperOpen: bool)

  predicate AboveLower(r: KeyRange, k: Key) {
    r.lower.Some? ==>
      var c := Compare(r.lower.value, k);
      !(c > 0 || (c == 0 && r.lowerOpen))
  }

  predicate BelowUpper(r: KeyRange, k: Key) {
    r.upper.Some? ==>
      var c := Compare(r.upper.value, k);
      !(c < 0 || (c == 0 && r.upperOpen))
  }

  predicate Includes(r: KeyRange, k: Key) {
    AboveLower(r, k) && BelowUpper(r, k)
  }

  /** BridgeIDBKeyRange.bound: none stands for the DataError. */
  function Bound(lower: Key, upper: Key, lowerOpen: bool, upperOpen: bool): Option<KeyRange> {
    var c := Compare(lower, upper);
    if c == 1 || (c == 0 && (lowerOpen || upperOpen)) then None
    else Some(KeyRange(Some(lower), Some(upper), lowerOpen, upperOpen))
  }

  lemma Transitive(a: Key, b: Key, c: Key)
    requires Compare(a, b) <= 0 && Compare(b, c) <= 0
    ensures Compare(a, c) <= 0
    ensures Compare(a, b) < 0 || Compare(b, c) < 0 ==> Compare(a, c) < 0
  {
    CompareOpposite(a, b);
    CompareOpposite(b, c);
    if Compare(a, b) < 0 && Compare(b, c) < 0 {
      CompareTransitive(a, b, c);
    }
  }

  /** A range is an interval: what is between two of its keys is in it. */
  lemma RangeIsInterval(r: KeyRange, a: Key, k: Key, b: Key)
    requires Compare(a, k) <= 0 && Compare(k, b) <= 0
    ensures AboveLower(r, a) ==> AboveLower(r, k)
    ensures BelowUpper(r, b) ==> BelowUpper(r, k)
  {
    if r.lower.Some? && AboveLower(r, a) {
      Transitive(r.lower.value, a, k);
    }
    if r.upper.Some? && BelowUpper(r, b) {
      CompareOpposite(k, b);
      CompareOpposite(r.upper.value, b);
      CompareOpposite(r.upper.value, k);
      Transitive(k, b, r.upper.value);
    }
  }

  /** bound fails exactly where no key can be in the range, unless both ends are open; then it fails exactly where they
      are not in order. */
  lemma BoundFailsExactlyWhenEmpty(lower: Key, upper: Key, lowerOpen: bool, upperOpen: bool)
    ensures var range := KeyRange(Some(lower), Some(upper), lowerOpen, upperOpen);
      && (Bound(lower, upper, lowerOpen, upperOpen).None? ==> forall k :: !Includes(range, k))
      && (!lowerOpen || !upperOpen ==>
          (Bound(lower, upper, lowerOpen, upperOpen).None? <==> forall k :: !Includes(range, k)))
      && (lowerOpen && upperOpen ==> (Bound(lower, upper, lowerOpen, upperOpen).None? <==> Compare(lower, upper) >= 0))
      && Bound(lower, upper, lowerOpen, upperOpen) in {None, Some(range)}
  {
    hide Compare;
    var range := KeyRange(Some(lower), Some(upper), lowerOpen, upperOpen);
    CompareOpposite(lower, upper);
    CompareOpposite(lower, lower);
    CompareOpposite(upper, upper);
    if Bound(lower, upper, lowerOpen, upperOpen).None? {
      forall k ensures !Includes(range, k) {
        NotBetween(range, lower, upper, k);
      }
    } else if !lowerOpen {
      assert Includes(range, lower);
    } else if !upperOpen {
      assert Includes(range, upper);
    }
  }

  lemma NotBetween(range: KeyRange, lower: Key, upper: Key, k: Key)
    requires range.lower == Some(lower) && range.upper == Some(upper)
    requires Bound(lower, upper, range.lowerOpen, range.upperOpen).None?
    ensures !Includes(range, k)
  {
    hide Compare;
    CompareOpposite(lower, upper);
    CompareOpposite(lower, k);
    CompareOpposite(upper, k);
    if Compare(lower, k) <= 0 && Compare(k, upper) <= 0 {
      Transitive(lower, k, upper);
    }
  }

  /** Nothing lies between a text and the same text with the least character added: a range with these ends, both
      open, is empty, and bound does not fail. */
  lemma OpenEndsMayLeaveNothing(units: seq<CodeUnit>, k: Key)
    ensures var lower, upper := Text(units), Text(units + [0]);
      && Bound(lower, upper, true, true).Some?
      && !Includes(KeyRange(Some(lower), Some(upper), true, true), k)
  {
    PrefixFirst(units);
    if k.Text? {
      NothingBetween(units, k.units);
    }
  }

  lemma {:induction false} PrefixFirst(units: seq<CodeUnit>)
    ensures CompareNumbers(units, units + [0]) == -1
  {
    if |units| > 0 {
      assert (units + [0])[1..] == units[1..] + [0];
      PrefixFirst(units[1..]);
    }
  }

  lemma {:induction false} NothingBetween(units: seq<CodeUnit>, k: seq<CodeUnit>)
    ensures CompareNumbers(units, k) < 0 ==> CompareNumbers(units + [0], k) <= 0
  {
    if |units| > 0 && |k| > 0 {
      assert (units + [0])[1..] == units[1..] + [0];
      NothingBetween(units[1..], k[1..]);
    }
  }
}
