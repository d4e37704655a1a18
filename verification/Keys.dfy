/** IndexedDB keys and their order (section 2.4 of Indexed Database API 2.0). */
module Keys {
  import opened SortedPairs

  type Byte = x: int | 0 <= x < 0x100
  /** JavaScript compares strings by UTF-16 code units. */
  type CodeUnit = x: int | 0 <= x < 0x1_0000

  datatype Key =
    | Number(value: real)
    | Date(time: int)
    | Text(units: seq<CodeUnit>)
    | Binary(bytes: seq<Byte>)
    | Array(items: seq<Key>)

  // ------------------------------------------------------------ the order

  /** Number < Date < String < Binary < Array. */
  function TypeRank(k: Key): nat {
    match k
    case Number(_) => 0
    case Date(_) => 1
    case Text(_) => 2
    case Binary(_) => 3
    case Array(_) => 4
  }

  function Sign(x: real): (s: int)
    ensures -1 <= s <= 1
  {
    if x < 0.0 then -1 else if x > 0.0 then 1 else 0
  }

  /** Lexicographic order of sequences of numbers: a proper prefix comes first. */
  function CompareNumbers(a: seq<int>, b: seq<int>): (c: int)
    ensures -1 <= c <= 1
  {
    if |a| == 0 then (if |b| == 0 then 0 else -1)
    else if |b| == 0 then 1
    else if a[0] != b[0] then (if a[0] < b[0] then -1 else 1)
    else CompareNumbers(a[1..], b[1..])
  }

  function Compare(a: Key, b: Key): (c: int)
    ensures -1 <= c <= 1
    decreases a, 0
  {
    if TypeRank(a) != TypeRank(b) then (if TypeRank(a) < TypeRank(b) then -1 else 1)
    else
      match a
      case Number(x) => Sign(x - b.value)
      case Date(t) => Sign((t - b.time) as real)
      case Text(u) => CompareNumbers(u, b.units)
      case Binary(bytes) => CompareNumbers(bytes, b.bytes)
      case Array(items) => CompareLists(items, b.items)
  }

  /** Lexicographic order of lists of keys. */
  function CompareLists(a: seq<Key>, b: seq<Key>): (c: int)
    ensures -1 <= c <= 1
    decreases a, 1
  {
    if |a| == 0 then (if |b| == 0 then 0 else -1)
    else if |b| == 0 then 1
    else
      var c := Compare(a[0], b[0]);
      if c != 0 then c else CompareLists(a[1..], b[1..])
  }

  lemma {:induction false} NumbersOpposite(a: seq<int>, b: seq<int>)
    ensures CompareNumbers(b, a) == -CompareNumbers(a, b) && (CompareNumbers(a, b) == 0 <==> a == b)
  {
    if |a| > 0 && |b| > 0 {
      assert a == [a[0]] + a[1..] && b == [b[0]] + b[1..];
      NumbersOpposite(a[1..], b[1..]);
    }
  }

  lemma {:induction false} NumbersTransitive(a: seq<int>, b: seq<int>, c: seq<int>)
    requires CompareNumbers(a, b) < 0 && CompareNumbers(b, c) < 0
    ensures CompareNumbers(a, c) < 0
  {
    if |a| > 0 && a[0] == b[0] == c[0] {
      NumbersTransitive(a[1..], b[1..], c[1..]);
    }
  }

  /** Swapping the keys flips the sign, and only equal keys compare as equal. */
  lemma {:induction false} CompareOpposite(a: Key, b: Key)
    ensures Compare(b, a) == -Compare(a, b) && (Compare(a, b) == 0 <==> a == b)
    decreases a, 0
  {
    match a
    case Text(u) =>
      if b.Text? {
        NumbersOpposite(u, b.units);
      }
    case Binary(bytes) =>
      if b.Binary? {
        NumbersOpposite(bytes, b.bytes);
      }
    case Array(items) =>
      if b.Array? {
        ListsOpposite(items, b.items);
      }
    case Number(_) =>
    case Date(_) =>
  }

  lemma {:induction false} ListsOpposite(a: seq<Key>, b: seq<Key>)
    ensures CompareLists(b, a) == -CompareLists(a, b) && (CompareLists(a, b) == 0 <==> a == b)
    decreases a, 1
  {
    hide Compare;
    if |a| > 0 && |b| > 0 {
      assert a == [a[0]] + a[1..] && b == [b[0]] + b[1..];
      CompareOpposite(a[0], b[0]);
      ListsOpposite(a[1..], b[1..]);
    }
  }

  lemma {:induction false} CompareTransitive(a: Key, b: Key, c: Key)
    requires Compare(a, b) < 0 && Compare(b, c) < 0
    ensures Compare(a, c) < 0
    decreases a, 0
  {
    if TypeRank(a) == TypeRank(b) == TypeRank(c) {
      match a
      case Text(u) => NumbersTransitive(u, b.units, c.units);
      case Binary(bytes) => NumbersTransitive(bytes, b.bytes, c.bytes);
      case Array(items) => ListsTransitive(items, b.items, c.items);
      case Number(_) =>
      case Date(_) =>
    }
  }

  lemma {:induction false} ListsTransitive(a: seq<Key>, b: seq<Key>, c: seq<Key>)
    requires CompareLists(a, b) < 0 && CompareLists(b, c) < 0
    ensures CompareLists(a, c) < 0
    decreases a, 1
  {
    hide Compare;
    if |a| > 0 {
      CompareOpposite(a[0], b[0]);
      CompareOpposite(b[0], c[0]);
      if Compare(a[0], b[0]) == 0 && Compare(b[0], c[0]) == 0 {
        ListsTransitive(a[1..], b[1..], c[1..]);
      } else if Compare(a[0], b[0]) < 0 && Compare(b[0], c[0]) < 0 {
        CompareTransitive(a[0], b[0], c[0]);
      }
    }
  }

  /** compareKeys is what a B+ tree asks of its comparator: sign-antisymmetric, transitive, and zero for equal keys
      only. */
  lemma CompareIsTotalOrder()
    ensures TotalOrder(Compare)
  {
    forall a, b, c ensures Lawful(Compare, a, b, c) {
      CompareOpposite(a, b);
      if Compare(a, b) < 0 && Compare(b, c) < 0 {
        CompareTransitive(a, b, c);
      }
    }
  }

  /** Numbers come before dates, dates before texts, texts before bytes, and bytes before arrays; numbers and dates go
      by their values. */
  lemma TypesInOrder(n: real, t: int, units: seq<CodeUnit>, bytes: seq<Byte>, items: seq<Key>)
    ensures Compare(Number(n), Date(t)) < 0 && Compare(Number(n), Text(units)) < 0
    ensures Compare(Number(n), Binary(bytes)) < 0 && Compare(Number(n), Array(items)) < 0
    ensures Compare(Date(t), Text(units)) < 0 && Compare(Date(t), Binary(bytes)) < 0
    ensures Compare(Date(t), Array(items)) < 0 && Compare(Text(units), Binary(bytes)) < 0
    ensures Compare(Text(units), Array(items)) < 0 && Compare(Binary(bytes), Array(items)) < 0
    ensures forall m :: Compare(Number(n), Number(m)) < 0 <==> n < m
    ensures forall s :: Compare(Date(t), Date(s)) < 0 <==> t < s
  {
  }

  /** Texts and bytes go by the first place in which they differ, and what ends first comes first. */
  lemma {:induction false} NumbersGoByFirstDifference(p: seq<int>, x: int, a: seq<int>, y: int, b: seq<int>)
    ensures CompareNumbers(p, p + [x] + a) < 0
    ensures x < y ==> CompareNumbers(p + [x] + a, p + [y] + b) < 0
  {
    if |p| > 0 {
      assert (p + [x] + a)[1..] == p[1..] + [x] + a && (p + [y] + b)[1..] == p[1..] + [y] + b;
      NumbersGoByFirstDifference(p[1..], x, a, y, b);
    }
  }

  lemma TextsGoByFirstDifference(p: seq<CodeUnit>, x: CodeUnit, a: seq<CodeUnit>, y: CodeUnit, b: seq<CodeUnit>)
    ensures Compare(Text(p), Text(p + [x] + a)) < 0
    ensures x < y ==> Compare(Text(p + [x] + a), Text(p + [y] + b)) < 0
  {
    NumbersGoByFirstDifference(p, x, a, y, b);
  }

  lemma BytesGoByFirstDifference(p: seq<Byte>, x: Byte, a: seq<Byte>, y: Byte, b: seq<Byte>)
    ensures Compare(Binary(p), Binary(p + [x] + a)) < 0
    ensures x < y ==> Compare(Binary(p + [x] + a), Binary(p + [y] + b)) < 0
  {
    NumbersGoByFirstDifference(p, x, a, y, b);
  }

  /** Arrays go by the first items that differ, and an array that ends first comes first. */
  lemma {:induction false} ArraysGoByFirstDifference(p: seq<Key>, x: Key, a: seq<Key>, y: Key, b: seq<Key>)
    ensures Compare(Array(p), Array(p + [x] + a)) < 0
    ensures Compare(x, y) < 0 ==> Compare(Array(p + [x] + a), Array(p + [y] + b)) < 0
    decreases |p|
  {
    if |p| > 0 {
      assert (p + [x] + a)[1..] == p[1..] + [x] + a && (p + [y] + b)[1..] == p[1..] + [y] + b;
      CompareOpposite(p[0], p[0]);
      ArraysGoByFirstDifference(p[1..], x, a, y, b);
    }
  }

  // -------------------------------------------------------------- the code

  /** What the loop over two arrays, or over the bytes of two buffers, goes through. */
  function Elements(k: Key): seq<Key>
    requires k.Array? || k.Binary?
  {
    match k
    case Array(items) => items
    case Binary(bytes) => NumberKeys(bytes)
  }

  function NumberKeys(bytes: seq<Byte>): (r: seq<Key>)
    ensures |r| == |bytes|
  {
    seq(|bytes|, i requires 0 <= i < |bytes| => Number(bytes[i] as real))
  }

  ghost function Depth(k: Key): nat {
    match k
    case Array(items) => 1 + DepthOfAll(items)
    case Binary(_) => 1
    case _ => 0
  }

  ghost function DepthOfAll(ks: seq<Key>): nat {
    if |ks| == 0 then 0 else Depth(ks[0]) + DepthOfAll(ks[1..])
  }

  lemma {:induction false} ItemsAreSmaller(ks: seq<Key>, i: nat)
    requires i < |ks|
    ensures Depth(ks[i]) <= DepthOfAll(ks)
  {
    if i > 0 {
      ItemsAreSmaller(ks[1..], i - 1);
    }
  }

  lemma ElementsAreSmaller(k: Key, i: nat)
    requires (k.Array? || k.Binary?) && i < |Elements(k)|
    ensures Depth(Elements(k)[i]) < Depth(k)
  {
    if k.Array? {
      ItemsAreSmaller(k.items, i);
    }
  }

  lemma {:induction false} BytesAsNumbers(a: seq<Byte>, b: seq<Byte>)
    ensures CompareLists(NumberKeys(a), NumberKeys(b)) == CompareNumbers(a, b)
  {
    if |a| > 0 && |b| > 0 {
      assert NumberKeys(a)[1..] == NumberKeys(a[1..]) && NumberKeys(b)[1..] == NumberKeys(b[1..]);
      BytesAsNumbers(a[1..], b[1..]);
    }
  }

  lemma {:induction false} CommonPrefix(a: seq<Key>, b: seq<Key>, n: nat)
    requires n <= |a| && n <= |b| && forall i :: 0 <= i < n ==> Compare(a[i], b[i]) == 0
    ensures CompareLists(a, b) == CompareLists(a[n..], b[n..])
  {
    if n > 0 {
      CommonPrefix(a[1..], b[1..], n - 1);
      assert a[1..][n - 1..] == a[n..] && b[1..][n - 1..] == b[n..];
    }
  }

  /** compareKeys, on valid keys. */
  method CompareKeys(a: Key, b: Key) returns (c: int)
    ensures c == Compare(a, b)
    decreases Depth(a)
  {
    if TypeRank(a) != TypeRank(b) {
      if a.Array? {
        return 1;
      }
      if a.Binary? && (b.Text? || b.Date? || b.Number?) {
        return 1;
      }
      if a.Text? && (b.Date? || b.Number?) {
        return 1;
      }
      if a.Date? && b.Number? {
        return 1;
      }
      return -1;
    }
    if a.Array? || a.Binary? {
      var first, second := Elements(a), Elements(b);
      if a.Binary? {
        BytesAsNumbers(a.bytes, b.bytes);
      }
      var length := if |first| < |second| then |first| else |second|;
      for i := 0 to length
        invariant forall j :: 0 <= j < i ==> Compare(first[j], second[j]) == 0
      {
        ElementsAreSmaller(a, i);
        var result := CompareKeys(first[i], second[i]);
        if result != 0 {
          CommonPrefix(first, second, i);
          return result;
        }
      }
      CommonPrefix(first, second, length);
      if |first| > |second| {
        return 1;
      }
      if |first| < |second| {
        return -1;
      }
      return 0;
    }
    if a == b {
      CompareOpposite(a, b);
      return 0;
    }
    CompareOpposite(a, b);
    c := if Greater(a, b) then 1 else -1;
  }

  /** JavaScript's > on two numbers, two dates or two strings. */
  predicate Greater(a: Key, b: Key)
    requires TypeRank(a) == TypeRank(b) && (a.Number? || a.Date? || a.Text?)
  {
    match a
    case Number(x) => x > b.value
    case Date(t) => t > b.time
    case Text(u) => CompareNumbers(u, b.units) > 0
  }
}
