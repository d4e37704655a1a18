/** Keeping the elements of a sequence that satisfy a predicate. */
module Filtering {

  function Filter<T>(s: seq<T>, p: T -> bool): seq<T> {
    if |s| == 0 then []
    else if p(s[0]) then [s[0]] + Filter(s[1..], p)
    else Filter(s[1..], p)
  }

  lemma {:induction false} FilterConcat<T>(a: seq<T>, b: seq<T>, p: T -> bool)
    ensures Filter(a + b, p) == Filter(a, p) + Filter(b, p)
  {
    if |a| == 0 {
      assert a + b == b;
    } else {
      assert (a + b)[1..] == a[1..] + b;
      FilterConcat(a[1..], b, p);
    }
  }

  lemma {:induction false} FilterNone<T>(s: seq<T>, p: T -> bool)
    requires forall x <- s :: !p(x)
    ensures Filter(s, p) == []
  {
    if |s| > 0 {
      assert s[0] in s;
      FilterNone(s[1..], p);
    }
  }

  lemma {:induction false} FilterSame<T>(s: seq<T>, p: T -> bool, q: T -> bool)
    requires forall x <- s :: p(x) == q(x)
    ensures Filter(s, p) == Filter(s, q)
  {
    if |s| > 0 {
      assert s[0] in s;
      FilterSame(s[1..], p, q);
    }
  }

  lemma {:induction false} FilterMembers<T>(s: seq<T>, p: T -> bool, x: T)
    ensures x in Filter(s, p) <==> x in s && p(x)
  {
    if |s| > 0 {
      FilterMembers(s[1..], p, x);
      assert x in s <==> x == s[0] || x in s[1..];
    }
  }

  function Take<T>(s: seq<T>, limit: nat): seq<T> {
    if limit == 0 || limit >= |s| then s else s[..limit]
  }

  lemma {:induction false} FilterTwice<T>(s: seq<T>, p: T -> bool, q: T -> bool, both: T -> bool)
    requires forall x <- s :: both(x) == (p(x) && q(x))
    ensures Filter(Filter(s, p), q) == Filter(s, both)
  {
    if |s| > 0 {
      assert s[0] in s;
      FilterTwice(s[1..], p, q, both);
    }
  }

  lemma {:induction false} FilterAll<T>(s: seq<T>, p: T -> bool)
    requires forall x <- s :: p(x)
    ensures Filter(s, p) == s
  {
    if |s| > 0 {
      assert s[0] in s;
      FilterAll(s[1..], p);
    }
  }

  lemma FilterSplit<T>(s: seq<T>, n: nat, p: T -> bool)
    requires n <= |s|
    requires forall j :: 0 <= j < n ==> !p(s[j])
    requires forall j :: n <= j < |s| ==> p(s[j])
    ensures Filter(s, p) == s[n..]
  {
    forall x | x in s[..n] ensures !p(x) {
      var j :| 0 <= j < n && s[..n][j] == x;
    }
    forall x | x in s[n..] ensures p(x) {
      var j :| 0 <= j < |s| - n && s[n..][j] == x;
    }
    FilterNone(s[..n], p);
    FilterAll(s[n..], p);
    FilterConcat(s[..n], s[n..], p);
    assert s == s[..n] + s[n..];
  }
}
