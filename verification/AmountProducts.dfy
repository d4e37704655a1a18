/** Dividing and multiplying amounts. */
module AmountProducts {
  import opened Amounts

  function Divide(a: Amount, n: nat): (r: Outcome<Amount>) {
    if n == 0 then Throws
    else if n == 1 then Ok(a)
    else
      var r := a.value % n;
      Ok(Amount(a.currency, a.value / n, (r * FRACTIONAL_BASE + a.fraction) / n))
  }

  lemma SplitQuotient(q: nat, r: nat, f: nat, b: nat, n: nat)
    requires n > 0
    ensures ((n * q + r) * b + f) / n == q * b + (r * b + f) / n
  {
    Distribute(n, q, r, b);
    QuotientOfSum(q * b, r * b + f, n);
  }

  lemma Distribute(n: nat, q: nat, r: nat, b: nat)
    ensures (n * q + r) * b == n * (q * b) + r * b
  {
  }

  lemma QuotientOfSum(m: nat, rest: nat, n: nat)
    requires n > 0
    ensures (n * m + rest) / n == m + rest / n
  {
    var k := rest / n;
    assert rest == n * k + rest % n;
    assert n * m + rest == n * (m + k) + rest % n;
    UniqueQuotient(n * m + rest, n, m + k, rest % n);
  }

  lemma UniqueQuotient(x: nat, n: nat, q: nat, r: nat)
    requires n > 0 && x == n * q + r && r < n
    ensures x / n == q
  {
    var d := x / n - q;
    assert n * d == n * (x / n) - n * q;
    Multiples(n, d);
  }

  lemma Multiples(n: nat, d: int)
    ensures d >= 1 ==> n * d >= n
    ensures d <= -1 ==> n * d + n <= 0
  {
  }

  /** The division rounds the exact total down. */
  lemma DivideIsFloor(a: Amount, n: nat)
    ensures Divide(a, n).Throws? <==> n == 0
    ensures n > 0 ==> Total(Divide(a, n).result) == Total(a) / n && Divide(a, n).result.currency == a.currency
    ensures n > 0 && Normal(a) ==> Normal(Divide(a, n).result)
  {
    if n > 1 {
      QuotientOfTotal(a.value, a.fraction, n);
      if Normal(a) {
        BelowQuotient((a.value % n) * FRACTIONAL_BASE + a.fraction, n, FRACTIONAL_BASE);
      }
    }
  }

  lemma QuotientOfTotal(v: nat, f: nat, n: nat)
    requires n > 0
    ensures (v * FRACTIONAL_BASE + f) / n == (v / n) * FRACTIONAL_BASE + ((v % n) * FRACTIONAL_BASE + f) / n
  {
    SplitQuotient(v / n, v % n, f, FRACTIONAL_BASE, n);
    assert n * (v / n) + v % n == v;
  }

  lemma BelowQuotient(x: nat, n: nat, b: nat)
    requires n > 0 && x < n * b
    ensures x / n < b
  {
    Ordered(n, b, x / n);
  }

  lemma Ordered(n: nat, b: nat, c: nat)
    ensures b <= c ==> n * b <= n * c
  {
  }

  // ------------------------------------------------------------------ multiply

  function Copies(a: Amount, n: nat): seq<Amount> {
    seq(n, _ => a)
  }

  /** Multiplying is adding up as many copies, from zero. */
  function Multiplied(a: Amount, n: int): Outcome<Result> {
    if n < 0 then Throws else Added(Zero(a.currency), Copies(a, n))
  }

  lemma {:induction false} SumOfCopies(a: Amount, n: nat)
    ensures Sum(Copies(a, n)) == Times(n, Total(a))
  {
    if n > 0 {
      assert Copies(a, n)[..n - 1] == Copies(a, n - 1);
      SumOfCopies(a, n - 1);
    }
  }

  function Times(n: nat, total: nat): nat {
    n * total
  }

  lemma MultipliedIs(a: Amount, n: int)
    ensures n < 0 ==> Multiplied(a, n) == Throws
    ensures n >= 0 && TooLarge(Times(n, Total(a))) ==> (
      Multiplied(a, n) == Ok(Result(Amount(a.currency, MAX_VALUE, FRACTIONAL_BASE - 1), true)))
    ensures n >= 0 && !TooLarge(Times(n, Total(a))) ==> (
      Multiplied(a, n) == Ok(Result(OfTotal(a.currency, Times(n, Total(a))), false)))
  {
    if n >= 0 {
      var rest := Copies(a, n);
      SameCurrencyIs(a.currency, rest, n);
      assert rest[..n] == rest;
      SumOfCopies(a, n);
    }
  }

  lemma AddedTwo(x: Amount, y: Amount)
    requires x.currency == y.currency
    ensures Added(x, [y]) == if TooLarge(Total(x) + Total(y))
      then Ok(Result(Amount(x.currency, MAX_VALUE, FRACTIONAL_BASE - 1), true))
      else Ok(Result(OfTotal(x.currency, Total(x) + Total(y)), false))
  {
    SameCurrencyIs(x.currency, [y], 1);
    assert [y][..1] == [y] && [y][..0] == [];
    assert Sum([y]) == Total(y);
  }

  /** Sharing an amount out and putting the shares together again loses less than one unit for each share. */
  lemma SharesOfDivision(a: Amount, n: nat)
    requires n > 0 && a.value <= MAX_VALUE && Normal(a)
    ensures Multiplied(Divide(a, n).result, n).Ok? && !Multiplied(Divide(a, n).result, n).result.saturated
    ensures var together := Multiplied(Divide(a, n).result, n).result.amount;
      Total(together) <= Total(a) < Total(together) + n
  {
    hide Multiplied, Divide, Total, Times, TooLarge, Normal;
    DivideIsFloor(a, n);
    var share := Divide(a, n).result;
    MultipliedIs(share, n);
    FloorTimes(Total(a), n);
    NotTooLarge(a);
    TooLargeStays(Times(n, Total(share)), Total(a));
  }

  lemma FloorTimes(total: nat, n: nat)
    requires n > 0
    ensures Times(n, total / n) <= total < Times(n, total / n) + n
  {
  }

  lemma NotTooLarge(a: Amount)
    requires a.value <= MAX_VALUE && Normal(a)
    ensures !TooLarge(Total(a))
  {
  }

  /** Multiplication by doubling. A return in the middle is justified: the full product is too large as well. */
  method Mult(a: Amount, n: int) returns (r: Outcome<Result>)
    ensures r == Multiplied(a, n)
  {
    hide Added, TooLarge, Multiplied, Total, Times;
    MultipliedIs(a, n);
    if n < 0 {
      return Throws;
    }
    NoneAndOne(a.currency, Total(a));
    if n == 0 {
      return Ok(Result(Zero(a.currency), false));
    }
    var x, acc, m: nat := a, Zero(a.currency), n;
    while m > 1
      invariant m >= 1 && x.currency == acc.currency == a.currency
      invariant Total(acc) + Times(m, Total(x)) == Times(n, Total(a))
    {
      Halve(m, Total(x));
      ghost var t := Total(x);
      if m % 2 == 0 {
        m := m / 2;
      } else {
        m := (m - 1) / 2;
        AddedTwo(acc, x);
        var r2 := Add(acc, [x]);
        if r2.result.saturated {
          TooLargeStays(Total(acc) + t, Times(n, Total(a)));
          return r2;
        }
        acc := r2.result.amount;
      }
      AddedTwo(x, x);
      var r2 := Add(x, [x]);
      if r2.result.saturated {
        TooLargeStays(t + t, Times(n, Total(a)));
        return r2;
      }
      x := r2.result.amount;
    }
    AddedTwo(acc, x);
    NoneAndOne(a.currency, Total(x));
    r := Add(acc, [x]);
  }

  lemma NoneAndOne(currency: string, total: nat)
    ensures Total(Zero(currency)) == 0 && !TooLarge(0) && OfTotal(currency, 0) == Zero(currency)
    ensures Times(0, total) == 0 && Times(1, total) == total
  {
  }

  lemma Halve(m: nat, t: nat)
    requires m > 1
    ensures Times(m, t) == Times(m / 2, t + t) + (if m % 2 == 1 then t else 0) && Times(m / 2, t + t) >= t + t
  {
    Distribute(2, m / 2, m % 2, t);
    assert m == 2 * (m / 2) + m % 2;
    Ordered(t + t, 1, m / 2);
  }
}
