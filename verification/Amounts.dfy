/** Amounts of money: fixed-point numbers with eight digits behind the point, in a currency.

    Every operation is specified by what it does to the exact total in units of 1e-8. Rounding of floating-point numbers
    is not modelled: numbers are mathematical integers. */
module Amounts {

  const FRACTIONAL_BASE: nat := 100_000_000
  const FRACTIONAL_LENGTH: nat := 8
  const MAX_VALUE: nat := 0x10_0000_0000_0000

  datatype Amount = Amount(currency: string, value: nat, fraction: nat)

  datatype Result = Result(amount: Amount, saturated: bool)

  /** The source throws an error where there is no answer. */
  datatype Outcome<T> = Ok(result: T) | Throws

  function Zero(currency: string): Amount {
    Amount(currency, 0, 0)
  }

  function Total(a: Amount): nat {
    a.value * FRACTIONAL_BASE + a.fraction
  }

  /** The fraction is less than one. Amounts may be written otherwise, and most operations accept that. */
  predicate Normal(a: Amount) {
    a.fraction < FRACTIONAL_BASE
  }

  function OfTotal(currency: string, total: nat): (a: Amount)
    ensures Normal(a) && Total(a) == total
  {
    Amount(currency, total / FRACTIONAL_BASE, total % FRACTIONAL_BASE)
  }

  predicate TooLarge(total: nat) {
    total / FRACTIONAL_BASE > MAX_VALUE
  }

  lemma NormalIsOfTotal(a: Amount)
    requires Normal(a)
    ensures a == OfTotal(a.currency, Total(a))
  {
  }

  lemma Whole(value: nat, fraction: nat)
    ensures (value * FRACTIONAL_BASE + fraction) / FRACTIONAL_BASE == value + fraction / FRACTIONAL_BASE
    ensures (value * FRACTIONAL_BASE + fraction) % FRACTIONAL_BASE == fraction % FRACTIONAL_BASE
  {
  }

  function Sum(rest: seq<Amount>): nat {
    if rest == [] then 0 else Sum(rest[..|rest| - 1]) + Total(rest[|rest| - 1])
  }

  lemma SumOfMore(rest: seq<Amount>, i: nat)
    requires i < |rest|
    ensures Sum(rest[..i + 1]) == Sum(rest[..i]) + Total(rest[i])
  {
    assert rest[..i + 1][..i] == rest[..i];
  }

  lemma {:induction false} SumGrows(rest: seq<Amount>, i: nat, j: nat)
    requires i <= j <= |rest|
    ensures Sum(rest[..i]) <= Sum(rest[..j])
  {
    if i < j {
      SumGrows(rest, i, j - 1);
      SumOfMore(rest, j - 1);
    }
  }

  /** How many of the amounts, from the first on, are in the currency. */
  function SameCurrency(currency: string, rest: seq<Amount>): (n: nat)
    ensures n <= |rest|
    ensures forall i :: 0 <= i < n ==> rest[i].currency == currency
    ensures n < |rest| ==> rest[n].currency != currency
  {
    if rest == [] || rest[0].currency != currency then 0 else 1 + SameCurrency(currency, rest[1..])
  }

  lemma {:induction false} SameCurrencyIs(currency: string, rest: seq<Amount>, n: nat)
    requires n <= |rest| && (forall i :: 0 <= i < n ==> rest[i].currency == currency)
    ensures n <= SameCurrency(currency, rest)
    ensures n < |rest| && rest[n].currency != currency ==> SameCurrency(currency, rest) == n
  {
    if n > 0 {
      SameCurrencyIs(currency, rest[1..], n - 1);
    }
  }

  // ---------------------------------------------------------- add and subtract

  /** The exact sum, or the largest amount where the sum up to the first foreign currency is too large. A foreign
      currency is noticed only when the sum before it is not. */
  function Added(first: Amount, rest: seq<Amount>): (r: Outcome<Result>) {
    var n := SameCurrency(first.currency, rest);
    var total := Total(first) + Sum(rest[..n]);
    if TooLarge(total) then Ok(Result(Amount(first.currency, MAX_VALUE, FRACTIONAL_BASE - 1), true))
    else if n < |rest| then Throws
    else Ok(Result(OfTotal(first.currency, total), false))
  }

  lemma TooLargeStays(a: nat, b: nat)
    requires a <= b
    ensures TooLarge(a) ==> TooLarge(b)
  {
  }

  lemma AddedEarly(first: Amount, rest: seq<Amount>, n: nat)
    requires n <= SameCurrency(first.currency, rest) && TooLarge(Total(first) + Sum(rest[..n]))
    ensures Added(first, rest) == Ok(Result(Amount(first.currency, MAX_VALUE, FRACTIONAL_BASE - 1), true))
  {
    var m := SameCurrency(first.currency, rest);
    SumGrows(rest, n, m);
    TooLargeStays(Total(first) + Sum(rest[..n]), Total(first) + Sum(rest[..m]));
  }

  method Add(first: Amount, rest: seq<Amount>) returns (r: Outcome<Result>)
    ensures r == Added(first, rest)
    ensures var n := SameCurrency(first.currency, rest);
      var total, limit := first.value * 100_000_000 + first.fraction + Sum(rest[..n]),
        (0x10_0000_0000_0000 + 1) * 100_000_000;
      if r.Throws? then total < limit && n < |rest|
      else if r.result.saturated then
        total >= limit && r.result.amount == Amount(first.currency, 0x10_0000_0000_0000, 99_999_999)
      else
        var sum := r.result.amount;
        && n == |rest| && sum.currency == first.currency
        && sum.value * 100_000_000 + sum.fraction == total < limit && sum.fraction < 100_000_000
  {
    var currency := first.currency;
    var most := Amount(currency, MAX_VALUE, FRACTIONAL_BASE - 1);
    var value: nat := first.value + first.fraction / FRACTIONAL_BASE;
    if value > MAX_VALUE {
      AddedEarly(first, rest, 0);
      return Ok(Result(most, true));
    }
    var fraction: nat := first.fraction % FRACTIONAL_BASE;
    for k := 0 to |rest|
      invariant value <= MAX_VALUE && fraction < FRACTIONAL_BASE
      invariant value * FRACTIONAL_BASE + fraction == Total(first) + Sum(rest[..k])
      invariant k <= SameCurrency(currency, rest)
    {
      var x := rest[k];
      if x.currency != currency {
        SameCurrencyIs(currency, rest, k);
        return Throws;
      }
      SameCurrencyIs(currency, rest, k + 1);
      SumOfMore(rest, k);
      value := value + x.value + (fraction + x.fraction) / FRACTIONAL_BASE;
      fraction := (fraction + x.fraction) % FRACTIONAL_BASE;
      if value > MAX_VALUE {
        AddedEarly(first, rest, k + 1);
        return Ok(Result(most, true));
      }
    }
    r := Ok(Result(Amount(currency, value, fraction), false));
  }

  /** The exact difference, or zero where the sum up to the first foreign currency is larger than the amount. */
  function Subtracted(a: Amount, rest: seq<Amount>): (r: Outcome<Result>) {
    var n := SameCurrency(a.currency, rest);
    if Total(a) < Sum(rest[..n]) then Ok(Result(Zero(a.currency), true))
    else if n < |rest| then Throws
    else Ok(Result(OfTotal(a.currency, Total(a) - Sum(rest[..n])), false))
  }

  /** What subtract answers with: of amounts that are not normal the fraction can come out negative. */
  datatype Difference = Difference(currency: string, value: nat, fraction: int, saturated: bool)

  function AsDifference(r: Outcome<Result>): Outcome<Difference> {
    match r
    case Throws => Throws
    case Ok(result) =>
      Ok(Difference(result.amount.currency, result.amount.value, result.amount.fraction, result.saturated))
  }

  /** What is left while amounts are taken away, as it is written. */
  datatype Remainder = Remainder(value: int, fraction: int)

  function Less(left: Remainder, b: Amount): Remainder {
    if left.fraction < b.fraction
    then Remainder(left.value - b.value - 1, left.fraction - b.fraction + FRACTIONAL_BASE)
    else Remainder(left.value - b.value, left.fraction - b.fraction)
  }

  function Remaining(a: Amount, rest: seq<Amount>): Remainder {
    if rest == [] then Remainder(a.value, a.fraction)
    else Less(Remaining(a, rest[..|rest| - 1]), rest[|rest| - 1])
  }

  /** Whole units are compared first, and fractions only where those are equal. */
  predicate WrittenBelow(left: Remainder, b: Amount) {
    left.value < b.value || (left.value == b.value && left.fraction < b.fraction)
  }

  lemma RemainingMore(a: Amount, rest: seq<Amount>, k: nat)
    requires k < |rest|
    ensures Remaining(a, rest[..k + 1]) == Less(Remaining(a, rest[..k]), rest[k])
  {
    assert rest[..k + 1][..k] == rest[..k];
  }

  /** What is left is the exact difference, whatever it is written like. */
  lemma {:induction false} RemainingTotal(a: Amount, rest: seq<Amount>)
    ensures var left := Remaining(a, rest); left.value * FRACTIONAL_BASE + left.fraction == Total(a) - Sum(rest)
  {
    if rest != [] {
      RemainingTotal(a, rest[..|rest| - 1]);
    }
  }

  lemma {:induction false} RemainingNormal(a: Amount, rest: seq<Amount>)
    requires Normal(a) && forall b <- rest :: Normal(b)
    ensures 0 <= Remaining(a, rest).fraction < FRACTIONAL_BASE
  {
    if rest != [] {
      RemainingNormal(a, rest[..|rest| - 1]);
      assert Normal(rest[|rest| - 1]);
    }
  }

  lemma {:induction false} RemainingFalls(a: Amount, rest: seq<Amount>, i: nat, j: nat)
    requires i <= j <= |rest|
    ensures Remaining(a, rest[..j]).value <= Remaining(a, rest[..i]).value
  {
    if i < j {
      RemainingFalls(a, rest, i, j - 1);
      RemainingMore(a, rest, j - 1);
    }
  }

  /** The whole units run out exactly where what is left is written below the next amount. */
  lemma {:induction false} RunsOutExactlyWhen(a: Amount, rest: seq<Amount>, n: nat)
    requires n <= |rest|
    ensures Remaining(a, rest[..n]).value < 0 <==>
      exists k :: 0 <= k < n && WrittenBelow(Remaining(a, rest[..k]), rest[k])
  {
    hide Remaining;
    if n == 0 {
      NothingTaken(a, rest);
    } else {
      RunsOutExactlyWhen(a, rest, n - 1);
      RemainingMore(a, rest, n - 1);
    }
  }

  lemma NothingTaken(a: Amount, rest: seq<Amount>)
    ensures Remaining(a, rest[..0]) == Remainder(a.value, a.fraction)
  {
  }

  /** What subtract answers: it saturates when the whole units run out before the first foreign currency. */
  function Taken(a: Amount, rest: seq<Amount>): Outcome<Difference> {
    var n := SameCurrency(a.currency, rest);
    var left := Remaining(a, rest[..n]);
    if left.value < 0 then Ok(Difference(a.currency, 0, 0, true))
    else if n < |rest| then Throws
    else Ok(Difference(a.currency, left.value, left.fraction, false))
  }

  lemma TakenOfNormal(a: Amount, rest: seq<Amount>)
    requires Normal(a) && forall b <- rest :: Normal(b)
    ensures Taken(a, rest) == AsDifference(Subtracted(a, rest))
  {
    hide Remaining, Sum, SameCurrency;
    var n := SameCurrency(a.currency, rest);
    RemainingTotal(a, rest[..n]);
    RemainingNormal(a, rest[..n]);
    var left := Remaining(a, rest[..n]);
    if left.value >= 0 {
      NormalIsOfTotal(Amount(a.currency, left.value, left.fraction));
    }
  }

  lemma TakenEarly(a: Amount, rest: seq<Amount>, k: nat)
    requires k <= SameCurrency(a.currency, rest) && Remaining(a, rest[..k]).value < 0
    ensures Taken(a, rest) == Ok(Difference(a.currency, 0, 0, true))
  {
    hide Remaining, SameCurrency;
    RemainingFalls(a, rest, k, SameCurrency(a.currency, rest));
  }

  /** Of any amounts an answer that is not saturated has the exact total; and the answer is saturated if and only if at
      some place what is left is below the next amount by the order of the written parts, which may not be that of the
      totals. */
  lemma AboutTaken(a: Amount, rest: seq<Amount>)
    ensures var r := Taken(a, rest);
      && (r.Throws? ==> SameCurrency(a.currency, rest) < |rest|)
      && (r.Ok? && r.result.saturated ==> r.result == Difference(a.currency, 0, 0, true))
      && (r.Ok? && !r.result.saturated ==>
          && r.result.currency == a.currency && SameCurrency(a.currency, rest) == |rest|
          && r.result.value * FRACTIONAL_BASE + r.result.fraction == Total(a) - Sum(rest))
      && (r.Ok? && r.result.saturated <==> exists k ::
          0 <= k < SameCurrency(a.currency, rest) && WrittenBelow(Remaining(a, rest[..k]), rest[k]))
  {
    hide Remaining, Sum, SameCurrency;
    var n := SameCurrency(a.currency, rest);
    RunsOutExactlyWhen(a, rest, n);
    RemainingTotal(a, rest[..n]);
    assert n == |rest| ==> rest[..n] == rest;
  }

  method Sub(a: Amount, rest: seq<Amount>) returns (r: Outcome<Difference>)
    ensures r == Taken(a, rest)
    ensures Normal(a) && (forall b <- rest :: Normal(b)) ==> r == AsDifference(Subtracted(a, rest))
    ensures r.Ok? && !r.result.saturated ==>
      r.result.value * FRACTIONAL_BASE + r.result.fraction == Total(a) - Sum(rest)
    ensures r.Ok? && r.result.saturated <==> exists k ::
      0 <= k < SameCurrency(a.currency, rest) && WrittenBelow(Remaining(a, rest[..k]), rest[k])
    ensures r.Throws? ==> SameCurrency(a.currency, rest) < |rest|
    ensures r.Ok? && r.result.saturated ==> r.result == Difference(a.currency, 0, 0, true)
    ensures r.Ok? && !r.result.saturated ==>
      r.result.currency == a.currency && SameCurrency(a.currency, rest) == |rest|
  {
    hide Remaining, Sum, SameCurrency, Taken, Less, WrittenBelow, Total, Subtracted;
    r := TakeAway(a, rest);
    AboutTaken(a, rest);
    if Normal(a) && forall b <- rest :: Normal(b) {
      TakenOfNormal(a, rest);
    }
  }

  /** The loop of subtract. */
  method TakeAway(a: Amount, rest: seq<Amount>) returns (r: Outcome<Difference>)
    ensures r == Taken(a, rest)
  {
    NothingTaken(a, rest);
    hide Remaining, Sum, SameCurrency, Taken, Less;
    var currency := a.currency;
    var value: nat, fraction: int := a.value, a.fraction;
    for k := 0 to |rest|
      invariant Remaining(a, rest[..k]) == Remainder(value, fraction)
      invariant k <= SameCurrency(currency, rest) <= |rest|
    {
      var b := rest[k];
      if b.currency != currency {
        SameCurrencyIs(currency, rest, k);
        TakenForeign(a, rest);
        return Throws;
      }
      SameCurrencyIs(currency, rest, k + 1);
      RemainingMore(a, rest, k);
      LessParts(Remainder(value, fraction), b);
      if fraction < b.fraction {
        if value < 1 {
          TakenEarly(a, rest, k + 1);
          return Ok(Difference(currency, 0, 0, true));
        }
        value := value - 1;
        fraction := fraction + FRACTIONAL_BASE;
      }
      fraction := fraction - b.fraction;
      if value < b.value {
        TakenEarly(a, rest, k + 1);
        return Ok(Difference(currency, 0, 0, true));
      }
      value := value - b.value;
    }
    assert rest[..|rest|] == rest;
    TakenAll(a, rest);
    r := Ok(Difference(currency, value, fraction, false));
  }

  lemma LessParts(left: Remainder, b: Amount)
    ensures left.fraction < b.fraction ==>
      Less(left, b) == Remainder(left.value - 1 - b.value, left.fraction + FRACTIONAL_BASE - b.fraction)
    ensures left.fraction >= b.fraction ==>
      Less(left, b) == Remainder(left.value - b.value, left.fraction - b.fraction)
  {
  }

  lemma TakenForeign(a: Amount, rest: seq<Amount>)
    requires SameCurrency(a.currency, rest) < |rest|
    requires Remaining(a, rest[..SameCurrency(a.currency, rest)]).value >= 0
    ensures Taken(a, rest) == Throws
  {
  }

  lemma TakenAll(a: Amount, rest: seq<Amount>)
    requires SameCurrency(a.currency, rest) == |rest| && Remaining(a, rest).value >= 0
    ensures var left := Remaining(a, rest);
      Taken(a, rest) == Ok(Difference(a.currency, left.value, left.fraction, false))
  {
    assert rest[..|rest|] == rest;
  }

  /** Two whole units written as a fraction are taken to be less than one, and one to be no less than two. */
  method SubOfUnusual(currency: string) returns (early: Outcome<Difference>, late: Outcome<Difference>)
    ensures var one, two := Amount(currency, 1, 0), Amount(currency, 0, 2 * FRACTIONAL_BASE);
      && Total(one) < Total(two)
      && early == Ok(Difference(currency, 0, 0, true))
      && late.Ok? && !late.result.saturated && late.result.value * FRACTIONAL_BASE + late.result.fraction < 0
  {
    var one, two := Amount(currency, 1, 0), Amount(currency, 0, 2 * FRACTIONAL_BASE);
    assert [two][..1] == [two] && [two][..0] == [] && [one][..1] == [one] && [one][..0] == [];
    SameCurrencyIs(currency, [one], 1);
    SameCurrencyIs(currency, [two], 1);
    RemainingMore(two, [one], 0);
    RemainingMore(one, [two], 0);
    assert Remaining(two, [one]) == Remainder(-1, 2 * FRACTIONAL_BASE);
    assert Remaining(one, [two]) == Remainder(0, -100_000_000);
    early := Sub(two, [one]);
    late := Sub(one, [two]);
  }

  /** Taking away what was added gives the amount back, unless the sum was too large. */
  lemma AddThenSubtract(a: Amount, rest: seq<Amount>)
    requires Normal(a) && Added(a, rest).Ok? && !Added(a, rest).result.saturated
    ensures Subtracted(Added(a, rest).result.amount, rest) == Ok(Result(a, false))
  {
    assert rest[..|rest|] == rest;
  }

  /** And adding what was taken away. */
  lemma SubtractThenAdd(a: Amount, rest: seq<Amount>)
    requires Normal(a) && a.value <= MAX_VALUE && Subtracted(a, rest).Ok? && !Subtracted(a, rest).result.saturated
    ensures Added(Subtracted(a, rest).result.amount, rest) == Ok(Result(a, false))
  {
    assert rest[..|rest|] == rest;
  }

  // ------------------------------------------------------- compare

  function Cmp(a: Amount, b: Amount): (r: Outcome<int>) {
    if a.currency != b.currency then Throws
    else
      var av := a.value + a.fraction / FRACTIONAL_BASE;
      var af := a.fraction % FRACTIONAL_BASE;
      var bv := b.value + b.fraction / FRACTIONAL_BASE;
      var bf := b.fraction % FRACTIONAL_BASE;
      Ok(if av < bv then -1 else if av > bv then 1 else if af < bf then -1 else if af > bf then 1 else 0)
  }

  /** The comparison is the one of the totals, however the amounts are written. */
  lemma CmpComparesTotals(a: Amount, b: Amount)
    ensures Cmp(a, b).Throws? <==> a.currency != b.currency
    ensures Cmp(a, b) == Ok(-1) <==> a.currency == b.currency && Total(a) < Total(b)
    ensures Cmp(a, b) == Ok(0) <==> a.currency == b.currency && Total(a) == Total(b)
    ensures Cmp(a, b) == Ok(1) <==> a.currency == b.currency && Total(a) > Total(b)
  {
  }

  function Min(a: Amount, b: Amount): Outcome<Amount> {
    match Cmp(a, b)
    case Throws => Throws
    case Ok(c) => Ok(if c >= 0 then b else a)
  }

  function Max(a: Amount, b: Amount): Outcome<Amount> {
    match Cmp(a, b)
    case Throws => Throws
    case Ok(c) => Ok(if c >= 0 then a else b)
  }

  /** Between them, the smaller and the larger are the two amounts. */
  lemma MinAndMax(a: Amount, b: Amount)
    requires a.currency == b.currency
    ensures Min(a, b).Ok? && Max(a, b).Ok? && Total(Min(a, b).result) <= Total(Max(a, b).result)
    ensures multiset{Min(a, b).result, Max(a, b).result} == multiset{a, b}
  {
    CmpComparesTotals(a, b);
  }
}
