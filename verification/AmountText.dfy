/** Amounts in text form, such as EUR:20.5. */
module AmountText {
  import opened Options
  import opened Decimals
  import opened Amounts

  predicate IsCurrencyChar(c: char) {
    'a' <= c <= 'z' || 'A' <= c <= 'Z' || '0' <= c <= '9' || c == '_' || c == '*' || c == '-'
  }

  predicate IsCurrency(s: string) {
    s != [] && forall c <- s :: IsCurrencyChar(c)
  }

  /** The length of the longest prefix of characters that are allowed. */
  function Span(s: string, allowed: char -> bool): (n: nat)
    ensures n <= |s| && (forall c <- s[..n] :: allowed(c)) && (n < |s| ==> !allowed(s[n]))
  {
    if s == [] || !allowed(s[0]) then 0
    else
      var n := Span(s[1..], allowed);
      assert s[..n + 1] == [s[0]] + s[1..][..n];
      n + 1
  }

  lemma {:induction false} SpanStops(a: string, b: string, allowed: char -> bool)
    requires (forall c <- a :: allowed(c)) && (b != [] ==> !allowed(b[0]))
    ensures Span(a + b, allowed) == |a|
  {
    if a == [] {
      assert a + b == b;
    } else {
      assert (a + b)[1..] == a[1..] + b;
      SpanStops(a[1..], b, allowed);
    }
  }

  /** The digits behind the point, in units of 1e-8. */
  function FractionOf(digits: string): nat
    requires AllDigits(digits) && |digits| <= FRACTIONAL_LENGTH
  {
    Value(digits) * Pow10(FRACTIONAL_LENGTH - |digits|)
  }

  function Parse(s: string): (r: Option<Amount>) {
    var n := Span(s, IsCurrencyChar);
    if n == 0 || n == |s| || s[n] != ':' then None else ParseNumber(s[..n], s[n + 1..])
  }

  function ParseNumber(currency: string, s: string): Option<Amount> {
    var m := Span(s, IsDigit);
    var tail := if m == |s| then ".0" else s[m..];
    if m == 0 || tail[0] != '.' || |tail| == 1 || !AllDigits(tail[1..]) then None
    else if |tail| > FRACTIONAL_LENGTH + 1 then None
    else
      var value := Value(s[..m]);
      if value > MAX_VALUE then None else Some(Amount(currency, value, FractionOf(tail[1..])))
  }

  /** The shortest digits for a fraction: none at the end is zero. */
  ghost predicate ShortDigits(digits: string, fraction: nat) {
    && 0 < |digits| <= FRACTIONAL_LENGTH && AllDigits(digits) && digits[|digits| - 1] != '0'
    && FractionOf(digits) == fraction
  }

  /** The standard text of an amount. */
  ghost predicate Prints(a: Amount, s: string) {
    var t := OfTotal(a.currency, Total(a));
    var head := a.currency + ":" + Text(t.value);
    if t.fraction == 0 then s == head
    else exists digits :: ShortDigits(digits, t.fraction) && s == head + "." + digits
  }

  // --------------------------------------------------------------- round trip

  /** The texts that are amounts. */
  ghost predicate Parts(currency: string, whole: string, tail: string) {
    && IsCurrency(currency) && whole != [] && AllDigits(whole) && Value(whole) <= MAX_VALUE
    && (tail != [] ==> tail[0] == '.' && 1 < |tail| <= FRACTIONAL_LENGTH + 1 && AllDigits(tail[1..]))
  }

  lemma ParseParts(currency: string, whole: string, tail: string)
    requires Parts(currency, whole, tail)
    ensures Parse(currency + ":" + whole + tail)
      == Some(Amount(currency, Value(whole), if tail == [] then 0 else FractionOf(tail[1..])))
  {
    hide ParseNumber, FractionOf;
    var rest := whole + tail;
    assert currency + ":" + whole + tail == currency + (":" + rest);
    SpanStops(currency, ":" + rest, IsCurrencyChar);
    assert (currency + (":" + rest))[..|currency|] == currency && (currency + (":" + rest))[|currency| + 1..] == rest;
    ParseNumberParts(currency, whole, tail);
  }

  /** Texts that are read. */
  lemma ReadExamples()
    ensures Parse("EUR:20.5") == Some(Amount("EUR", 20, 50_000_000))
    ensures Parse("azAZ09_*-:007.00000001") == Some(Amount("azAZ09_*-", 7, 1))
  {
    hide Parse, ParseNumber, Value, Pow10, Span;
    ShortNumbers();
    EightDigits();
    Powers();
    assert ".5"[1..] == "5" && "EUR" + ":" + "20" + ".5" == "EUR:20.5";
    ParseParts("EUR", "20", ".5");
    assert ".00000001"[1..] == "00000001" && "azAZ09_*-" + ":" + "007" + ".00000001" == "azAZ09_*-:007.00000001";
    ParseParts("azAZ09_*-", "007", ".00000001");
  }

  /** And texts that are not: without a currency, with a foreign character in it, with a point and no digits, or with a
      sign. */
  lemma RefusedExamples()
    ensures Parse(":1") == None && Parse("EUR 1:1") == None && Parse("EUR:1.") == None && Parse("EUR:-1") == None
  {
    hide Span, Value;
    SpanStops("", ":1", IsCurrencyChar);
    SpanStops("EUR", " 1:1", IsCurrencyChar);
    SpanStops("EUR", ":1.", IsCurrencyChar);
    SpanStops("EUR", ":-1", IsCurrencyChar);
    assert "" + ":1" == ":1" && "EUR" + " 1:1" == "EUR 1:1" && "EUR" + ":1." == "EUR:1." && "EUR" + ":-1" == "EUR:-1";
    SpanStops("1", ".", IsDigit);
    SpanStops("", "-1", IsDigit);
    assert "EUR:1."[4..] == "1" + "." && "EUR:-1"[4..] == "" + "-1";
  }

  lemma ShortNumbers()
    ensures AllDigits("20") && Value("20") == 20 && Value("5") == 5 && AllDigits("007") && Value("007") == 7
  {
    assert "20"[..1] == "2" && "2"[..0] == "" && "5"[..0] == "";
    assert "007"[..2] == "00" && "00"[..1] == "0" && "0"[..0] == "";
  }

  lemma EightDigits()
    ensures AllDigits("00000001") && Value("00000001") == 1
  {
    var s := "00000001";
    assert s[..7] == "0000000" && "0000000"[..6] == "000000" && "000000"[..5] == "00000" && "00000"[..4] == "0000";
    assert "0000"[..3] == "000" && "000"[..2] == "00" && "00"[..1] == "0" && "0"[..0] == "";
    assert Value("0000") == 0;
    assert Value("0000000") == 0;
  }

  lemma ParseNumberParts(currency: string, whole: string, tail: string)
    requires whole != [] && AllDigits(whole) && Value(whole) <= MAX_VALUE
    requires tail != [] ==> tail[0] == '.' && 1 < |tail| <= FRACTIONAL_LENGTH + 1 && AllDigits(tail[1..])
    ensures ParseNumber(currency, whole + tail)
      == Some(Amount(currency, Value(whole), if tail == [] then 0 else FractionOf(tail[1..])))
  {
    SpanStops(whole, tail, IsDigit);
    assert (whole + tail)[..|whole|] == whole && (whole + tail)[|whole|..] == tail;
    if tail == [] {
      assert ".0"[1..] == "0" && "0"[..0] == "";
      assert Value("0") == 0;
    }
  }

  /** Nothing else is read. */
  lemma ParseOnlyParts(s: string) returns (whole: string, tail: string)
    requires Parse(s).Some?
    ensures var a := Parse(s).value;
      && Parts(a.currency, whole, tail) && s == a.currency + ":" + whole + tail
      && a.value == Value(whole) && a.fraction == if tail == [] then 0 else FractionOf(tail[1..])
  {
    hide ParseNumber, FractionOf;
    var n := Span(s, IsCurrencyChar);
    var rest := s[n + 1..];
    whole, tail := ParseNumberOnlyParts(s[..n], rest);
    assert s == s[..n] + ":" + rest;
    assert s[..n] + ":" + (whole + tail) == s[..n] + ":" + whole + tail;
  }

  lemma ParseNumberOnlyParts(currency: string, s: string) returns (whole: string, tail: string)
    requires IsCurrency(currency) && ParseNumber(currency, s).Some?
    ensures Parts(currency, whole, tail) && s == whole + tail
    ensures ParseNumber(currency, s) == Some(
      Amount(currency, Value(whole), if tail == [] then 0 else FractionOf(tail[1..])))
  {
    hide FractionOf;
    var m := Span(s, IsDigit);
    whole, tail := s[..m], s[m..];
    ParseNumberParts(currency, whole, tail) by {
      assert s == whole + tail;
    }
  }

  lemma FractionBelow(digits: string)
    requires AllDigits(digits) && |digits| <= FRACTIONAL_LENGTH
    ensures FractionOf(digits) < FRACTIONAL_BASE
  {
    ValueOfPadded(digits);
    ValueBelow(Padded(digits));
    Powers();
  }

  /** What is read is a valid amount in normal form. */
  lemma ParsedIsValid(s: string)
    requires Parse(s).Some?
    ensures var a := Parse(s).value; IsCurrency(a.currency) && a.value <= MAX_VALUE && Normal(a)
  {
    hide Parse, FractionOf;
    var whole, tail := ParseOnlyParts(s);
    if tail != [] {
      FractionBelow(tail[1..]);
    }
  }

  /** However it was written, the standard text of an amount that was read is read as the same amount. */
  lemma StandardTextIsRead(s: string, t: string)
    requires Parse(s).Some? && Prints(Parse(s).value, t)
    ensures Parse(t) == Parse(s)
  {
    hide Parse, Prints;
    var a := Parse(s).value;
    ParsedIsValid(s);
    NormalIsOfTotal(a);
    ParseOfPrinted(a, t);
  }

  /** A standard text comes back as it was. */
  lemma StandardTextComesBack(a: Amount, s: string, t: string)
    requires IsCurrency(a.currency) && !TooLarge(Total(a)) && Prints(a, s)
    requires Parse(s).Some? && Prints(Parse(s).value, t)
    ensures s == t
  {
    hide Parse, TooLarge, Total;
    ParseOfPrinted(a, s);
    SamePrinted(a, OfTotal(a.currency, Total(a)), s);
    PrintsUnique(OfTotal(a.currency, Total(a)), s, t);
  }

  lemma SamePrinted(a: Amount, b: Amount, s: string)
    requires a.currency == b.currency && Total(a) == Total(b) && Prints(a, s)
    ensures Prints(b, s)
  {
  }

  /** Reading back what was printed. */
  lemma ParseOfPrinted(a: Amount, s: string)
    requires IsCurrency(a.currency) && !TooLarge(Total(a)) && Prints(a, s)
    ensures Parse(s) == Some(OfTotal(a.currency, Total(a)))
  {
    var t := OfTotal(a.currency, Total(a));
    var whole := Text(t.value);
    ValueOfText(t.value);
    if t.fraction == 0 {
      assert s == a.currency + ":" + whole + "";
      ParseParts(a.currency, whole, "");
    } else {
      var digits :| ShortDigits(digits, t.fraction) && s == a.currency + ":" + whole + "." + digits;
      var tail := "." + digits;
      assert tail[1..] == digits;
      assert s == a.currency + ":" + whole + tail;
      ParseParts(a.currency, whole, tail);
    }
  }

  /** Adding zeros at the end. */
  function Padded(digits: string): (r: string)
    requires AllDigits(digits) && |digits| <= FRACTIONAL_LENGTH
    ensures |r| == FRACTIONAL_LENGTH && AllDigits(r) && digits <= r && (forall i :: |digits| <= i < |r| ==> r[i] == '0')
    decreases FRACTIONAL_LENGTH - |digits|
  {
    if |digits| == FRACTIONAL_LENGTH then digits else Padded(digits + "0")
  }

  lemma {:induction false} ValueOfPadded(digits: string)
    requires AllDigits(digits) && |digits| <= FRACTIONAL_LENGTH
    ensures Value(Padded(digits)) == FractionOf(digits)
    decreases FRACTIONAL_LENGTH - |digits|
  {
    if |digits| < FRACTIONAL_LENGTH {
      ValueOfPadded(digits + "0");
      ValueOfMore(digits, 0);
      TenTimes(Value(digits), Pow10(FRACTIONAL_LENGTH - |digits| - 1));
    }
  }

  lemma TenTimes(a: nat, b: nat)
    ensures (10 * a) * b == a * (10 * b)
  {
  }

  lemma ShortDigitsUnique(a: string, b: string, fraction: nat)
    requires ShortDigits(a, fraction) && ShortDigits(b, fraction)
    ensures a == b
  {
    var p, q := Padded(a), Padded(b);
    ValueOfPadded(a);
    ValueOfPadded(b);
    SameValue(p, q);
    assert p[|a| - 1] == a[|a| - 1] && q[|b| - 1] == b[|b| - 1];
  }

  /** There is one standard text. */
  lemma PrintsUnique(a: Amount, s: string, t: string)
    requires Prints(a, s) && Prints(a, t)
    ensures s == t
  {
    var n := OfTotal(a.currency, Total(a));
    if n.fraction != 0 {
      var head := a.currency + ":" + Text(n.value);
      var x :| ShortDigits(x, n.fraction) && s == head + "." + x;
      var y :| ShortDigits(y, n.fraction) && t == head + "." + y;
      ShortDigitsUnique(x, y, n.fraction);
    }
  }

  // ---------------------------------------------------------------- printing

  lemma Powers()
    ensures Pow10(0) == 1 && Pow10(1) == 10 && Pow10(2) == 100 && Pow10(3) == 1000 && Pow10(4) == 10000
    ensures Pow10(5) == 100000 && Pow10(6) == 1000000 && Pow10(7) == 10000000 && Pow10(8) == FRACTIONAL_BASE
  {
    var p2 := Pow10(2);
    var p4 := Pow10(4);
    var p6 := Pow10(6);
  }

  /** With m the part of the fraction that is still to be printed, shifted by the digits printed so far. */
  lemma NextDigit(i: nat, n: nat, m: nat)
    requires i < FRACTIONAL_LENGTH && n == m * Pow10(i) && m < Pow10(FRACTIONAL_LENGTH - i)
    ensures var p := Pow10(FRACTIONAL_LENGTH - i - 1);
      && n * 10 / FRACTIONAL_BASE == m / p < 10
      && n * 10 % FRACTIONAL_BASE == (m % p) * Pow10(i + 1)
      && Pow10(FRACTIONAL_LENGTH - i) == 10 * p
  {
    Powers();
    if i == 0 {
    } else if i == 1 {
    } else if i == 2 {
    } else if i == 3 {
    } else if i == 4 {
    } else if i == 5 {
    } else if i == 6 {
    } else {
    }
  }

  /** The loop prints the digits of the expansion one by one and stops when the rest is zero. */
  method Stringify(a: Amount) returns (r: string)
    ensures Prints(a, r)
  {
    hide Value, Pow10, Prints, ShortDigits, FractionOf, Text, Total;
    var av := a.value + a.fraction / FRACTIONAL_BASE;
    var af := a.fraction % FRACTIONAL_BASE;
    var s := Text(av);
    if af != 0 {
      s := s + ".";
      var n: nat := af;
      ghost var digits, m := "", af;
      Powers();
      EmptyValue();
      var i := 0;
      while i < FRACTIONAL_LENGTH && n != 0
        invariant |digits| == i <= FRACTIONAL_LENGTH && AllDigits(digits)
        invariant s == Text(av) + "." + digits
        invariant n == m * Pow10(i) && m < Pow10(FRACTIONAL_LENGTH - i)
        invariant af == Value(digits) * Pow10(FRACTIONAL_LENGTH - i) + m
        invariant m == 0 ==> digits != [] && digits[|digits| - 1] != '0'
      {
        ghost var p := Pow10(FRACTIONAL_LENGTH - i - 1);
        NextDigit(i, n, m);
        ValueOfMore(digits, m / p);
        SplitDigit(Value(digits), m, p);
        digits, m := digits + [Digit(m / p)], m % p;
        s := s + [Digit(n * 10 / FRACTIONAL_BASE)];
        n := n * 10 % FRACTIONAL_BASE;
        i := i + 1;
      }
      Shortest(digits, i, n, m, af);
    }
    PrintsThis(a, av, af, s);
    r := a.currency + ":" + s;
  }

  /** Nothing is left when the loop ends. */
  lemma Shortest(digits: string, i: nat, n: nat, m: nat, fraction: nat)
    requires |digits| == i <= FRACTIONAL_LENGTH && AllDigits(digits)
    requires n == m * Pow10(i) && m < Pow10(FRACTIONAL_LENGTH - i) && (i == FRACTIONAL_LENGTH || n == 0)
    requires fraction == Value(digits) * Pow10(FRACTIONAL_LENGTH - i) + m
    requires m == 0 ==> digits != [] && digits[|digits| - 1] != '0'
    ensures ShortDigits(digits, fraction)
  {
    if i == FRACTIONAL_LENGTH {
      assert Pow10(0) == 1;
    } else {
      assert m * Pow10(i) >= m;
    }
  }

  lemma PrintsThis(a: Amount, av: nat, af: nat, s: string)
    requires av == a.value + a.fraction / FRACTIONAL_BASE && af == a.fraction % FRACTIONAL_BASE
    requires if af == 0 then s == Text(av) else exists digits :: ShortDigits(digits, af) && s == Text(av) + "." + digits
    ensures Prints(a, a.currency + ":" + s)
  {
    hide ShortDigits, Text;
    Whole(a.value, a.fraction);
    if af != 0 {
      var digits :| ShortDigits(digits, af) && s == Text(av) + "." + digits;
      assert a.currency + ":" + s == a.currency + ":" + Text(av) + "." + digits;
    }
  }

  lemma EmptyValue()
    ensures Value("") == 0
  {
  }

  lemma SplitDigit(v: nat, m: nat, p: nat)
    requires p > 0
    ensures v * (10 * p) + m == (10 * v + m / p) * p + m % p
  {
  }
}
