/** Decimal strings to scaled integers and back, on plain non-negative decimals such as "12", "0.05" or ".5". */
module BNConverter {
  import opened Common

  predicate AllDigits(s: string) { forall i | 0 <= i < |s| :: '0' <= s[i] <= '9' }

  function Digit(c: char): nat
    requires '0' <= c <= '9'
  {
    (c - '0') as nat
  }

  function Pow10(n: nat): (r: nat)
    ensures r > 0
  {
    if n == 0 then 1 else 10 * Pow10(n - 1)
  }

  // new BN(s, 10)
  function NatValue(s: string): nat
    requires AllDigits(s)
  {
    if s == "" then 0 else 10 * NatValue(s[..|s| - 1]) + Digit(s[|s| - 1])
  }

  // ---- Splitting at the point ----

  function PointAt(s: string): (k: nat)
    ensures k <= |s| && '.' !in s[..k] && (k < |s| ==> s[k] == '.')
  {
    if s == "" || s[0] == '.' then 0
    else
      var k := 1 + PointAt(s[1..]);
      assert s[..k] == [s[0]] + s[1..][..k - 1];
      k
  }

  // num.split(".")[0] and num.split(".")[1]
  function IntPart(s: string): string { s[..PointAt(s)] }

  function FractionPart(s: string): string {
    if PointAt(s) == |s| then ""
    else
      var rest := s[PointAt(s) + 1..];
      rest[..PointAt(rest)]
  }

  // Digits with at most one point among them.
  predicate Plain(s: string) {
    && AllDigits(IntPart(s)) && AllDigits(FractionPart(s)) && IntPart(s) + FractionPart(s) != ""
    && (s == IntPart(s) || s == IntPart(s) + "." + FractionPart(s))
  }

  lemma Parts(whole: string, fraction: string)
    requires AllDigits(whole) && AllDigits(fraction)
    ensures IntPart(whole) == whole && FractionPart(whole) == ""
    ensures IntPart(whole + "." + fraction) == whole && FractionPart(whole + "." + fraction) == fraction
  {
    NoPoint(whole, "");
    NoPoint(fraction, "");
    NoPoint(whole, "." + fraction);
    assert whole + "" == whole && fraction + "" == fraction;
    var s := whole + "." + fraction;
    assert s == whole + ("." + fraction) && s[|whole| + 1..] == fraction;
  }

  lemma {:induction false} NoPoint(s: string, rest: string)
    requires AllDigits(s) && (rest != "" ==> rest[0] == '.')
    ensures PointAt(s + rest) == |s|
  {
    if s != "" {
      assert (s + rest)[1..] == s[1..] + rest;
      NoPoint(s[1..], rest);
    }
  }

  // ---- What a string means ----

  // Digits after the point, read from the point outwards.
  function FractionValue(s: string): real
    requires AllDigits(s)
  {
    if s == "" then 0.0 else (Digit(s[0]) as real + FractionValue(s[1..])) / 10.0
  }

  function Value(s: string): real
    requires Plain(s)
  {
    NatValue(IntPart(s)) as real + FractionValue(FractionPart(s))
  }

  // ---- makeBN ----

  function Zeros(n: nat): string { seq(n, _ => '0') }

  // None: an error is thrown. Signs and exponents are not plain.
  function MakeBN(s: string, precision: nat): Option<nat> {
    if !Plain(s) || |FractionPart(s)| > precision then None
    else Some(NatValue(IntPart(s) + FractionPart(s) + Zeros(precision - |FractionPart(s)|)))
  }

  lemma {:induction false} ConcatValue(a: string, b: string)
    requires AllDigits(a) && AllDigits(b)
    ensures NatValue(a + b) == NatValue(a) * Pow10(|b|) + NatValue(b)
    decreases |b|
  {
    hide NatValue;
    if b == "" {
      assert a + b == a;
      NoDigits();
    } else {
      var n := |b| - 1;
      ConcatValue(a, b[..n]);
      assert (a + b)[..|a| + n] == a + b[..n];
      LastDigit(a + b);
      LastDigit(b);
      TenTimes(NatValue(a), Pow10(n));
    }
  }

  lemma NoDigits()
    ensures NatValue("") == 0 && Pow10(0) == 1
  {
  }

  lemma LastDigit(s: string)
    requires AllDigits(s) && s != ""
    ensures NatValue(s) == 10 * NatValue(s[..|s| - 1]) + Digit(s[|s| - 1])
  {
  }

  lemma TenTimes(a: nat, p: nat)
    ensures 10 * (a * p) == a * (10 * p)
  {
  }

  lemma {:induction false} ZerosValue(n: nat)
    ensures NatValue(Zeros(n)) == 0
  {
    if n > 0 {
      assert Zeros(n)[..n - 1] == Zeros(n - 1);
      ZerosValue(n - 1);
    }
  }

  lemma {:induction false} PowersAdd(m: nat, n: nat)
    ensures Pow10(m + n) == Pow10(m) * Pow10(n)
  {
    if m > 0 {
      PowersAdd(m - 1, n);
      TenTimes(Pow10(n), Pow10(m - 1));
    }
  }

  // x times ten to the k, by name for the steps that only pass it on.
  ghost function Shifted(x: real, k: nat): real { x * Pow10(k) as real }

  // Reading a fraction from the left as tenths or from the right as a whole number is the same, up to scale.
  lemma {:induction false} FractionScaled(s: string)
    requires AllDigits(s)
    ensures Shifted(FractionValue(s), |s|) == NatValue(s) as real
  {
    hide NatValue, Pow10, Shifted;
    if s == "" {
      NothingScaled();
    } else {
      var rest := s[1..];
      FractionScaled(rest);
      FirstDigit(s);
      TenthShifted(Digit(s[0]), FractionValue(rest), |rest|);
    }
  }

  lemma NothingScaled()
    ensures Shifted(0.0, 0) == NatValue("") as real
  {
  }

  lemma FirstDigit(s: string)
    requires AllDigits(s) && s != ""
    ensures NatValue(s) == Digit(s[0]) * Pow10(|s| - 1) + NatValue(s[1..])
  {
    var first := [s[0]];
    assert first + s[1..] == s;
    ConcatValue(first, s[1..]);
    LastDigit(first);
    assert first[..0] == "";
  }

  lemma TenthShifted(d: nat, f: real, k: nat)
    ensures Shifted((d as real + f) / 10.0, k + 1) == (d * Pow10(k)) as real + Shifted(f, k)
  {
    var p := Pow10(k);
    assert Pow10(k + 1) == 10 * p && (10 * p) as real == 10.0 * p as real;
    ProductAsReal(d, p);
  }

  // makeBN returns the value of the string times ten to the precision, and throws exactly when the string has
  // more decimals than that.
  lemma MakeBNIsExact(s: string, precision: nat)
    requires Plain(s)
    ensures MakeBN(s, precision).Some? <==> |FractionPart(s)| <= precision
    ensures MakeBN(s, precision).Some? ==> MakeBN(s, precision).value as real == Shifted(Value(s), precision)
  {
    hide NatValue, FractionValue, Pow10, Shifted, IntPart, FractionPart, AllDigits;
    var whole, fraction := IntPart(s), FractionPart(s);
    if |fraction| <= precision {
      PaddedValue(whole, fraction, precision - |fraction|);
    }
  }

  lemma PaddedValue(whole: string, fraction: string, rest: nat)
    requires AllDigits(whole) && AllDigits(fraction)
    ensures NatValue(whole + fraction + Zeros(rest)) as real
         == Shifted(NatValue(whole) as real + FractionValue(fraction), |fraction| + rest)
  {
    hide NatValue, FractionValue, Pow10;
    ConcatValue(whole + fraction, Zeros(rest));
    ConcatValue(whole, fraction);
    ZerosValue(rest);
    PowersAdd(|fraction|, rest);
    FractionScaled(fraction);
    Rescale(NatValue(whole), NatValue(fraction), FractionValue(fraction), Pow10(|fraction|), Pow10(rest));
  }

  lemma Rescale(whole: nat, digits: nat, fraction: real, p: nat, q: nat)
    requires fraction * p as real == digits as real
    ensures ((whole * p + digits) * q) as real == (whole as real + fraction) * (p * q) as real
  {
    ProductAsReal(whole * p + digits, q);
    ProductAsReal(whole, p);
    ProductAsReal(p, q);
    var P, Q := p as real, q as real;
    assert (whole as real + fraction) * (P * Q) == (whole as real * P + fraction * P) * Q;
  }

  // ---- makeDecimal ----

  // num.toString(): no leading zeros.
  function ToString(n: nat): (s: string)
    ensures AllDigits(s) && s != "" && NatValue(s) == n
  {
    var last := [('0' as int + n % 10) as char];
    assert last[..0] == "";
    if n < 10 then last
    else
      var rest := ToString(n / 10);
      assert (rest + last)[..|rest|] == rest;
      rest + last
  }

  // s.slice(-k): slice(-0) is slice(0), the whole string.
  function LastDigits(s: string, k: nat): string
    requires k <= |s|
  {
    if k == 0 then s else s[|s| - k..]
  }

  // The string makeDecimal hands to Decimal.
  function DecimalString(n: nat, digits: nat): string {
    var s := ToString(n);
    if |s| <= digits then "0." + (Zeros(digits - |s|) + s)
    else s[..|s| - digits] + "." + LastDigits(s, digits)
  }

  function MakeDecimal(n: nat, digits: nat): real {
    DecimalStringIsPlain(n, digits);
    Value(DecimalString(n, digits))
  }

  lemma DecimalStringIsPlain(n: nat, digits: nat)
    ensures Plain(DecimalString(n, digits))
  {
    DecimalParts(n, digits);
  }

  lemma DecimalParts(n: nat, digits: nat)
    ensures
      var s, d := ToString(n), DecimalString(n, digits);
      && AllDigits(IntPart(d)) && AllDigits(FractionPart(d)) && d == IntPart(d) + "." + FractionPart(d)
      && (|s| <= digits ==> IntPart(d) == "0" && FractionPart(d) == Zeros(digits - |s|) + s)
      && (|s| > digits ==> IntPart(d) == s[..|s| - digits] && FractionPart(d) == LastDigits(s, digits))
  {
    hide NatValue, ToString, IntPart, FractionPart, AllDigits;
    var s := ToString(n);
    DigitsOf(n);
    if |s| <= digits {
      ZerosAreDigits(digits - |s|, s);
      Parts("0", Zeros(digits - |s|) + s);
      assert "0" + "." == "0.";
    } else {
      SplitDigits(s, digits);
      Parts(s[..|s| - digits], LastDigits(s, digits));
    }
  }

  lemma ZerosAreDigits(k: nat, s: string)
    requires AllDigits(s)
    ensures AllDigits(Zeros(k) + s) && AllDigits("0")
  {
  }

  lemma SplitDigits(s: string, k: nat)
    requires AllDigits(s) && k <= |s|
    ensures AllDigits(s[..|s| - k]) && AllDigits(LastDigits(s, k))
  {
  }

  // The digits of the two parts together are those of the number, when there is at least one decimal.
  lemma DecimalDigits(n: nat, digits: nat)
    requires digits >= 1
    ensures
      var d := DecimalString(n, digits);
      && Plain(d) && |FractionPart(d)| == digits
      && NatValue(IntPart(d) + FractionPart(d)) == n
  {
    hide NatValue, Pow10, IntPart, FractionPart, ToString, AllDigits, DecimalString;
    var s, d := ToString(n), DecimalString(n, digits);
    DecimalParts(n, digits);
    DigitsOf(n);
    if |s| <= digits {
      ZerosInFront(s, digits - |s|);
    } else {
      assert s[..|s| - digits] + LastDigits(s, digits) == s;
    }
  }

  lemma DigitsOf(n: nat)
    ensures AllDigits(ToString(n)) && ToString(n) != "" && NatValue(ToString(n)) == n
  {
  }

  lemma ZerosInFront(s: string, k: nat)
    requires AllDigits(s)
    ensures NatValue("0" + (Zeros(k) + s)) == NatValue(s)
  {
    var zeros := Zeros(k + 1);
    assert "0" + (Zeros(k) + s) == zeros + s;
    ConcatValue(zeros, s);
    ZerosValue(k + 1);
  }

  // From an integer to a decimal string and back: the identity exactly when there is at least one decimal.
  lemma IntegerRoundTrip(n: nat, digits: nat)
    ensures Plain(DecimalString(n, digits))
    ensures MakeBN(DecimalString(n, digits), digits) == Some(n) <==> digits >= 1
  {
    hide NatValue, IntPart, FractionPart, ToString, AllDigits, DecimalString;
    var d := DecimalString(n, digits);
    DecimalStringIsPlain(n, digits);
    DecimalParts(n, digits);
    DigitsOf(n);
    if digits >= 1 {
      DecimalDigits(n, digits);
      assert IntPart(d) + FractionPart(d) + Zeros(0) == IntPart(d) + FractionPart(d);
    }
  }

  // makeDecimal divides by ten to the digits; with no digits it does so for 0 alone.
  lemma MakeDecimalIsExact(n: nat, digits: nat)
    ensures Shifted(MakeDecimal(n, digits), digits) == n as real <==> digits >= 1 || n == 0
  {
    hide NatValue, FractionValue, IntPart, FractionPart, ToString, AllDigits, DecimalString, Shifted, Plain, Value, MakeBN;
    IntegerRoundTrip(n, digits);
    if digits >= 1 {
      MakeBNIsExact(DecimalString(n, digits), digits);
    } else {
      NoDecimals(n);
    }
  }

  // Without decimals the digits are written twice, before and after the point.
  lemma NoDecimals(n: nat)
    ensures Shifted(MakeDecimal(n, 0), 0) == n as real <==> n == 0
  {
    hide NatValue, FractionValue, IntPart, FractionPart, ToString, AllDigits, DecimalString;
    var s := ToString(n);
    DigitsOf(n);
    DecimalStringIsPlain(n, 0);
    DecimalParts(n, 0);
    assert s[..|s|] == s;
    FractionScaled(s);
    Doubled(n, FractionValue(s), Pow10(|s|));
  }

  lemma Doubled(n: nat, f: real, p: nat)
    requires p > 0 && f * p as real == n as real
    ensures n as real + f == n as real <==> n == 0
  {
  }

  // From a decimal string to an integer and back: the same value.
  lemma StringRoundTrip(s: string, precision: nat)
    requires Plain(s) && |FractionPart(s)| <= precision && precision >= 1
    ensures MakeBN(s, precision).Some? && MakeDecimal(MakeBN(s, precision).value, precision) == Value(s)
  {
    hide Plain, Value, FractionPart, MakeDecimal, Shifted;
    MakeBNIsExact(s, precision);
    var n := MakeBN(s, precision).value;
    MakeDecimalIsExact(n, precision);
    SameQuotient(MakeDecimal(n, precision), Value(s), precision);
  }

  lemma SameQuotient(a: real, b: real, k: nat)
    requires Shifted(a, k) == Shifted(b, k)
    ensures a == b
  {
    var p := Pow10(k) as real;
    assert (a - b) * p == a * p - b * p == 0.0;
  }
}
