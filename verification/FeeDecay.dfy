/** The base rate: its decay by whole minutes, the clock that only moves when a minute has passed, and the
    exponentiation by squaring with rounded products behind it. */
module FeeDecay {
  import opened Common

  const MINUTE_DECAY_FACTOR: nat := 999037758833783000
  const SECONDS_IN_ONE_MINUTE: nat := 60
  const BETA: nat := 2
  const MINUTES_IN_1000_YEARS: nat := 525600000

  // ---- Exponentiation ----

  // Product of two 18-digit decimals, rounded half up.
  function DecMul(x: nat, y: nat): nat {
    (x * y + PRECISION / 2) / PRECISION
  }

  // The rest of the loop of _decPow from given x, y and n.
  function DecPowFrom(x: nat, y: nat, n: nat): nat
    requires n >= 1
    decreases n
  {
    if n == 1 then DecMul(x, y)
    else if n % 2 == 0 then DecPowFrom(DecMul(x, x), y, n / 2)
    else DecPowFrom(DecMul(x, x), DecMul(x, y), (n - 1) / 2)
  }

  function Capped(minutes: nat): nat { Min(minutes, MINUTES_IN_1000_YEARS) }

  function DecPow(base: nat, minutes: nat): nat {
    if minutes == 0 then PRECISION else DecPowFrom(base, PRECISION, Capped(minutes))
  }

  // Beyond a thousand years of 365 days nothing decays any further.
  lemma MinutesAreCapped(base: nat, minutes: nat)
    ensures minutes >= 1000 * 365 * 24 * 60 ==> DecPow(base, minutes) == DecPow(base, 1000 * 365 * 24 * 60)
    ensures minutes <= 1000 * 365 * 24 * 60 ==> Capped(minutes) == minutes
  {
    hide DecPowFrom;
  }

  method DecPowLoop(base: nat, minutes: nat) returns (r: nat)
    ensures r == DecPow(base, minutes)
  {
    hide DecMul, DecPowFrom;
    var n := minutes;
    if n > MINUTES_IN_1000_YEARS { n := MINUTES_IN_1000_YEARS; }
    if n == 0 { return PRECISION; }
    var x, y := base, PRECISION;
    while n > 1
      invariant n >= 1
      invariant DecPowFrom(x, y, n) == DecPow(base, minutes)
    {
      Turn(x, y, n);
      if n % 2 == 0 {
        x := DecMul(x, x);
        n := n / 2;
      } else {
        y := DecMul(x, y);
        x := DecMul(x, x);
        n := (n - 1) / 2;
      }
    }
    Turn(x, y, n);
    return DecMul(x, y);
  }

  lemma Turn(x: nat, y: nat, n: nat)
    requires n >= 1
    ensures n == 1 ==> DecPowFrom(x, y, n) == DecMul(x, y)
    ensures n > 1 && n % 2 == 0 ==> DecPowFrom(x, y, n) == DecPowFrom(DecMul(x, x), y, n / 2)
    ensures n > 1 && n % 2 == 1 ==> DecPowFrom(x, y, n) == DecPowFrom(DecMul(x, x), DecMul(x, y), (n - 1) / 2)
  {
  }

  function Pow(b: real, n: nat): real {
    if n == 0 then 1.0 else b * Pow(b, n - 1)
  }

  lemma {:induction false} PowInUnit(b: real, n: nat)
    requires 0.0 <= b <= 1.0
    ensures 0.0 <= Pow(b, n) <= 1.0
  {
    if n > 0 {
      PowInUnit(b, n - 1);
      ProductInUnit(b, Pow(b, n - 1));
    }
  }

  lemma ProductInUnit(x: real, y: real)
    requires 0.0 <= x <= 1.0 && 0.0 <= y <= 1.0
    ensures 0.0 <= x * y <= 1.0
  {
    RealNonNegative(x, y);
    RealNonNegative(1.0 - x, y);
    assert (1.0 - x) * y == y - x * y;
  }

  lemma {:induction false} PowAdd(b: real, m: nat, n: nat)
    ensures Pow(b, m + n) == Pow(b, m) * Pow(b, n)
  {
    if m > 0 {
      PowAdd(b, m - 1, n);
      Associate(b, Pow(b, m - 1), Pow(b, n));
    }
  }

  lemma Associate(x: real, y: real, z: real)
    ensures x * y * z == x * (y * z)
  {
  }

  // A decimal as the fraction it stands for.
  function Frac(x: nat): real { x as real / PRECISION as real }

  const HALF_UNIT: real := 0.5 / PRECISION as real

  predicate Near(x: real, y: real, err: real) { -err <= x - y <= err }

  lemma DecMulNear(x: nat, y: nat)
    requires x <= PRECISION && y <= PRECISION
    ensures DecMul(x, y) <= PRECISION
    ensures Near(Frac(DecMul(x, y)), Frac(x) * Frac(y), HALF_UNIT)
  {
    var a := x * y + PRECISION / 2;
    var q := DecMul(x, y);
    ProductAtMost(x, y, PRECISION);
    FloorDivision(a, PRECISION);
    ScaledProduct(x, y);
    var S := PRECISION as real;
    assert Frac(q) * S == q as real;
    assert -0.5 * S <= q as real * S - (x * y) as real <= 0.5 * S;
    DivideTwice(q as real * S - (x * y) as real, S, Frac(q) - Frac(x) * Frac(y));
  }

  lemma ProductAtMost(x: nat, y: nat, k: nat)
    requires x <= k && y <= k
    ensures 0 <= x * y <= k * k
  {
  }

  lemma ScaledProduct(x: nat, y: nat)
    ensures Frac(x) * Frac(y) * (PRECISION as real) * (PRECISION as real) == (x * y) as real
  {
    var S := PRECISION as real;
    assert Frac(x) * S == x as real && Frac(y) * S == y as real;
    ProductAsReal(x, y);
    assert Frac(x) * Frac(y) * S * S == (Frac(x) * S) * (Frac(y) * S);
  }

  lemma DivideTwice(d: real, S: real, e: real)
    requires S == PRECISION as real && d == e * S * S && -0.5 * S <= d <= 0.5 * S
    ensures -HALF_UNIT <= e <= HALF_UNIT
  {
    assert S == 1_000_000_000_000_000_000.0;
  }

  lemma FracInUnit(x: nat)
    requires x <= PRECISION
    ensures 0.0 <= Frac(x) <= 1.0
  {
  }

  // The errors of two factors add up, and rounding adds half a unit.
  lemma DecMulError(x: nat, y: nat, u: real, v: real, ex: real, ey: real)
    requires x <= PRECISION && y <= PRECISION && 0.0 <= u <= 1.0 && 0.0 <= v <= 1.0
    requires Near(Frac(x), u, ex) && Near(Frac(y), v, ey)
    ensures DecMul(x, y) <= PRECISION
    ensures Near(Frac(DecMul(x, y)), u * v, ex + ey + HALF_UNIT)
  {
    hide DecMul, Frac;
    DecMulNear(x, y);
    FracInUnit(x);
    FracInUnit(y);
    Scaled(Frac(x) - u, Frac(y), ex);
    Scaled(Frac(y) - v, u, ey);
    SplitProduct(Frac(x), Frac(y), u, v);
  }

  lemma SplitProduct(x: real, y: real, u: real, v: real)
    ensures x * y - u * v == (x - u) * y + (y - v) * u
  {
  }

  lemma Scaled(d: real, s: real, err: real)
    requires 0.0 <= s <= 1.0 && -err <= d <= err
    ensures -err <= d * s <= err
  {
    RealNonNegative(err - d, s);
    RealNonNegative(err + d, s);
    RealNonNegative(err, 1.0 - s);
    assert (err - d) * s == err * s - d * s && (err + d) * s == err * s + d * s && err * (1.0 - s) == err - err * s;
  }

  // The exponent and the error that a state of the loop is heading for.
  ghost function FinalExponent(j: nat, n: nat, k: nat): nat { j + n * k }

  ghost function FinalError(n: nat, ex: real, ey: real): real { ey + n as real * (ex + HALF_UNIT) }

  // Squaring doubles the error of x and halves n: neither ever moves.
  lemma Heading(m: nat, k: nat, j: nat, ex: real, ey: real)
    ensures FinalExponent(j, 1, k) == k + j && FinalError(1, ex, ey) == ex + ey + HALF_UNIT
    ensures FinalExponent(j, m, k + k) == FinalExponent(j, 2 * m, k)
    ensures FinalExponent(k + j, m, k + k) == FinalExponent(j, 2 * m + 1, k)
    ensures FinalError(m, ex + ex + HALF_UNIT, ey) == FinalError(2 * m, ex, ey)
    ensures FinalError(m, ex + ex + HALF_UNIT, ex + ey + HALF_UNIT) == FinalError(2 * m + 1, ex, ey)
  {
    var r, h := m as real, HALF_UNIT;
    assert m * (k + k) == (2 * m) * k && (2 * m + 1) * k == (2 * m) * k + k;
    assert (2 * m) as real == 2.0 * r && (2 * m + 1) as real == 2.0 * r + 1.0;
    assert r * (ex + ex + h + h) == 2.0 * r * (ex + h);
    assert (2.0 * r + 1.0) * (ex + h) == 2.0 * r * (ex + h) + (ex + h);
  }

  lemma DecMulPowers(x: nat, y: nat, b: real, k: nat, j: nat, ex: real, ey: real)
    requires 0.0 <= b <= 1.0 && x <= PRECISION && y <= PRECISION
    requires Near(Frac(x), Pow(b, k), ex) && Near(Frac(y), Pow(b, j), ey)
    ensures DecMul(x, y) <= PRECISION
    ensures Near(Frac(DecMul(x, y)), Pow(b, k + j), ex + ey + HALF_UNIT)
  {
    hide DecMul, Frac, Pow;
    PowInUnit(b, k);
    PowInUnit(b, j);
    PowAdd(b, k, j);
    DecMulError(x, y, Pow(b, k), Pow(b, j), ex, ey);
  }

  lemma {:induction false} DecPowFromError(x: nat, y: nat, n: nat, b: real, k: nat, j: nat, ex: real, ey: real)
    requires n >= 1 && 0.0 <= b <= 1.0 && x <= PRECISION && y <= PRECISION
    requires Near(Frac(x), Pow(b, k), ex) && Near(Frac(y), Pow(b, j), ey)
    ensures DecPowFrom(x, y, n) <= PRECISION
    ensures Near(Frac(DecPowFrom(x, y, n)), Pow(b, FinalExponent(j, n, k)), FinalError(n, ex, ey))
    decreases n
  {
    hide DecMul, Frac, Pow, FinalExponent, FinalError, Near;
    DecMulPowers(x, x, b, k, k, ex, ex);
    DecMulPowers(x, y, b, k, j, ex, ey);
    Heading(n / 2, k, j, ex, ey);
    if n > 1 && n % 2 == 0 {
      DecPowFromError(DecMul(x, x), y, n / 2, b, k + k, j, ex + ex + HALF_UNIT, ey);
    } else if n > 1 {
      DecPowFromError(DecMul(x, x), DecMul(x, y), (n - 1) / 2, b, k + k, k + j, ex + ex + HALF_UNIT, ex + ey + HALF_UNIT);
    }
  }

  // _decPow is within half a unit per minute of the exact power, whatever the number of squarings.
  lemma DecPowError(base: nat, minutes: nat)
    requires base <= PRECISION
    ensures DecPow(base, minutes) <= PRECISION
    ensures Near(Frac(DecPow(base, minutes)), Pow(Frac(base), Capped(minutes)), Capped(minutes) as real * HALF_UNIT)
  {
    hide DecPowFrom, Pow, Frac;
    var b, n := Frac(base), Capped(minutes);
    FracInUnit(base);
    Anchors(b);
    if minutes > 0 {
      DecPowFromError(base, PRECISION, n, b, 1, 0, 0.0, 0.0);
    }
  }

  lemma Anchors(b: real)
    ensures Pow(b, 0) == 1.0 && Pow(b, 1) == b && Frac(PRECISION) == 1.0
  {
  }

  predicate Rounded(product: nat, q: nat) {
    q * PRECISION <= product + PRECISION / 2 < (q + 1) * PRECISION
  }

  lemma RoundedIs(x: nat, y: nat, q: nat)
    requires x * y >= 0 && Rounded(x * y, q)
    ensures DecMul(x, y) == q
  {
    QuotientAtLeast(x * y + PRECISION / 2, PRECISION, q);
    QuotientAtLeast(x * y + PRECISION / 2, PRECISION, q + 1);
  }

  lemma EvenTurn(x: nat, y: nat, n: nat, x2: nat)
    requires n > 1 && n % 2 == 0 && x * x >= 0 && Rounded(x * x, x2)
    ensures DecPowFrom(x, y, n) == DecPowFrom(x2, y, n / 2)
  {
    RoundedIs(x, x, x2);
  }

  lemma OddTurn(x: nat, y: nat, n: nat, x2: nat, y2: nat)
    requires n > 1 && n % 2 == 1 && x * x >= 0 && x * y >= 0 && Rounded(x * x, x2) && Rounded(x * y, y2)
    ensures DecPowFrom(x, y, n) == DecPowFrom(x2, y2, (n - 1) / 2)
  {
    RoundedIs(x, x, x2);
    RoundedIs(x, y, y2);
  }

  lemma LastTurn(x: nat, y: nat, r: nat)
    requires x * y >= 0 && Rounded(x * y, r)
    ensures DecPowFrom(x, y, 1) == r
  {
    RoundedIs(x, y, r);
  }

  // The parameter halves the base rate in twelve hours, to within 2e-13; after one hour 0.944 of it is left.
  lemma HalfLifeIsTwelveHours()
    ensures DecPow(MINUTE_DECAY_FACTOR, 720) == 499999999999860089
    ensures DecPow(MINUTE_DECAY_FACTOR, 60) == 943874312681671487
  {
    hide DecPowFrom, DecMul;
    EvenTurn(999037758833783000, 1000000000000000000, 720, 998076443575627963);
    EvenTurn(998076443575627963, 1000000000000000000, 360, 996156587220573669);
    EvenTurn(996156587220573669, 1000000000000000000, 180, 992327946262940396);
    EvenTurn(992327946262940396, 1000000000000000000, 90, 984714752934425122);
    OddTurn(984714752934425122, 1000000000000000000, 45, 969663144646705909, 984714752934425122);
    EvenTurn(969663144646705909, 984714752934425122, 22, 940246614086138506);
    OddTurn(940246614086138506, 984714752934425122, 11, 884063695300447873, 925874712287261643);
    OddTurn(884063695300447873, 925874712287261643, 5, 781568617348283139, 818532219529915518);
    EvenTurn(781568617348283139, 818532219529915518, 2, 610849503623707032);
    LastTurn(610849503623707032, 818532219529915518, 499999999999860089);
    EvenTurn(999037758833783000, 1000000000000000000, 60, 998076443575627963);
    EvenTurn(998076443575627963, 1000000000000000000, 30, 996156587220573669);
    OddTurn(996156587220573669, 1000000000000000000, 15, 992327946262940396, 996156587220573669);
    OddTurn(992327946262940396, 996156587220573669, 7, 984714752934425122, 988514020352891525);
    OddTurn(984714752934425122, 988514020352891525, 3, 969663144646705909, 973404339324012865);
    LastTurn(969663144646705909, 973404339324012865, 943874312681671487);
  }

  // ---- The clock ----

  // decayed: the minutes by which the base rate has decayed so far, as the powers counted them.
  datatype Fees = Fees(baseRate: nat, lastFeeOpTime: nat, now: nat, minutes: nat, decayed: nat)

  // Something happens `wait` seconds after the event before it. A redemption redeems `fraction` of the supply.
  datatype Event = Borrow(wait: nat) | Redeem(wait: nat, fraction: nat)

  ghost predicate Valid(f: Fees) { f.baseRate <= PRECISION && f.lastFeeOpTime <= f.now }

  function MinutesPassed(f: Fees): nat
    requires Valid(f)
  {
    (f.now - f.lastFeeOpTime) / SECONDS_IN_ONE_MINUTE
  }

  // _calcDecayedBaseRate
  function DecayedBaseRate(f: Fees): nat
    requires Valid(f)
  {
    Share(f.baseRate, DecPow(MINUTE_DECAY_FACTOR, MinutesPassed(f)))
  }

  // _updateLastFeeOpTime, with the minutes the decay has counted.
  function Ticked(f: Fees): Fees
    requires Valid(f)
  {
    var g := f.(minutes := f.minutes + MinutesPassed(f), decayed := f.decayed + Capped(MinutesPassed(f)));
    if f.now - f.lastFeeOpTime >= SECONDS_IN_ONE_MINUTE then g.(lastFeeOpTime := f.now) else g
  }

  // None: the base rate after a redemption would be 0 and the transaction reverts.
  function FeeEvent(f: Fees, e: Event): Option<Fees>
    requires Valid(f)
  {
    match e
    case Borrow(_) => Some(Ticked(f).(baseRate := DecayedBaseRate(f)))
    case Redeem(_, fraction) =>
      var newBaseRate := Min(DecayedBaseRate(f) + fraction / BETA, PRECISION);
      if newBaseRate == 0 then None else Some(Ticked(f).(baseRate := newBaseRate))
  }

  function FeeStep(f: Fees, e: Event): (r: Fees)
    requires Valid(f)
    ensures Valid(r)
  {
    var g := f.(now := f.now + e.wait);
    DecayLowers(g);
    match FeeEvent(g, e)
    case None => g
    case Some(r) => r
  }

  function FeeRun(f: Fees, events: seq<Event>): (r: Fees)
    requires Valid(f)
    ensures Valid(r)
    decreases |events|
  {
    if events == [] then f else FeeRun(FeeStep(f, events[0]), events[1..])
  }

  // Decay never raises the base rate, and leaves it alone within a minute.
  lemma DecayLowers(f: Fees)
    requires Valid(f)
    ensures DecayedBaseRate(f) <= f.baseRate
    ensures MinutesPassed(f) == 0 ==> DecayedBaseRate(f) == f.baseRate
  {
    var factor := DecPow(MINUTE_DECAY_FACTOR, MinutesPassed(f));
    DecPowError(MINUTE_DECAY_FACTOR, MinutesPassed(f));
    assert (MinutesPassed(f) == 0) ==> factor == PRECISION;
    hide DecPow, Share;
    ShareOfOne(f.baseRate, factor);
  }

  lemma ShareOfOne(a: nat, factor: nat)
    requires factor <= PRECISION
    ensures Share(a, factor) <= a
    ensures factor == PRECISION ==> Share(a, factor) == a
  {
    assert a * factor <= a * PRECISION;
    FloorDivision(a * factor, PRECISION);
  }

  // ---- The decay cannot be stopped ----

  // For every sequence of fee events: the minutes counted up to the last move of the clock cover at least half
  // of the time up to it, and never more than that time.
  lemma {:induction false} GriefingBound(f: Fees, events: seq<Event>)
    requires Valid(f)
    ensures
      var r := FeeRun(f, events);
      var m, elapsed := r.minutes - f.minutes, r.lastFeeOpTime - f.lastFeeOpTime;
      && m >= 0 && 60 * m <= elapsed && (m >= 1 ==> elapsed < 120 * m) && (m == 0 ==> elapsed == 0)
    decreases |events|
  {
    hide DecPow;
    if events != [] {
      ClockStep(f, events[0]);
      GriefingBound(FeeStep(f, events[0]), events[1..]);
    }
  }

  lemma ClockStep(f: Fees, e: Event)
    requires Valid(f)
    ensures
      var r := FeeStep(f, e);
      var m, elapsed := r.minutes - f.minutes, r.lastFeeOpTime - f.lastFeeOpTime;
      && r.now == f.now + e.wait
      && m >= 0 && 60 * m <= elapsed && (m >= 1 ==> elapsed < 120 * m) && (m == 0 ==> elapsed == 0)
  {
    hide DecPow;
  }

  // Minutes counted so far, with those a fee operation now would count.
  function Counted(f: Fees): nat
    requires Valid(f)
  {
    f.minutes + MinutesPassed(f)
  }

  // However often fee operations come, at any time at least half of the minutes passed count, and no more than
  // all of them.
  lemma CountedAtLeastHalf(f: Fees, events: seq<Event>)
    requires Valid(f) && f.lastFeeOpTime == f.now
    ensures
      var r := FeeRun(f, events);
      var counted, passed := Counted(r) - f.minutes, (r.now - f.now) / SECONDS_IN_ONE_MINUTE;
      counted <= passed <= 2 * counted
  {
    GriefingBound(f, events);
  }

  function EveryTwoMinutes(n: nat): seq<Event> { seq(n, _ => Borrow(119)) }

  // The half is reached: an operation every 119 seconds counts one minute each time.
  lemma {:induction false} HalfIsReached(f: Fees, n: nat)
    requires Valid(f) && f.lastFeeOpTime == f.now
    ensures
      var r := FeeRun(f, EveryTwoMinutes(n));
      r.minutes - f.minutes == n && r.now - f.now == 119 * n && r.lastFeeOpTime == r.now
    decreases n
  {
    hide DecPow;
    if n > 0 {
      assert EveryTwoMinutes(n)[1..] == EveryTwoMinutes(n - 1);
      HalfIsReached(FeeStep(f, EveryTwoMinutes(n)[0]), n - 1);
    }
  }

  // ---- The decay does not depend on how it is split ----

  // An exact decay over m minutes, and the distance allowed from it: one and a half units a minute.
  ghost function Decay(rate: real, m: nat): real { rate * Pow(Frac(MINUTE_DECAY_FACTOR), m) }

  ghost function Slack(m: nat): real { 3.0 * (m as real * HALF_UNIT) }

  // A decay multiplies the base rate by the exact power, to within one and a half units per minute counted.
  lemma DecayIsExact(f: Fees)
    requires Valid(f)
    ensures
      var m := Capped(MinutesPassed(f));
      Near(Frac(DecayedBaseRate(f)), Decay(Frac(f.baseRate), m), Slack(m))
  {
    hide DecPow, Pow, Frac, Share;
    var m := Capped(MinutesPassed(f));
    var factor := DecPow(MINUTE_DECAY_FACTOR, MinutesPassed(f));
    var b := Frac(MINUTE_DECAY_FACTOR);
    DecPowError(MINUTE_DECAY_FACTOR, MinutesPassed(f));
    FracInUnit(f.baseRate);
    if m == 0 {
      Anchors(b);
      DecayLowers(f);
    } else {
      FloorProduct(f.baseRate, factor);
      AtLeastOne(m);
      ProductError(Frac(DecayedBaseRate(f)), Frac(f.baseRate), Frac(factor), Pow(b, m), m as real * HALF_UNIT);
    }
  }

  lemma ProductError(z: real, x: real, y: real, v: real, err: real)
    requires 0.0 <= x <= 1.0 && err >= HALF_UNIT && Near(z, x * y, 2.0 * HALF_UNIT) && Near(y, v, err)
    ensures Near(z, x * v, 3.0 * err)
  {
    Scaled(y - v, x, err);
    Distribute(x, y, v);
    ErrorsAdd(z, x * y, x * v, HALF_UNIT, err);
  }

  lemma Distribute(x: real, y: real, v: real)
    ensures (y - v) * x == x * y - x * v
  {
  }

  lemma ErrorsAdd(z: real, a: real, c: real, h: real, err: real)
    requires h <= err && Near(z, a, 2.0 * h) && Near(a, c, err)
    ensures Near(z, c, 3.0 * err)
  {
  }

  lemma AtLeastOne(m: nat)
    requires m >= 1
    ensures m as real * HALF_UNIT >= HALF_UNIT
  {
    RealNonNegative((m - 1) as real, HALF_UNIT);
    assert (m - 1) as real * HALF_UNIT == m as real * HALF_UNIT - HALF_UNIT;
  }

  lemma FloorProduct(x: nat, y: nat)
    ensures Near(Frac(Share(x, y)), Frac(x) * Frac(y), 2.0 * HALF_UNIT)
  {
    var S := PRECISION as real;
    NonNegative(x, y);
    var q := Share(x, y);
    FloorDivision(x * y, PRECISION);
    ScaledProduct(x, y);
    assert Frac(q) * S == q as real;
    assert -1.0 * S <= q as real * S - (x * y) as real <= 0.0;
    var e := Frac(q) - Frac(x) * Frac(y);
    assert e * S * S == q as real * S - (x * y) as real;
    DivideTwice(0.5 * (q as real * S - (x * y) as real), S, 0.5 * e);
  }

  ghost predicate OnlyBorrowing(events: seq<Event>) {
    forall k | 0 <= k < |events| :: events[k].Borrow?
  }

  // After any number of borrowing operations at any times the base rate is what one exact decay over all the
  // minutes counted would leave, to within one and a half units (of 1e-18) per minute.
  lemma {:induction false} DecayComposes(f: Fees, events: seq<Event>)
    requires Valid(f) && OnlyBorrowing(events)
    ensures
      var r := FeeRun(f, events);
      && r.decayed >= f.decayed
      && var m := r.decayed - f.decayed;
      Near(Frac(r.baseRate), Decay(Frac(f.baseRate), m), Slack(m))
    decreases |events|
  {
    hide DecPow, Frac, FeeStep, DecayedBaseRate, MinutesPassed, Capped, Decay, Slack, Near;
    if events == [] {
      NoDecay(Frac(f.baseRate));
    } else {
      var g := f.(now := f.now + events[0].wait);
      var q := FeeStep(f, events[0]);
      assert OnlyBorrowing(events[1..]);
      BorrowDecays(f, events[0]);
      DecayIsExact(g);
      DecayComposes(q, events[1..]);
      var r := FeeRun(q, events[1..]);
      ComposeErrors(Frac(f.baseRate), Frac(q.baseRate), Frac(r.baseRate), Capped(MinutesPassed(g)), r.decayed - q.decayed);
    }
  }

  lemma NoDecay(x: real)
    ensures Near(x, Decay(x, 0), Slack(0))
  {
  }

  lemma BorrowDecays(f: Fees, e: Event)
    requires Valid(f) && e.Borrow?
    ensures
      var g := f.(now := f.now + e.wait);
      && FeeStep(f, e).baseRate == DecayedBaseRate(g)
      && FeeStep(f, e).decayed == f.decayed + Capped(MinutesPassed(g))
  {
  }

  lemma ComposeErrors(x: real, y: real, z: real, m1: nat, m2: nat)
    requires Near(y, Decay(x, m1), Slack(m1)) && Near(z, Decay(y, m2), Slack(m2))
    ensures Near(z, Decay(x, m1 + m2), Slack(m1 + m2))
  {
    hide Pow, Frac;
    var b := Frac(MINUTE_DECAY_FACTOR);
    FracInUnit(MINUTE_DECAY_FACTOR);
    PowInUnit(b, m2);
    PowAdd(b, m1, m2);
    var u, v := Pow(b, m1), Pow(b, m2);
    Scaled(y - x * u, v, Slack(m1));
    assert (y - x * u) * v == y * v - x * (u * v);
    SlackAdds(m1, m2);
  }

  lemma SlackAdds(m1: nat, m2: nat)
    ensures Slack(m1 + m2) == Slack(m1) + Slack(m2)
  {
  }

  // ---- Redemptions raise the base rate ----

  // What makes a redemption revert: next to nothing is redeemed and the base rate has decayed to 0.
  predicate Reverts(f: Fees, e: Event)
    requires Valid(f)
  {
    e.Redeem? && e.fraction < 2 && f.baseRate * DecPow(MINUTE_DECAY_FACTOR, MinutesPassed(f)) < PRECISION
  }

  // It raises the decayed rate by half of the redeemed fraction, up to 1.
  lemma RaisedByHalf(f: Fees, wait: nat, fraction: nat)
    requires Valid(f)
    ensures FeeEvent(f, Redeem(wait, fraction)).None? <==> Reverts(f, Redeem(wait, fraction))
    ensures FeeEvent(f, Redeem(wait, fraction)).Some? ==>
      var rate, raised := DecayedBaseRate(f), FeeEvent(f, Redeem(wait, fraction)).value.baseRate;
      && rate <= raised <= PRECISION && 0 < raised
      && (raised < PRECISION ==> 2 * (raised - rate) <= fraction < 2 * (raised - rate) + 2)
      && (raised == PRECISION ==> fraction >= 2 * (PRECISION - rate))
      && FeeEvent(f, Redeem(wait, fraction)).value.decayed == f.decayed + Capped(MinutesPassed(f))
  {
    DecayLowers(f);
    hide DecPow;
    QuotientAtLeast(f.baseRate * DecPow(MINUTE_DECAY_FACTOR, MinutesPassed(f)), PRECISION, 1);
  }

  ghost function AtMostOne(x: real): real { if x > 1.0 then 1.0 else x }

  // A fee event in exact arithmetic, m minutes after the last move of the clock.
  ghost function ExactEvent(rate: real, m: nat, e: Event): real {
    match e
    case Borrow(_) => Decay(rate, m)
    case Redeem(_, fraction) => AtMostOne(Decay(rate, m) + Frac(fraction) / 2.0)
  }

  // A sequence of them, at the times of the events.
  ghost function ExactRun(rate: real, f: Fees, events: seq<Event>): real
    requires Valid(f)
    decreases |events|
  {
    if events == [] then rate
    else
      var g := f.(now := f.now + events[0].wait);
      ExactRun(if Reverts(g, events[0]) then rate else ExactEvent(rate, Capped(MinutesPassed(g)), events[0]),
               FeeStep(f, events[0]), events[1..])
  }

  function Redemptions(events: seq<Event>): nat {
    if events == [] then 0 else (if events[0].Redeem? then 1 else 0) + Redemptions(events[1..])
  }

  // Over every sequence of borrowing operations and redemptions, at any times, the base rate is that of exact decays and
  // raises, to within one and a half units (of 1e-18) for every minute counted and half a unit for every redemption.
  lemma {:induction false} FeesCompose(f: Fees, events: seq<Event>, rate: real, err: real)
    requires Valid(f) && Near(Frac(f.baseRate), rate, err)
    ensures
      var r := FeeRun(f, events);
      && r.decayed >= f.decayed
      && Near(Frac(r.baseRate), ExactRun(rate, f, events),
              err + Slack(r.decayed - f.decayed) + Redemptions(events) as real * HALF_UNIT)
    decreases |events|
  {
    hide DecPow, Frac, FeeStep, FeeEvent, DecayedBaseRate, MinutesPassed, Capped, Decay, Slack, Near, ExactEvent, Reverts;
    if events == [] {
      NoSlack();
    } else {
      var g := f.(now := f.now + events[0].wait);
      var q, e := FeeStep(f, events[0]), events[0];
      var next := if Reverts(g, e) then rate else ExactEvent(rate, Capped(MinutesPassed(g)), e);
      var k := if e.Redeem? then 1 else 0;
      EventIsExact(f, e, rate, err);
      FeesCompose(q, events[1..], next, err + Slack(q.decayed - f.decayed) + k as real * HALF_UNIT);
      var r := FeeRun(q, events[1..]);
      SlackAdds(q.decayed - f.decayed, r.decayed - q.decayed);
      HalvesAdd(k, Redemptions(events[1..]));
    }
  }

  lemma NoSlack()
    ensures Slack(0) == 0.0 && 0 as real * HALF_UNIT == 0.0
  {
  }

  lemma HalvesAdd(k: nat, n: nat)
    ensures k as real * HALF_UNIT + n as real * HALF_UNIT == (k + n) as real * HALF_UNIT
  {
  }

  // One event, from a rate that is known to within err.
  lemma EventIsExact(f: Fees, e: Event, rate: real, err: real)
    requires Valid(f) && Near(Frac(f.baseRate), rate, err)
    ensures
      var g, r := f.(now := f.now + e.wait), FeeStep(f, e);
      && r.decayed >= f.decayed
      && Near(Frac(r.baseRate), if Reverts(g, e) then rate else ExactEvent(rate, Capped(MinutesPassed(g)), e),
              err + Slack(r.decayed - f.decayed) + (if e.Redeem? then 1 else 0) as real * HALF_UNIT)
  {
    hide DecPow, Frac, DecayedBaseRate, MinutesPassed, Capped, Slack;
    var g, r := f.(now := f.now + e.wait), FeeStep(f, e);
    var m := Capped(MinutesPassed(g));
    NoSlack();
    DecayIsExact(g);
    DecayContracts(Frac(f.baseRate), rate, m, err);
    match e
    case Borrow(_) =>
    case Redeem(wait, fraction) =>
      RaisedByHalf(g, wait, fraction);
      if !Reverts(g, e) {
        RaiseInUnits(DecayedBaseRate(g), r.baseRate, fraction);
        CapIsNear(Frac(DecayedBaseRate(g)) + Frac(fraction) / 2.0, Decay(rate, m) + Frac(fraction) / 2.0, err + Slack(m));
      }
  }

  lemma DecayContracts(x: real, y: real, m: nat, err: real)
    requires Near(x, y, err)
    ensures Near(Decay(x, m), Decay(y, m), err)
  {
    hide Pow, Frac;
    FracInUnit(MINUTE_DECAY_FACTOR);
    PowInUnit(Frac(MINUTE_DECAY_FACTOR), m);
    var u := Pow(Frac(MINUTE_DECAY_FACTOR), m);
    Scaled(x - y, u, err);
    assert (x - y) * u == x * u - y * u;
  }

  lemma CapIsNear(x: real, y: real, err: real)
    requires Near(x, y, err)
    ensures Near(AtMostOne(x), AtMostOne(y), err)
  {
  }

  // Half of the fraction is truncated by half a unit at most.
  lemma RaiseInUnits(rate: nat, raised: nat, fraction: nat)
    requires rate <= raised <= PRECISION
    requires raised < PRECISION ==> 2 * (raised - rate) <= fraction < 2 * (raised - rate) + 2
    requires raised == PRECISION ==> fraction >= 2 * (PRECISION - rate)
    ensures Near(Frac(raised), AtMostOne(Frac(rate) + Frac(fraction) / 2.0), HALF_UNIT)
  {
    var S := PRECISION as real;
    var x := Frac(rate) + Frac(fraction) / 2.0;
    assert x * S == rate as real + fraction as real / 2.0;
    assert Frac(raised) * S == raised as real;
  }

  // ---- The contract's fields ----

  class FeeClock {
    var baseRate: nat
    var lastFeeOperationTime: nat
    var timestamp: nat
    ghost var minutes: nat
    ghost var decayed: nat

    ghost function Model(): Fees
      reads this
    {
      Fees(baseRate, lastFeeOperationTime, timestamp, minutes, decayed)
    }

    method CalcDecayedBaseRate() returns (r: nat)
      requires Valid(Model())
      ensures r == DecayedBaseRate(Model())
    {
      hide DecPow, Share;
      var minutesPassed := (timestamp - lastFeeOperationTime) / SECONDS_IN_ONE_MINUTE;
      var decayFactor := DecPowLoop(MINUTE_DECAY_FACTOR, minutesPassed);
      r := Share(baseRate, decayFactor);
    }

    method UpdateLastFeeOpTime()
      requires Valid(Model())
      modifies this`lastFeeOperationTime, this`minutes, this`decayed
      ensures Model() == Ticked(old(Model()))
    {
      var timePassed := timestamp - lastFeeOperationTime;
      minutes, decayed := minutes + MinutesPassed(Model()), decayed + Capped(MinutesPassed(Model()));
      if timePassed >= SECONDS_IN_ONE_MINUTE {
        lastFeeOperationTime := timestamp;
      }
    }

    method DecayBaseRateFromBorrowing()
      requires Valid(Model())
      modifies this`baseRate, this`lastFeeOperationTime, this`minutes, this`decayed
      ensures FeeEvent(old(Model()), Borrow(0)) == Some(Model()) && Valid(Model())
    {
      hide DecayedBaseRate;
      DecayLowers(Model());
      var decayedBaseRate := CalcDecayedBaseRate();
      UpdateLastFeeOpTime();
      baseRate := decayedBaseRate;
    }

    // `ok` is false where the transaction reverts.
    method UpdateBaseRateFromRedemption(collateralDrawn: nat, price: nat, totalSupply: nat) returns (ok: bool)
      requires Valid(Model()) && totalSupply > 0
      modifies this`baseRate, this`lastFeeOperationTime, this`minutes, this`decayed
      ensures
        var r := FeeEvent(old(Model()), Redeem(0, collateralDrawn * price / totalSupply));
        && ok == r.Some? && (ok ==> Model() == r.value && Valid(Model()) && baseRate > 0)
        && (!ok ==> Model() == old(Model()))
      ensures
        var fraction, decayedBaseRate := collateralDrawn * price / totalSupply, DecayedBaseRate(old(Model()));
        && ok == !Reverts(old(Model()), Redeem(0, fraction))
        && (ok && baseRate < PRECISION ==> 2 * (baseRate - decayedBaseRate) <= fraction < 2 * (baseRate - decayedBaseRate) + 2)
        && (ok && baseRate == PRECISION ==> fraction >= 2 * (PRECISION - decayedBaseRate))
    {
      hide DecayedBaseRate, Reverts;
      DecayLowers(Model());
      RaisedByHalf(Model(), 0, collateralDrawn * price / totalSupply);
      var decayedBaseRate := CalcDecayedBaseRate();
      var redeemedFraction := collateralDrawn * price / totalSupply;
      var newBaseRate := Min(decayedBaseRate + redeemedFraction / BETA, PRECISION);
      if newBaseRate == 0 { return false; }
      UpdateLastFeeOpTime();
      baseRate := newBaseRate;
      ok := true;
    }
  }
}
