/** The off-chain recomputation of stakes: rounds that remove a liquidated stake and cut a new one by truncating
    division. How far the truncated totals drift from the exact ones, and in which direction. */
module StakeDrift {
  import opened Common

  // One turn of the loop: the stake of the liquidated trove, and the collateral of the new one.
  datatype Round = Round(removed: nat, newColl: nat)

  datatype Totals = Totals(stakes: nat, coll: nat, lastStake: nat)

  // A liquidated stake is part of the total.
  predicate Fits(t: Totals, r: Round) { r.removed <= t.stakes && t.coll > 0 }

  function Next(t: Totals, r: Round): Totals
    requires Fits(t, r)
  {
    var left := t.stakes - r.removed;
    var stake := Cut(left, r.newColl, t.coll);
    Totals(left + stake, t.coll + r.newColl, stake)
  }

  function Cut(stakes: nat, newColl: nat, coll: nat): nat
    requires coll > 0
  {
    newColl * stakes / coll
  }

  // Every round of the sequence removes a stake that is there.
  predicate AllFit(t: Totals, rounds: seq<Round>)
    decreases |rounds|, 0
  {
    if rounds == [] then t.coll > 0
    else AllFit(t, rounds[..|rounds| - 1]) && Fits(After(t, rounds[..|rounds| - 1]), rounds[|rounds| - 1])
  }

  function After(t: Totals, rounds: seq<Round>): (r: Totals)
    requires AllFit(t, rounds)
    ensures r.coll >= t.coll > 0
    decreases |rounds|, 1
  {
    if rounds == [] then t else Next(After(t, rounds[..|rounds| - 1]), rounds[|rounds| - 1])
  }

  // Stakes x over collateral C, and those of a new trove with collateral c at the same ratio.
  function Grown(x: real, c: nat, C: nat): real
    requires C > 0
  {
    x + c as real * x / C as real
  }

  // The same rounds in exact arithmetic: the total of the stakes.
  function ExactStakes(t: Totals, rounds: seq<Round>): real
    requires AllFit(t, rounds)
    decreases |rounds|
  {
    if rounds == [] then t.stakes as real
    else
      var n := |rounds| - 1;
      Grown(ExactStakes(t, rounds[..n]) - rounds[n].removed as real, rounds[n].newColl, After(t, rounds[..n]).coll)
  }

  lemma GrownIsLinear(x: real, y: real, c: nat, C: nat)
    requires C > 0
    ensures Grown(x - y, c, C) == Grown(x, c, C) - Grown(y, c, C)
  {
    assert c as real * (x - y) == c as real * x - c as real * y;
  }

  lemma GrownKeepsRatio(x: real, c: nat, C: nat)
    requires C > 0
    ensures Grown(x, c, C) * C as real == x * (C + c) as real
    ensures x >= 0.0 ==> Grown(x, c, C) >= 0.0
  {
    var p, D := c as real * x, C as real;
    assert p / D * D == p;
    if x >= 0.0 {
      RealNonNegative(c as real, x);
      RealQuotient(p, D, 0.0);
    }
  }

  // The new stake is truncated: less than one below the exact one.
  lemma CutBelowExact(s: nat, c: nat, C: nat)
    requires C > 0
    ensures 0.0 <= Grown(s as real, c, C) - (s + Cut(s, c, C)) as real < 1.0
  {
    NonNegative(c, s);
    var a := c * s;
    FloorBelowReal(a, C);
    ProductAsReal(c, s);
    assert Grown(s as real, c, C) == s as real + a as real / C as real;
  }

  // k units, scaled by how much the collateral has grown from C0 to C.
  ghost predicate Within(drift: real, C0: nat, k: nat, C: nat) {
    0.0 <= drift && drift * C0 as real <= k as real * C as real
  }

  ghost predicate StrictlyWithin(drift: real, C0: nat, k: nat, C: nat) {
    0.0 <= drift && drift * C0 as real < k as real * C as real
  }

  // Relative to the collateral the drift grows by less than 1 / C0 a round.
  lemma DriftStep(d: real, e: real, c: nat, C: nat, C0: nat, k: nat)
    requires 0 < C0 <= C && Within(d, C0, k, C)
    requires 0.0 <= e - Grown(d, c, C) < 1.0
    ensures StrictlyWithin(e, C0, k + 1, C + c) && Within(e, C0, k + 1, C + c)
  {
    hide Grown;
    GrownKeepsRatio(d, c, C);
    RelativeDrift(d, Grown(d, c, C), e, C as real, (C + c) as real, C0 as real, k as real);
  }

  // A product by name, for the steps that only rearrange sums of products.
  ghost function Product(x: real, y: real): real { x * y }

  lemma RelativeDrift(d: real, g: real, e: real, C: real, newC: real, C0: real, k: real)
    requires 0.0 < C0 <= C <= newC && Product(d, C0) <= Product(k, C) && Product(g, C) == Product(d, newC) && e < g + 1.0
    ensures Product(e, C0) < Product(k + 1.0, newC)
  {
    hide Product;
    GrownWithin(d, g, C, newC, C0, k);
    OneMore(e, g, C0);
    OneMoreOf(k, newC);
  }

  lemma GrownWithin(d: real, g: real, C: real, newC: real, C0: real, k: real)
    requires 0.0 < C0 <= C <= newC && Product(d, C0) <= Product(k, C) && Product(g, C) == Product(d, newC)
    ensures Product(g, C0) <= Product(k, newC)
  {
    // g * C0 * C = d * C0 * newC <= k * C * newC
    hide Product;
    SwapFactors(g, C0, C);
    SwapFactors(d, newC, C0);
    SwapFactors(k, C, newC);
    TimesFactor(Product(d, C0), Product(k, C), newC);
    CancelFactor(Product(g, C0), Product(k, newC), C);
  }

  lemma SwapFactors(a: real, b: real, c: real)
    ensures Product(Product(a, b), c) == Product(Product(a, c), b)
  {
  }

  lemma TimesFactor(a: real, b: real, q: real)
    requires a <= b && q >= 0.0
    ensures Product(a, q) <= Product(b, q)
  {
  }

  lemma CancelFactor(a: real, b: real, k: real)
    requires k > 0.0 && Product(a, k) <= Product(b, k)
    ensures a <= b
  {
    RealQuotient(b * k, k, a);
    assert b * k / k == b;
  }

  lemma OneMore(e: real, g: real, q: real)
    requires e < g + 1.0 && q > 0.0
    ensures Product(e, q) < Product(g, q) + q
  {
    var d := g + 1.0 - e;
    assert d * q > 0.0;
    assert d * q == g * q + q - e * q;
  }

  lemma OneMoreOf(k: real, q: real)
    ensures Product(k + 1.0, q) == Product(k, q) + q
  {
  }

  // The drift has one direction, and after n rounds it is below n of the smallest unit, scaled by how much
  // the collateral has grown: it never feeds on itself.
  lemma {:induction false} DriftIsBounded(t: Totals, rounds: seq<Round>)
    requires AllFit(t, rounds)
    ensures
      var r, drift := After(t, rounds), ExactStakes(t, rounds) - After(t, rounds).stakes as real;
      Within(drift, t.coll, |rounds|, r.coll) && (rounds != [] ==> StrictlyWithin(drift, t.coll, |rounds|, r.coll))
    decreases |rounds|
  {
    hide Cut, Grown, StrictlyWithin, Within;
    if rounds == [] {
      NoDrift(t);
    } else {
      var n := |rounds| - 1;
      var p, r := After(t, rounds[..n]), rounds[n];
      DriftIsBounded(t, rounds[..n]);
      var x, left := ExactStakes(t, rounds[..n]), p.stakes - r.removed;
      var d := x - p.stakes as real;
      GrownIsLinear(x - r.removed as real, left as real, r.newColl, p.coll);
      assert x - r.removed as real - left as real == d;
      CutBelowExact(left, r.newColl, p.coll);
      DriftStep(d, ExactStakes(t, rounds) - After(t, rounds).stakes as real, r.newColl, p.coll, t.coll, n);
    }
  }

  lemma NoDrift(t: Totals)
    ensures Within(0.0, t.coll, 0, t.coll)
  {
  }

  // The ratio of stakes to collateral never rises, whatever is removed and whatever comes in.
  lemma {:induction false} RatioNeverRises(t: Totals, rounds: seq<Round>)
    requires AllFit(t, rounds)
    ensures After(t, rounds).stakes * t.coll <= t.stakes * After(t, rounds).coll
    decreases |rounds|
  {
    hide Cut;
    if rounds != [] {
      var n := |rounds| - 1;
      var p := After(t, rounds[..n]);
      RatioNeverRises(t, rounds[..n]);
      RatioStep(t.stakes, t.coll, p.stakes, p.coll, rounds[n].removed, rounds[n].newColl);
    }
  }

  lemma RatioStep(S0: nat, C0: nat, S: nat, C: nat, removed: nat, c: nat)
    requires C0 > 0 && C > 0 && removed <= S && S * C0 <= S0 * C
    ensures (S - removed + Cut(S - removed, c, C)) * C0 <= S0 * (C + c)
  {
    var left := S - removed;
    var q := Cut(left, c, C);
    NonNegative(c, left);
    FloorDivision(c * left, C);
    assert q * C <= c * left;
    assert left * C0 <= S * C0;
    CutRatio(left, q, C, c, S0, C0);
  }

  lemma CutRatio(left: nat, q: nat, C: nat, c: nat, S0: nat, C0: nat)
    requires C > 0 && q * C <= c * left && left * C0 <= S0 * C
    ensures (left + q) * C0 <= S0 * (C + c)
  {
    // (left + q) * C0 * C <= (left * C + c * left) * C0 = left * C0 * (C + c) <= S0 * C * (C + c)
    ScaleUp(q * C, c * left, C0);
    ScaleUp(left * C0, S0 * C, C + c);
    CutProducts(left, q, C, c, S0, C0);
    CancelPositive((left + q) * C0, S0 * (C + c), C);
  }

  lemma CutProducts(left: nat, q: nat, C: nat, c: nat, S0: nat, C0: nat)
    ensures (left + q) * C0 * C == left * C0 * C + q * C * C0
    ensures left * C0 * (C + c) == left * C0 * C + c * left * C0
    ensures S0 * C * (C + c) == S0 * (C + c) * C
  {
  }

  // Starting from stakes no larger than the collateral, no trove ever gets a stake above its collateral.
  lemma NewStakeAtMostColl(t: Totals, rounds: seq<Round>)
    requires AllFit(t, rounds) && rounds != [] && t.stakes <= t.coll
    ensures After(t, rounds).lastStake <= rounds[|rounds| - 1].newColl
    ensures After(t, rounds).stakes <= After(t, rounds).coll
  {
    hide Cut;
    var n := |rounds| - 1;
    var p, r := After(t, rounds[..n]), rounds[n];
    RatioNeverRises(t, rounds[..n]);
    ScaleUp(t.stakes, t.coll, p.coll);
    assert p.stakes * t.coll <= p.coll * t.coll;
    CancelPositive(p.stakes, p.coll, t.coll);
    CutAtMost(p.stakes - r.removed, r.newColl, p.coll);
  }

  lemma CutAtMost(s: nat, c: nat, C: nat)
    requires C > 0 && s <= C
    ensures Cut(s, c, C) <= c
  {
    NonNegative(c, s);
    ScaleUp(s, C, c);
    FloorDivision(c * s, C);
    CancelPositive(Cut(s, c, C), c, C);
  }

  // The loop of the test.
  method Simulate(start: Totals, rounds: seq<Round>) returns (offchainTotalStakes: nat, offchainTotalColl: nat, offchainStake: nat)
    requires AllFit(start, rounds)
    ensures Totals(offchainTotalStakes, offchainTotalColl, offchainStake) == After(start, rounds)
    ensures rounds != [] && start.stakes <= start.coll ==> offchainStake <= rounds[|rounds| - 1].newColl
    ensures offchainTotalStakes * start.coll <= start.stakes * offchainTotalColl
  {
    offchainTotalStakes, offchainTotalColl, offchainStake := start.stakes, start.coll, start.lastStake;
    assert rounds[..0] == [];
    for i := 0 to |rounds|
      invariant AllFit(start, rounds[..i])
      invariant Totals(offchainTotalStakes, offchainTotalColl, offchainStake) == After(start, rounds[..i])
    {
      assert rounds[..i + 1][..i] == rounds[..i];
      PrefixFits(start, rounds, i + 1);
      var newEntrantColl := rounds[i].newColl;
      offchainTotalStakes := offchainTotalStakes - rounds[i].removed;
      offchainStake := Cut(offchainTotalStakes, newEntrantColl, offchainTotalColl);
      offchainTotalStakes := offchainTotalStakes + offchainStake;
      offchainTotalColl := offchainTotalColl + newEntrantColl;
    }
    assert rounds[..|rounds|] == rounds;
    RatioNeverRises(start, rounds);
    if rounds != [] && start.stakes <= start.coll {
      NewStakeAtMostColl(start, rounds);
    }
  }

  lemma {:induction false} PrefixFits(t: Totals, rounds: seq<Round>, n: nat)
    requires AllFit(t, rounds) && n <= |rounds|
    ensures AllFit(t, rounds[..n])
    decreases |rounds|
  {
    hide Fits;
    if n < |rounds| {
      var shorter := rounds[..|rounds| - 1];
      PrefixFits(t, shorter, n);
      assert shorter[..n] == rounds[..n];
    } else {
      assert rounds[..n] == rounds;
    }
  }
}
