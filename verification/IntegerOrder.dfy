/** What truncation does to the order of the list. A redistribution keeps the order of two ratios in exact
    arithmetic; here is exactly when it keeps the order of the ratios in the contracts' integers, which margin is
    enough for the nominal ratios the list is sorted by, and how far these can slip. */
module IntegerOrder {
  import opened Common
  import opened TroveLedger

  // ---- A trove's collateral and debt before truncation, in 1e-18 parts ----

  function ExactColl(s: Ledger, t: Trove): nat
    requires GoodTrove(s, t)
  {
    NonNegative(t.stake, s.LColl - t.collSnapshot);
    NonNegative(t.stake, s.LDebt - t.debtSnapshot);
    PRECISION * t.coll + t.stake * (s.LColl - t.collSnapshot)
  }

  function ExactDebt(s: Ledger, t: Trove): nat
    requires GoodTrove(s, t)
  {
    NonNegative(t.stake, s.LColl - t.collSnapshot);
    NonNegative(t.stake, s.LDebt - t.debtSnapshot);
    PRECISION * t.debt + t.stake * (s.LDebt - t.debtSnapshot)
  }

  // getNominalICR
  function NICR(s: Ledger, t: Trove): nat
    requires GoodTrove(s, t)
  {
    ComputeNominalCR(EntireColl(s, t), EntireDebt(s, t))
  }

  lemma EntireIsFloor(s: Ledger, t: Trove)
    requires GoodTrove(s, t) && t.status.Active?
    ensures EntireColl(s, t) == ExactColl(s, t) / PRECISION && EntireDebt(s, t) == ExactDebt(s, t) / PRECISION
  {
    NonNegative(t.stake, s.LColl - t.collSnapshot);
    NonNegative(t.stake, s.LDebt - t.debtSnapshot);
    WholePlusPart(t.coll, t.stake * (s.LColl - t.collSnapshot));
    WholePlusPart(t.debt, t.stake * (s.LDebt - t.debtSnapshot));
  }

  lemma WholePlusPart(whole: nat, part: nat)
    ensures (PRECISION * whole + part) / PRECISION == whole + part / PRECISION
  {
  }

  // ---- A redistribution ----

  function CollPerUnit(s: Ledger, coll: nat): nat
    requires s.totalStakes > 0
  {
    PerUnit(coll * PRECISION + s.collError, s.totalStakes)
  }

  function DebtPerUnit(s: Ledger, debt: nat): nat
    requires s.totalStakes > 0
  {
    PerUnit(debt * PRECISION + s.debtError, s.totalStakes)
  }

  lemma AfterRedistribution(s: Ledger, debt: nat, coll: nat, t: Trove)
    requires debt > 0 && Redistribute(s, debt, coll).Some? && GoodTrove(s, t)
    ensures
      var r := Redistribute(s, debt, coll).value;
      && s.totalStakes > 0 && GoodTrove(r, t)
      && ExactColl(r, t) == ExactColl(s, t) + t.stake * CollPerUnit(s, coll)
      && ExactDebt(r, t) == ExactDebt(s, t) + t.stake * DebtPerUnit(s, debt)
  {
    RedistributeFields(s, debt, coll);
    hide Redistribute, PerUnit;
    var r := Redistribute(s, debt, coll).value;
    Distribute(t.stake, s.LColl - t.collSnapshot, CollPerUnit(s, coll));
    Distribute(t.stake, s.LDebt - t.debtSnapshot, DebtPerUnit(s, debt));
    assert r.LColl - t.collSnapshot == s.LColl - t.collSnapshot + CollPerUnit(s, coll);
    assert r.LDebt - t.debtSnapshot == s.LDebt - t.debtSnapshot + DebtPerUnit(s, debt);
  }

  lemma Distribute(a: int, b: int, c: int)
    ensures a * (b + c) == a * b + a * c
  {
  }

  // By how much the ratio of a is ahead of that of b, crosswise.
  function Margin(s: Ledger, a: Trove, b: Trove): int
    requires GoodTrove(s, a) && GoodTrove(s, b)
  {
    ExactColl(s, a) * ExactDebt(s, b) - ExactColl(s, b) * ExactDebt(s, a)
  }

  // By how much the stakes are out of proportion to the collateral; 0 in exact arithmetic.
  function Imbalance(s: Ledger, a: Trove, b: Trove): int
    requires GoodTrove(s, a) && GoodTrove(s, b)
  {
    a.stake * ExactColl(s, b) - b.stake * ExactColl(s, a)
  }

  // The margin after a redistribution of coll and debt, from what is known before it.
  function MarginAfter(s: Ledger, debt: nat, coll: nat, a: Trove, b: Trove): int
    requires GoodTrove(s, a) && GoodTrove(s, b) && s.totalStakes > 0
  {
    Margin(s, a, b) + CollPerUnit(s, coll) * (a.stake * ExactDebt(s, b) - b.stake * ExactDebt(s, a))
    - DebtPerUnit(s, debt) * Imbalance(s, a, b)
  }

  lemma CrossProducts(A: int, B: int, A1: int, B1: int, p: int, q: int, x: int, y: int)
    ensures (A + p * x) * (B1 + q * y) - (A1 + q * x) * (B + p * y)
         == (A * B1 - A1 * B) + x * (p * B1 - q * B) - y * (p * A1 - q * A)
  {
    assert (A + p * x) * (B1 + q * y) == A * B1 + A * (q * y) + (p * x) * B1 + (p * x) * (q * y);
    assert (A1 + q * x) * (B + p * y) == A1 * B + A1 * (p * y) + (q * x) * B + (q * x) * (p * y);
    assert (p * x) * (q * y) == (q * x) * (p * y);
    assert A * (q * y) == y * (q * A) && A1 * (p * y) == y * (p * A1);
    assert (p * x) * B1 == x * (p * B1) && (q * x) * B == x * (q * B);
  }

  // The ratio of a, before truncation, is at least that of b after a redistribution exactly when the margin it
  // had, with what the rewards add to it, makes up for the stakes being out of proportion.
  lemma RedistributeOrderExactly(s: Ledger, debt: nat, coll: nat, a: Trove, b: Trove)
    requires debt > 0 && Redistribute(s, debt, coll).Some? && GoodTrove(s, a) && GoodTrove(s, b)
    ensures
      var r := Redistribute(s, debt, coll).value;
      && s.totalStakes > 0 && GoodTrove(r, a) && GoodTrove(r, b)
      && Margin(r, a, b) == MarginAfter(s, debt, coll, a, b)
      && (Margin(r, a, b) >= 0 <==>
            Margin(s, a, b) + CollPerUnit(s, coll) * (a.stake * ExactDebt(s, b) - b.stake * ExactDebt(s, a))
            >= DebtPerUnit(s, debt) * Imbalance(s, a, b))
  {
    hide Redistribute, ExactColl, ExactDebt, CollPerUnit, DebtPerUnit;
    AfterRedistribution(s, debt, coll, a);
    AfterRedistribution(s, debt, coll, b);
    CrossProducts(ExactColl(s, a), ExactDebt(s, a), ExactColl(s, b), ExactDebt(s, b), a.stake, b.stake,
                  CollPerUnit(s, coll), DebtPerUnit(s, debt));
  }

  // A redistribution leaves the imbalance of any two stakes exactly what it was.
  lemma RedistributionKeepsImbalance(s: Ledger, debt: nat, coll: nat, a: Trove, b: Trove)
    requires debt > 0 && Redistribute(s, debt, coll).Some? && GoodTrove(s, a) && GoodTrove(s, b)
    ensures
      var r := Redistribute(s, debt, coll).value;
      GoodTrove(r, a) && GoodTrove(r, b) && Imbalance(r, a, b) == Imbalance(s, a, b)
  {
    hide Redistribute, ExactColl, ExactDebt, CollPerUnit, DebtPerUnit;
    AfterRedistribution(s, debt, coll, a);
    AfterRedistribution(s, debt, coll, b);
    var x := CollPerUnit(s, coll);
    SameImbalance(ExactColl(s, a), ExactColl(s, b), a.stake, b.stake, x);
  }

  lemma SameImbalance(A: int, B: int, p: int, q: int, x: int)
    ensures p * (B + q * x) - q * (A + p * x) == p * B - q * A
  {
    Distribute(p, B, q * x);
    Distribute(q, A, p * x);
    assert p * (q * x) == q * (p * x);
  }

  // Two stakes cut from the same snapshots are in proportion to within one unit of stake.
  lemma FreshStakesAlmostBalanced(s: Ledger, a: Trove, b: Trove)
    requires GoodTrove(s, a) && GoodTrove(s, b) && a.collSnapshot == b.collSnapshot == s.LColl
    requires NewStake(s, a.coll) == Some(a.stake) && NewStake(s, b.coll) == Some(b.stake)
    ensures -(PRECISION * b.coll) <= Imbalance(s, a, b) <= PRECISION * a.coll
    ensures s.collSnapshot == 0 ==> Imbalance(s, a, b) == 0
  {
    hide ComputeNominalCR;
    assert ExactColl(s, a) == PRECISION * a.coll && ExactColl(s, b) == PRECISION * b.coll;
    Rearrange3(a.stake, b.coll);
    Rearrange3(b.stake, a.coll);
    if s.collSnapshot > 0 {
      FloorDivision(a.coll * s.stakesSnapshot, s.collSnapshot);
      FloorDivision(b.coll * s.stakesSnapshot, s.collSnapshot);
      FloorProportion(a.coll, b.coll, s.stakesSnapshot, s.collSnapshot, a.stake, b.stake);
    }
  }

  lemma Rearrange3(p: nat, c: nat)
    ensures p * (PRECISION * c) == PRECISION * (p * c)
  {
  }

  lemma FloorProportion(c: nat, c1: nat, S: nat, C: nat, p: nat, q: nat)
    requires C > 0 && p * C <= c * S < (p + 1) * C && q * C <= c1 * S < (q + 1) * C
    ensures 0 - c1 <= p * c1 - q * c <= c
  {
    // p * C * c1 <= c * S * c1 and c1 * S * c <= (q + 1) * C * c, so (p * c1 - q * c) * C <= c * C; and back
    ProportionAbove(c, c1, S, C, p, q);
    ProportionAbove(c1, c, S, C, q, p);
  }

  lemma ProportionAbove(c: nat, c1: nat, S: nat, C: nat, p: nat, q: nat)
    requires C > 0 && p * C <= c * S && c1 * S < (q + 1) * C
    ensures p * c1 - q * c <= c
  {
    ScaleUp(p * C, c * S, c1);
    ScaleUp(c1 * S, (q + 1) * C, c);
    assert p * C * c1 == (p * c1) * C && c * S * c1 == c1 * S * c && (q + 1) * C * c == (q * c + c) * C;
    CancelPositive(p * c1, q * c + c, C);
  }

  // Stakes in proportion: the order is kept in both directions, whatever is redistributed.
  lemma BalancedOrderIsKept(s: Ledger, debt: nat, coll: nat, a: Trove, b: Trove)
    requires debt > 0 && Redistribute(s, debt, coll).Some? && GoodTrove(s, a) && GoodTrove(s, b)
    requires Imbalance(s, a, b) == 0 && ExactColl(s, b) > 0
    ensures
      var r := Redistribute(s, debt, coll).value;
      && GoodTrove(r, a) && GoodTrove(r, b)
      && (Margin(r, a, b) >= 0 <==> Margin(s, a, b) >= 0)
  {
    hide Redistribute, ExactColl, ExactDebt, CollPerUnit, DebtPerUnit;
    RedistributeOrderExactly(s, debt, coll, a, b);
    BalancedAlgebra(ExactColl(s, a), ExactDebt(s, a), ExactColl(s, b), ExactDebt(s, b), a.stake, b.stake, CollPerUnit(s, coll));
  }

  lemma BalancedAlgebra(A: nat, B: nat, A1: nat, B1: nat, p: nat, q: nat, x: nat)
    requires A1 > 0 && p * A1 == q * A
    ensures A * B1 - A1 * B + x * (p * B1 - q * B) >= 0 <==> A * B1 - A1 * B >= 0
  {
    // (p * B1 - q * B) * A1 == q * (A * B1 - A1 * B)
    var m, d := A * B1 - A1 * B, p * B1 - q * B;
    assert d * A1 == (p * A1) * B1 - q * (B * A1);
    assert (q * A) * B1 == q * (A * B1) && q * (B * A1) == q * (A1 * B);
    assert d * A1 == q * m;
    SameSign(d, A1, q, m);
    Scaled(x, d);
    if m >= 0 {
      assert m + x * d >= 0;
    } else {
      assert x * d <= 0;
    }
  }

  lemma SameSign(d: int, A1: int, q: nat, m: int)
    requires A1 > 0 && d * A1 == q * m
    ensures (m >= 0 ==> d >= 0) && (m <= 0 ==> d <= 0)
  {
    Scaled(q, m);
    Signs(d, A1);
  }

  lemma Scaled(k: nat, x: int)
    ensures (x >= 0 ==> k * x >= 0) && (x <= 0 ==> k * x <= 0)
    ensures x >= 1 ==> k * x >= k
  {
  }

  // ---- Any number of redistributions ----

  // How the exact entire collateral and debt of a record read on two ledgers differ.
  lemma ExactBetween(s: Ledger, r: Ledger, t: Trove)
    requires GoodTrove(s, t) && GoodTrove(r, t)
    ensures ExactColl(r, t) == ExactColl(s, t) + t.stake * (r.LColl - s.LColl)
    ensures ExactDebt(r, t) == ExactDebt(s, t) + t.stake * (r.LDebt - s.LDebt)
  {
    Distribute(t.stake, s.LColl - t.collSnapshot, r.LColl - s.LColl);
    Distribute(t.stake, s.LDebt - t.debtSnapshot, r.LDebt - s.LDebt);
    assert r.LColl - t.collSnapshot == s.LColl - t.collSnapshot + (r.LColl - s.LColl);
    assert r.LDebt - t.debtSnapshot == s.LDebt - t.debtSnapshot + (r.LDebt - s.LDebt);
  }

  // Two records on two ledgers: the margin moves with what the accumulators have gained in all, however many
  // redistributions that took, and the imbalance of the stakes is what it was.
  lemma MarginBetween(s: Ledger, r: Ledger, a: Trove, b: Trove)
    requires GoodTrove(s, a) && GoodTrove(s, b) && GoodTrove(r, a) && GoodTrove(r, b)
    ensures Margin(r, a, b) == Margin(s, a, b) + (r.LColl - s.LColl) * (a.stake * ExactDebt(s, b) - b.stake * ExactDebt(s, a))
                               - (r.LDebt - s.LDebt) * Imbalance(s, a, b)
    ensures Imbalance(r, a, b) == Imbalance(s, a, b)
  {
    hide ExactColl, ExactDebt;
    ExactBetween(s, r, a);
    ExactBetween(s, r, b);
    MarginAlgebra(ExactColl(s, a), ExactDebt(s, a), ExactColl(s, b), ExactDebt(s, b), a.stake, b.stake,
                  r.LColl - s.LColl, r.LDebt - s.LDebt, ExactColl(r, a), ExactDebt(r, a), ExactColl(r, b), ExactDebt(r, b));
  }

  lemma MarginAlgebra(A: int, B: int, A1: int, B1: int, p: int, q: int, x: int, y: int, C: int, D: int, C1: int, D1: int)
    requires C == A + p * x && D == B + p * y && C1 == A1 + q * x && D1 == B1 + q * y
    ensures C * D1 - C1 * D == (A * B1 - A1 * B) + x * (p * B1 - q * B) - y * (p * A1 - q * A)
    ensures p * C1 - q * C == p * A1 - q * A
  {
    CrossProducts(A, B, A1, B1, p, q, x, y);
    Distribute(p, A1, q * x);
    Distribute(q, A, p * x);
    assert p * (q * x) == q * (p * x);
  }

  // ---- The nominal ratios ----

  // Truncation moves a ratio by less than one unit of collateral, and one of debt.
  lemma TruncatedCross(A: nat, B: nat, A1: nat, B1: nat)
    ensures PRECISION * PRECISION * ((A / PRECISION) * (B1 / PRECISION) - (A1 / PRECISION) * (B / PRECISION))
         >= A * B1 - A1 * B - PRECISION * (A + B1)
  {
    var P := PRECISION;
    var c, d1, c1, d := A / P, B1 / P, A1 / P, B / P;
    FloorDivision(A, P);
    FloorDivision(B1, P);
    FloorDivision(A1, P);
    FloorDivision(B, P);
    FloorProducts(A, B1, c, d1);
    CeilProducts(A1, B, c1, d);
  }

  lemma FloorProducts(A: nat, B: nat, c: nat, d: nat)
    requires PRECISION * c <= A < PRECISION * (c + 1) && PRECISION * d <= B < PRECISION * (d + 1)
    ensures PRECISION * PRECISION * (c * d) >= A * B - PRECISION * (A + B)
  {
    var P := PRECISION;
    var f, g := A - P * c, B - P * d;
    assert (P * c) * (P * d) == P * P * (c * d);
    assert (A - f) * (B - g) == A * B - A * g - f * B + f * g;
    ScaleUp(g, P, A);
    ScaleUp(f, P, B);
    NonNegative(f, g);
  }

  lemma CeilProducts(A: nat, B: nat, c: nat, d: nat)
    requires PRECISION * c <= A && PRECISION * d <= B
    ensures PRECISION * PRECISION * (c * d) <= A * B
  {
    var P := PRECISION;
    ScaleUp(P * c, A, P * d);
    ScaleUp(P * d, B, A);
    assert (P * c) * (P * d) == P * P * (c * d);
  }

  // Nominal ratios differ the wrong way by less than one unit and the shortfall crosswise, in parts of the two
  // debts; with no shortfall they do not.
  lemma NominalByCross(c: nat, d: nat, c1: nat, d1: nat)
    requires d > 0 && d1 > 0
    ensures (ComputeNominalCR(c1, d1) - ComputeNominalCR(c, d) - 1) * (d * d1) < NICR_PRECISION * (c1 * d - c * d1)
    ensures c * d1 >= c1 * d ==> ComputeNominalCR(c, d) >= ComputeNominalCR(c1, d1)
  {
    hide ComputeNominalCR;
    var N := NICR_PRECISION;
    var q, q1 := ComputeNominalCR(c, d), ComputeNominalCR(c1, d1);
    NominalFloor(c, d);
    NominalFloor(c1, d1);
    ScaleUp(q1 * d1, c1 * N, d);
    ScaleUpStrictly(c * N, (q + 1) * d, d1);
    Rearranged(q, q1, c, d, c1, d1, N);
    if c * d1 >= c1 * d {
      NoShortfall(q1 - q - 1, d * d1, c1 * d - c * d1, N);
    }
  }

  lemma NominalFloor(c: nat, d: nat)
    requires d > 0
    ensures ComputeNominalCR(c, d) * d <= c * NICR_PRECISION < (ComputeNominalCR(c, d) + 1) * d
  {
    FloorDivision(c * NICR_PRECISION, d);
  }

  lemma NoShortfall(k: int, dd: int, m: int, N: nat)
    requires m <= 0 && k * dd < N * m
    ensures dd > 0 ==> k < 0
  {
    Scaled(N, m);
    if dd > 0 {
      Signs(k, dd);
    }
  }

  lemma Rearranged(q: int, q1: int, c: int, d: int, c1: int, d1: int, N: int)
    ensures q1 * d1 * d == q1 * (d * d1) && (q + 1) * d * d1 == (q + 1) * (d * d1)
    ensures c1 * N * d == N * (c1 * d) && c * N * d1 == N * (c * d1)
    ensures (q1 - q - 1) * (d * d1) == q1 * (d * d1) - (q + 1) * (d * d1)
    ensures N * (c1 * d - c * d1) == N * (c1 * d) - N * (c * d1)
  {
  }

  // The exact entire collateral and debt after a redistribution, from what is known before it.
  function CollAfter(s: Ledger, coll: nat, t: Trove): nat
    requires GoodTrove(s, t) && s.totalStakes > 0
  {
    NonNegative(t.stake, CollPerUnit(s, coll));
    ExactColl(s, t) + t.stake * CollPerUnit(s, coll)
  }

  function DebtAfter(s: Ledger, debt: nat, t: Trove): nat
    requires GoodTrove(s, t) && s.totalStakes > 0
  {
    NonNegative(t.stake, DebtPerUnit(s, debt));
    ExactDebt(s, t) + t.stake * DebtPerUnit(s, debt)
  }

  // A margin that is enough for the nominal ratios, truncation included.
  predicate KeepsOrder(s: Ledger, debt: nat, coll: nat, a: Trove, b: Trove)
    requires GoodTrove(s, a) && GoodTrove(s, b) && s.totalStakes > 0
  {
    MarginAfter(s, debt, coll, a, b) >= PRECISION * (CollAfter(s, coll, a) + DebtAfter(s, debt, b))
  }

  // With that margin before a redistribution a is not below b in the list's order after it. Without it the order
  // can slip, by one unit and no more than what is missing from the margin, in parts of the two debts.
  lemma NominalOrderAfter(s: Ledger, debt: nat, coll: nat, a: Trove, b: Trove)
    requires debt > 0 && Redistribute(s, debt, coll).Some?
    requires GoodTrove(s, a) && a.status.Active? && GoodTrove(s, b) && b.status.Active?
    ensures
      var r := Redistribute(s, debt, coll).value;
      var d, d1 := DebtAfter(s, debt, a) / PRECISION, DebtAfter(s, debt, b) / PRECISION;
      var missing := PRECISION * (CollAfter(s, coll, a) + DebtAfter(s, debt, b)) - MarginAfter(s, debt, coll, a, b);
      && s.totalStakes > 0 && GoodTrove(r, a) && GoodTrove(r, b)
      && (KeepsOrder(s, debt, coll, a, b) ==> NICR(r, a) >= NICR(r, b))
      && (NICR(r, b) - NICR(r, a) - 1) * (d * d1) * (PRECISION * PRECISION) < NICR_PRECISION * missing
  {
    hide Redistribute, ExactColl, ExactDebt, CollPerUnit, DebtPerUnit, NICR, Margin, MarginAfter;
    RedistributeOrderExactly(s, debt, coll, a, b);
    AfterRedistribution(s, debt, coll, a);
    AfterRedistribution(s, debt, coll, b);
    NominalByMargin(Redistribute(s, debt, coll).value, a, b);
  }

  // What the margin before truncation says about the nominal ratios of the same state.
  lemma NominalByMargin(s: Ledger, a: Trove, b: Trove)
    requires GoodTrove(s, a) && a.status.Active? && GoodTrove(s, b) && b.status.Active?
    ensures
      var d, d1 := ExactDebt(s, a) / PRECISION, ExactDebt(s, b) / PRECISION;
      var missing := PRECISION * (ExactColl(s, a) + ExactDebt(s, b)) - Margin(s, a, b);
      && (missing <= 0 ==> NICR(s, a) >= NICR(s, b))
      && (NICR(s, b) - NICR(s, a) - 1) * (d * d1) * (PRECISION * PRECISION) < NICR_PRECISION * missing
  {
    hide ExactColl, ExactDebt, ComputeNominalCR, EntireColl, EntireDebt;
    EntireIsFloor(s, a);
    EntireIsFloor(s, b);
    DebtPositive(s, a);
    DebtPositive(s, b);
    TruncatedCross(ExactColl(s, a), ExactDebt(s, a), ExactColl(s, b), ExactDebt(s, b));
    NominalByCross(EntireColl(s, a), EntireDebt(s, a), EntireColl(s, b), EntireDebt(s, b));
    SlipAlgebra(NICR(s, b) - NICR(s, a) - 1, EntireColl(s, a), EntireDebt(s, a), EntireColl(s, b), EntireDebt(s, b),
                Margin(s, a, b), PRECISION * (ExactColl(s, a) + ExactDebt(s, b)));
  }

  lemma SlipAlgebra(k: int, c: nat, d: nat, c1: nat, d1: nat, margin: int, room: int)
    requires k * (d * d1) < NICR_PRECISION * (c1 * d - c * d1)
    requires PRECISION * PRECISION * (c * d1 - c1 * d) >= margin - room
    ensures k * (d * d1) * (PRECISION * PRECISION) < NICR_PRECISION * (room - margin)
    ensures margin >= room ==> c * d1 >= c1 * d
  {
    var m := c1 * d - c * d1;
    assert c * d1 - c1 * d == -m;
    ScaleUpStrictly(k * (d * d1), NICR_PRECISION * m, PRECISION * PRECISION);
  }

  // Out of order by one unit at most: where the ratios before truncation stay in order, and the collateral of a
  // is no more than ten for every thUSD of its debt.
  lemma OrderSlipsByOne(s: Ledger, debt: nat, coll: nat, a: Trove, b: Trove)
    requires debt > 0 && Redistribute(s, debt, coll).Some?
    requires GoodTrove(s, a) && a.status.Active? && GoodTrove(s, b) && b.status.Active? && s.totalStakes > 0
    requires MarginAfter(s, debt, coll, a, b) >= 0
    requires CollAfter(s, coll, a) <= 10 * DebtAfter(s, debt, a)
    ensures
      var r := Redistribute(s, debt, coll).value;
      GoodTrove(r, a) && GoodTrove(r, b) && NICR(r, b) <= NICR(r, a) + 1
  {
    hide Redistribute, CollAfter, DebtAfter, NICR, MarginAfter;
    NominalOrderAfter(s, debt, coll, a, b);
    LargeDebtAfter(s, debt, a);
    LargeDebtAfter(s, debt, b);
    var r := Redistribute(s, debt, coll).value;
    SmallSlip(NICR(r, b) - NICR(r, a) - 1, CollAfter(s, coll, a), DebtAfter(s, debt, a), DebtAfter(s, debt, b),
              MarginAfter(s, debt, coll, a, b));
  }

  lemma LargeDebtAfter(s: Ledger, debt: nat, t: Trove)
    requires GoodTrove(s, t) && t.status.Active? && s.totalStakes > 0
    ensures DebtAfter(s, debt, t) >= PRECISION * (2000 * PRECISION)
  {
    hide DebtPerUnit;
    NonNegative(t.stake, s.LColl - t.collSnapshot);
    NonNegative(t.stake, s.LDebt - t.debtSnapshot);
    NonNegative(t.stake, DebtPerUnit(s, debt));
  }

  lemma SmallSlip(k: int, C: nat, D: nat, D1: nat, margin: int)
    requires C <= 10 * D && D >= PRECISION * (2000 * PRECISION) && D1 >= PRECISION * (2000 * PRECISION) && margin >= 0
    requires k * ((D / PRECISION) * (D1 / PRECISION)) * (PRECISION * PRECISION)
           < NICR_PRECISION * (PRECISION * (C + D1) - margin)
    ensures k < 1
  {
    var P, N := PRECISION, NICR_PRECISION;
    var d, d1 := D / P, D1 / P;
    FloorDivision(D, P);
    FloorDivision(D1, P);
    // D <= 2 * P * d and D1 <= 2 * P * d1, so N * P * (C + D1) <= P * P * (20 * N * d + 2 * N * d1) <= P * P * d * d1
    ScaleUp(2000 * P, d, d1);
    ScaleUp(2000 * P, d1, d);
    assert d * d1 == d1 * d;
    if k >= 1 {
      ScaleUp(1, k, d * d1);
      assert false;
    }
  }

  // And the margin has to be there, up to one unit of the nominal ratio and the truncation.
  lemma NominalOrderNeeds(s: Ledger, debt: nat, coll: nat, a: Trove, b: Trove)
    requires debt > 0 && Redistribute(s, debt, coll).Some?
    requires GoodTrove(s, a) && a.status.Active? && GoodTrove(s, b) && b.status.Active?
    ensures
      var r := Redistribute(s, debt, coll).value;
      && s.totalStakes > 0 && GoodTrove(r, a) && GoodTrove(r, b)
      && (NICR(r, a) >= NICR(r, b) ==>
            var d, d1 := DebtAfter(s, debt, a) / PRECISION, DebtAfter(s, debt, b) / PRECISION;
            NICR_PRECISION * (MarginAfter(s, debt, coll, a, b) + PRECISION * (CollAfter(s, coll, b) + DebtAfter(s, debt, a)))
            > -(d1 * d * (PRECISION * PRECISION)))
  {
    hide Redistribute, CollAfter, DebtAfter, NICR, MarginAfter;
    NominalOrderAfter(s, debt, coll, b, a);
    MarginIsAntisymmetric(s, debt, coll, a, b);
    var r := Redistribute(s, debt, coll).value;
    var d, d1 := DebtAfter(s, debt, a) / PRECISION, DebtAfter(s, debt, b) / PRECISION;
    if NICR(r, a) >= NICR(r, b) {
      NonNegative(d1, d);
      ScaleUp(-1, NICR(r, a) - NICR(r, b) - 1, d1 * d);
      ScaleUp(-(d1 * d), (NICR(r, a) - NICR(r, b) - 1) * (d1 * d), PRECISION * PRECISION);
    }
  }

  lemma MarginIsAntisymmetric(s: Ledger, debt: nat, coll: nat, a: Trove, b: Trove)
    requires GoodTrove(s, a) && GoodTrove(s, b) && s.totalStakes > 0
    ensures MarginAfter(s, debt, coll, b, a) == -MarginAfter(s, debt, coll, a, b)
  {
    hide ExactColl, ExactDebt, CollPerUnit, DebtPerUnit;
    var x, y := CollPerUnit(s, coll), DebtPerUnit(s, debt);
    Opposite(x, a.stake * ExactDebt(s, b), b.stake * ExactDebt(s, a));
    Opposite(y, a.stake * ExactColl(s, b), b.stake * ExactColl(s, a));
  }

  lemma Opposite(k: int, m: int, n: int)
    ensures k * (n - m) == -(k * (m - n))
  {
  }
}
