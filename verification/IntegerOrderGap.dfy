/** A run at ordinary prices after which the sorted list is out of order: a liquidation in Recovery Mode
    redistributes to two troves of almost the same ratio. */
module IntegerOrderGap {
  import opened Common
  import opened TroveLedger
  import opened Liquidation
  import opened Borrowing
  import opened SystemRuns
  import opened IntegerOrder
  import opened RunSteps
  import SP = StabilityPool

  const PRICE: nat := 40_000 * PRECISION
  const LOW_PRICE: nat := 20_000 * PRECISION
  const COLL_A: nat := 3_912_111_075_699_998_899
  const COLL_B: nat := 1_304_037_025_233_332_966
  const COLL_C: nat := 3_045_542_077_200_802_509
  const DEBT_A: nat := 31_413 * PRECISION
  const DEBT_B: nat := 10_471 * PRECISION
  const DEBT_C: nat := 91_197_630_407_386_215_619_575
  const GAS_C: nat := 15_227_710_386_004_012
  const REST_C: nat := COLL_C - GAS_C

  const ORDER_RUN := [
    OpenTrove(0, DEBT_A - G, COLL_A, 0, PRICE, true),
    OpenTrove(1, DEBT_B - G, COLL_B, 0, PRICE, true),
    OpenTrove(2, DEBT_C - G, COLL_C, 0, PRICE, true),
    LiquidateTroves([2], LOW_PRICE)]

  const NO_TROVE := Trove(NonExistent, 0, 0, 0, 0, 0)
  const TROVE_A := Trove(Active, DEBT_A, COLL_A, COLL_A, 0, 0)
  const TROVE_B := Trove(Active, DEBT_B, COLL_B, COLL_B, 0, 0)
  const TROVE_C := Trove(Active, DEBT_C, COLL_C, COLL_C, 0, 0)

  function S0(): Ledger {
    Ledger([NO_TROVE, NO_TROVE, NO_TROVE], 0, 0, 0, 0, 0, 0, 0, 0, 0, 0, 0, SP.EmptyPool(3), [0, 0, 0],
           0, 0, 0, 0, 0, 0, 0, true, true, 0, 0)
  }

  lemma StartsEmpty()
    ensures S0() == EmptyLedger(3, true)
  {
    assert S0().troves == EmptyLedger(3, true).troves;
    assert S0().surplus == EmptyLedger(3, true).surplus;
  }

  function S1(): Ledger {
    S0().(troves := [TROVE_A, NO_TROVE, NO_TROVE], totalStakes := COLL_A, activeColl := COLL_A, activeDebt := DEBT_A,
          held := DEBT_A - G, gasPool := G, supply := DEBT_A)
  }

  function S2(): Ledger {
    S0().(troves := [TROVE_A, TROVE_B, NO_TROVE], totalStakes := STAKES, activeColl := STAKES, activeDebt := DEBT_A + DEBT_B,
          held := DEBT_A + DEBT_B - 2 * G, gasPool := 2 * G, supply := DEBT_A + DEBT_B)
  }

  function S3(): Ledger {
    S0().(troves := [TROVE_A, TROVE_B, TROVE_C], totalStakes := STAKES + COLL_C, activeColl := STAKES + COLL_C,
          activeDebt := DEBT_A + DEBT_B + DEBT_C, held := DEBT_A + DEBT_B + DEBT_C - 3 * G, gasPool := 3 * G,
          supply := DEBT_A + DEBT_B + DEBT_C)
  }

  lemma FirstOpening(a: Ledger, b: Ledger)
    requires a == S0() && b == S1()
    ensures Openable(a, 0, TROVE_A, PRICE) && b == Opened(a, 0, TROVE_A)
  {
    assert a.troves[0 := TROVE_A] == b.troves;
  }

  lemma SecondOpening(b: Ledger, c: Ledger)
    requires b == S1() && c == S2()
    ensures Openable(b, 1, TROVE_B, PRICE) && c == Opened(b, 1, TROVE_B)
  {
    assert b.troves[1 := TROVE_B] == c.troves;
  }

  lemma ThirdOpening(c: Ledger, d: Ledger)
    requires c == S2() && d == S3()
    ensures Openable(c, 2, TROVE_C, PRICE) && d == Opened(c, 2, TROVE_C)
  {
    assert c.troves[2 := TROVE_C] == d.troves;
  }

  // ---- The liquidation ----

  const CLOSED := Trove(ClosedByLiquidation, 0, 0, 0, 0, 0)
  const STAKES: nat := COLL_A + COLL_B
  const LIQUIDATED := Values(DEBT_C, COLL_C, GAS_C, G, 0, 0, DEBT_C, REST_C, 0)
  const TOTALS := Totals(COLL_C, DEBT_C, GAS_C, G, 0, 0, DEBT_C, REST_C, 0)

  function AfterBatch(): Ledger {
    S3().(troves := [TROVE_A, TROVE_B, CLOSED], totalStakes := STAKES, applications := 1)
  }

  function S4(): Ledger {
    AfterBatch().(LColl := 580_948_682_471_761_217, LDebt := 17_483_711_858_386_097_247_442,
                  collError := 4_011_100_593_502_720_295, debtError := 5_069_805_773_591_660_670, lastStakes := STAKES,
                  activeColl := STAKES, activeDebt := DEBT_A + DEBT_B, defaultColl := REST_C, defaultDebt := DEBT_C,
                  stakesSnapshot := STAKES, collSnapshot := STAKES + REST_C, gasPool := 2 * G, held := S3().held + G)
  }

  lemma ThreeCounted(s: Ledger)
    requires s.troves == [TROVE_A, TROVE_B, TROVE_C]
    ensures Count(s) == 3
  {
    hide Sum;
    SumOfThree(Actives(s.troves));
  }

  function Progressed(): Progress {
    Progress(AfterBatch(), TOTALS, 0, COLL_A + COLL_B + COLL_C - GAS_C, DEBT_A + DEBT_B + DEBT_C, false)
  }

  lemma ProgressedIs(p: Progress)
    requires p == Progressed()
    ensures p.s == AfterBatch() && p.totals == TOTALS
    ensures p == Progress(AfterBatch(), TOTALS, 0, COLL_A + COLL_B + COLL_C - GAS_C, DEBT_A + DEBT_B + DEBT_C, false)
  {
  }

  lemma LowRatios()
    ensures ComputeCR(COLL_C, DEBT_C, LOW_PRICE) <= ONE_HUNDRED_PERCENT
    ensures ComputeCR(COLL_A + COLL_B + COLL_C, DEBT_A + DEBT_B + DEBT_C, LOW_PRICE) < CCR
    ensures ComputeCR(COLL_A + COLL_B + COLL_C - GAS_C, DEBT_A + DEBT_B + DEBT_C, LOW_PRICE) < CCR
    ensures OffsetAndRedistribute(WithGasShare(DEBT_C, COLL_C), 0) == Some(LIQUIDATED)
  {
  }

  // A batch in Recovery Mode that takes out a trove at or below 100% with nothing pending.
  lemma FreshRecoveryStep(s: Ledger, i: nat, v: Values, price: nat)
    requires i < |s.troves| && s.troves[i].status.Active? && GoodTrove(s, s.troves[i]) && |s.surplus| == |s.troves|
    requires s.troves[i].collSnapshot == s.LColl && s.troves[i].debtSnapshot == s.LDebt
    requires Count(s) > 1 && s.totalStakes >= s.troves[i].stake
    requires ComputeCR(s.troves[i].coll, s.troves[i].debt, price) <= ONE_HUNDRED_PERCENT
    requires OffsetAndRedistribute(WithGasShare(s.troves[i].debt, s.troves[i].coll), 0) == Some(v)
    requires v == Values(v.debt, v.coll, v.collGas, G, 0, 0, v.debtToRedistribute, v.collToRedistribute, 0)
    requires v.collGas <= SystemColl(s)
    ensures
      var q := s.(troves := s.troves[i := CLOSED], totalStakes := s.totalStakes - s.troves[i].stake,
                  applications := s.applications + 1);
      BatchStep(Start(s), i, price, true)
      == Some(Progress(q, Totals(v.coll, v.debt, v.collGas, G, 0, 0, v.debtToRedistribute, v.collToRedistribute, 0),
                       s.pool.total, SystemColl(s) - v.collGas, SystemDebt(s),
                       ComputeCR(SystemColl(s) - v.collGas, SystemDebt(s), price) >= CCR))
  {
    hide Sum, Take, PendingColl, PendingDebt, OffsetAndRedistribute, ComputeCR;
    TakeFresh(s, i, v);
  }

  lemma ThirdState(s: Ledger)
    requires s == S3()
    ensures s.troves == [TROVE_A, TROVE_B, TROVE_C] && |s.surplus| == 3 && s.LColl == s.LDebt == 0
    ensures s.totalStakes == STAKES + COLL_C && s.pool.total == 0
    ensures SystemColl(s) == COLL_A + COLL_B + COLL_C && SystemDebt(s) == DEBT_A + DEBT_B + DEBT_C
    ensures AfterBatch() == s.(troves := s.troves[2 := CLOSED], totalStakes := s.totalStakes - COLL_C,
                               applications := s.applications + 1)
  {
    assert s.troves[2 := CLOSED] == AfterBatch().troves;
  }

  lemma GoodThird(s: Ledger)
    requires s == S3()
    ensures GoodTrove(s, s.troves[2]) && Count(s) == 3
  {
    ThreeCounted(s);
    hide Sum;
  }

  lemma Settled4()
    ensures Settle(AfterBatch(), TOTALS) == Some(S4())
  {
  }

  // Every step of the run succeeds and ends in S4.
  lemma OrderRunEnds(s: Ledger, ops: seq<Op>)
    requires |ops| == 4 && s == S0() && ops == ORDER_RUN
    ensures Leads(s, ops[..3], S3()) && Leads(s, ops, S4())
    ensures s == EmptyLedger(3, true)
  {
    hide Inv, Openable, Opened, Liquidate, BatchStep, Settle, S0, S1, S2, S3, S4, Progressed, AfterBatch;
    hide Leads, Goes, Synced, DebtClaimsCovered, GoodTrove, SP.Valid, Books, ComputeCR, OffsetAndRedistribute, Sum;
    hide SystemColl, SystemDebt, Actives;
    StartsEmpty();
    EmptyInv(3, true);
    FirstOpening(s, S1());
    SecondOpening(S1(), S2());
    ThirdOpening(S2(), S3());
    LowRatios();
    ThirdState(S3());
    GoodThird(S3());
    FreshRecoveryStep(S3(), 2, LIQUIDATED, LOW_PRICE);
    Settled4();
    ProgressedIs(Progressed());
    OpenStep(s, 0, TROVE_A, PRICE, S1());
    OpenStep(S1(), 1, TROVE_B, PRICE, S2());
    OpenStep(S2(), 2, TROVE_C, PRICE, S3());
    InvBooks(S3());
    LiquidateOne(S3(), 2, LOW_PRICE, true, Progressed(), S4());
    LiquidationStep(S3(), [2], LOW_PRICE, S4());
    LeadsOn(s, ops, 0, s, S1());
    LeadsOn(s, ops, 1, S1(), S2());
    LeadsOn(s, ops, 2, S2(), S3());
    LeadsOn(s, ops, 3, S3(), S4());
  }

  // Before the liquidation the first trove's nominal ratio is the higher by one unit, after it the second's.
  lemma OrderIsLost()
    ensures S3().troves[..2] == S4().troves[..2] == [TROVE_A, TROVE_B]
    ensures GoodTrove(S3(), TROVE_A) && GoodTrove(S3(), TROVE_B) && GoodTrove(S4(), TROVE_A) && GoodTrove(S4(), TROVE_B)
    ensures NICR(S3(), TROVE_A) == 12_453_796_440_008_910 && NICR(S3(), TROVE_B) == 12_453_796_440_008_909
    ensures NICR(S4(), TROVE_A) == 6_196_544_513_697_541 && NICR(S4(), TROVE_B) == 6_196_544_513_697_542
  {
    RatiosBefore(S3());
    RatiosAfter(S4());
    hide NICR, S3, S4, GoodTrove;
  }

  lemma RatiosBefore(s: Ledger)
    requires s == S3()
    ensures s.troves[..2] == [TROVE_A, TROVE_B] && GoodTrove(s, TROVE_A) && GoodTrove(s, TROVE_B)
    ensures NICR(s, TROVE_A) == 12_453_796_440_008_910 && NICR(s, TROVE_B) == 12_453_796_440_008_909
  {
  }

  lemma RatiosAfter(s: Ledger)
    requires s == S4()
    ensures s.troves[..2] == [TROVE_A, TROVE_B] && GoodTrove(s, TROVE_A) && GoodTrove(s, TROVE_B)
    ensures NICR(s, TROVE_A) == 6_196_544_513_697_541 && NICR(s, TROVE_B) == 6_196_544_513_697_542
  {
  }
}
