/** A run at ordinary prices in which the default pool ends up short of a pending debt: a liquidation that leaves
    very little to redistribute moves the debt accumulator and not the collateral one, and a top-up then restakes
    a trove whose pending debt has been skipped. */
module PendingDebtGap {
  import opened Common
  import opened TroveLedger
  import opened Liquidation
  import opened Borrowing
  import opened Redemption
  import opened SystemRuns
  import opened DebtCover
  import opened RunSteps
  import SP = StabilityPool

  const DEBT: nat := 2000 * PRECISION
  const BIG: nat := 10_000 * PRECISION
  const SMALL: nat := 1_200_000_000_000_000_000
  const PRICE: nat := 2000 * PRECISION
  const LOW_PRICE: nat := 1_799_999_999_999_998_560_000
  const LEFT: nat := 10_000_000
  const DEPOSIT: nat := DEBT - LEFT
  const TOP_UP := Change(BIG, 0, 0, false)

  // Two borrowers with 2000 thUSD of debt each; the first deposits all but 1e7 wei of as much. The price falls
  // by a tenth, the second trove is liquidated, and the first adds collateral.
  const GAP_RUN := [
    OpenTrove(0, 1800 * PRECISION, BIG, 0, PRICE, true),
    OpenTrove(1, 1800 * PRECISION, SMALL, 0, PRICE, true),
    DepositToSP(0, DEPOSIT),
    LiquidateTroves([1], LOW_PRICE),
    AdjustTrove(0, TOP_UP, 0, LOW_PRICE)]

  const NO_TROVE := Trove(NonExistent, 0, 0, 0, 0, 0)
  const BIG_TROVE := Trove(Active, DEBT, BIG, BIG, 0, 0)
  const SMALL_TROVE := Trove(Active, DEBT, SMALL, SMALL, 0, 0)

  function S0(): Ledger {
    Ledger([NO_TROVE, NO_TROVE], 0, 0, 0, 0, 0, 0, 0, 0, 0, 0, 0, SP.EmptyPool(2), [0, 0], 0, 0, 0, 0, 0, 0, 0, true, true, 0, 0)
  }

  lemma StartsEmpty()
    ensures S0() == EmptyLedger(2, true)
  {
    assert S0().troves == EmptyLedger(2, true).troves;
    assert S0().surplus == EmptyLedger(2, true).surplus;
  }

  function S1(): Ledger {
    S0().(troves := [BIG_TROVE, NO_TROVE], totalStakes := BIG,
          activeColl := BIG, activeDebt := DEBT, held := 1800 * PRECISION, gasPool := 200 * PRECISION, supply := DEBT)
  }

  function S2(): Ledger {
    S1().(troves := [BIG_TROVE, SMALL_TROVE],
          totalStakes := BIG + SMALL, activeColl := BIG + SMALL, activeDebt := 2 * DEBT,
          held := 3600 * PRECISION, gasPool := 400 * PRECISION, supply := 2 * DEBT)
  }

  function Pool3(): SP.Pool {
    SP.Pool([SP.Deposit(DEPOSIT, 0, PRECISION, 0, 0), SP.NO_DEPOSIT], DEPOSIT, 0, PRECISION, 0, 0, map[], 0, 0)
  }

  function S3(): Ledger { S2().(pool := Pool3(), held := 3600 * PRECISION - DEPOSIT) }

  // Of the 1.2e18 wei of collateral, 6e15 are the gas share, all but 5970 of the rest go to the Stability Pool.
  const GAS: nat := 6_000_000_000_000_000
  const REST: nat := 5970
  const SHARE: nat := SMALL - GAS - REST

  function Pool4(): SP.Pool {
    SP.Pool([SP.Deposit(DEPOSIT, 0, PRECISION, 0, 0), SP.NO_DEPOSIT], 0, SHARE, PRECISION, 0, 1,
            map[(0, 0) := 597_000_000_000_000 * PRECISION], 0, 0)
  }

  function S4(): Ledger {
    S3().(troves := [BIG_TROVE, Trove(ClosedByLiquidation, 0, 0, 0, 0, 0)], totalStakes := BIG,
          pool := Pool4(), activeColl := BIG, activeDebt := DEBT, defaultColl := REST, defaultDebt := LEFT, LDebt := 1000,
          collError := REST * PRECISION, stakesSnapshot := BIG, collSnapshot := BIG + REST,
          held := 3800 * PRECISION - DEPOSIT, gasPool := 200 * PRECISION, supply := 2 * DEBT - DEPOSIT,
          applications := 1, lastStakes := BIG)
  }

  const NEW_STAKE: nat := 2 * BIG * BIG / (BIG + REST)

  function S5(): Ledger {
    S4().(troves := [Trove(Active, DEBT, 2 * BIG, NEW_STAKE, 0, 0), Trove(ClosedByLiquidation, 0, 0, 0, 0, 0)],
          totalStakes := NEW_STAKE, activeColl := 2 * BIG)
  }

  // ---- The opening of the two troves ----

  lemma Openings(a: Ledger, b: Ledger)
    requires a == S0() && b == S1()
    ensures Openable(a, 0, BIG_TROVE, PRICE) && b == Opened(a, 0, BIG_TROVE)
    ensures Openable(b, 1, SMALL_TROVE, PRICE) && S2() == Opened(b, 1, SMALL_TROVE)
  {
    assert a.troves[0 := BIG_TROVE] == b.troves && b.troves[1 := SMALL_TROVE] == S2().troves;
  }

  lemma Third()
    ensures SP.Valid(SP.EmptyPool(2)) && ProvideToSP(S2(), 0, DEPOSIT) == Some(S3())
  {
    var p := SP.EmptyPool(2);
    assert p.deposits == [SP.NO_DEPOSIT, SP.NO_DEPOSIT];
    assert p.deposits[0 := SP.Deposit(DEPOSIT, 0, PRECISION, 0, 0)] == Pool3().deposits;
    assert SP.Record(p, DEPOSIT) == SP.Deposit(DEPOSIT, 0, PRECISION, 0, 0);
  }

  // ---- The liquidation ----

  lemma TwoActive(s: Ledger)
    requires |s.troves| == 2
    ensures Count(s) == Alive(s.troves[0]) + Alive(s.troves[1])
    ensures Sum(DebtClaims(s)) == DebtClaim(s, s.troves[0]) + DebtClaim(s, s.troves[1])
  {
    SumOfTwo(Actives(s.troves));
    SumOfTwo(DebtClaims(s));
  }

  const LIQUIDATED := Values(DEBT, SMALL, GAS, GAS_COMPENSATION, DEPOSIT, SHARE, LEFT, REST, 0)
  const TOTALS := Totals(SMALL, DEBT, GAS, GAS_COMPENSATION, DEPOSIT, SHARE, LEFT, REST, 0)

  function AfterBatch(): Ledger {
    S3().(troves := S4().troves, totalStakes := BIG, applications := 1)
  }

  function FourthTotals(): Progress {
    Progress(AfterBatch(), TOTALS, 0, SystemColl(S3()), SystemDebt(S3()), false)
  }

  lemma FourthTaken()
    ensures GoodTrove(S3(), S3().troves[1]) && |S3().surplus| == 2
    ensures EntireColl(S3(), S3().troves[1]) == SMALL && EntireDebt(S3(), S3().troves[1]) == DEBT
    ensures Take(S3(), 1, LIQUIDATED) == Some(AfterBatch())
  {
    TwoActive(S3().(applications := 1));
    assert S3().troves[1 := S4().troves[1]] == S4().troves;
    assert S3().surplus[1 := S3().surplus[1] + 0] == S3().surplus;
  }

  lemma FourthValues()
    ensures NormalValues(DEBT, SMALL, DEPOSIT) == Some(LIQUIDATED)
    ensures ComputeCR(SMALL, DEBT, LOW_PRICE) < MCR
  {
  }

  lemma FourthStep()
    ensures GoodTrove(S3(), S3().troves[1])
    ensures BatchStep(Start(S3()), 1, LOW_PRICE, false) == Some(FourthTotals())
  {
    FourthTaken();
    FourthValues();
    hide PendingColl, PendingDebt, Take, NormalValues, ComputeCR;
  }

  lemma FourthOffset()
    ensures SP.Offset(Pool3(), DEPOSIT, SHARE) == Some(Pool4())
  {
    assert map[][(0, 0) := 597_000_000_000_000 * PRECISION] == Pool4().sums;
  }

  lemma FourthSettled()
    ensures Settle(AfterBatch(), TOTALS) == Some(S4())
  {
    FourthOffset();
    hide SP.Offset;
  }

  lemma TwoTroves()
    ensures FourthTotals().s == AfterBatch() && FourthTotals().totals == TOTALS
    ensures |S1().troves| == 2 && |S2().troves| == 2 && |S3().troves| == 2 && |S4().troves| == 2
  {
  }

  lemma NormalMode(s: Ledger)
    requires s == S3()
    ensures !RecoveryMode(s, LOW_PRICE)
  {
    hide ComputeCR;
    assert SystemColl(s) == BIG + SMALL && SystemDebt(s) == 2 * DEBT;
    RatioAboveCCR(SystemColl(s), SystemDebt(s), LOW_PRICE);
  }

  lemma RatioAboveCCR(coll: nat, debt: nat, price: nat)
    requires coll * price >= CCR * debt
    ensures ComputeCR(coll, debt, price) >= CCR
  {
    if debt > 0 {
      QuotientAtLeast(coll * price, debt, CCR);
    }
  }

  // ---- The top-up ----

  lemma Fifth()
    ensures GoodTrove(S4(), S4().troves[0])
    ensures Adjust(S4(), 0, TOP_UP, 0, LOW_PRICE) == Some(S5())
  {
    NewStakeAlmostDouble();
    assert S4().troves[0 := S5().troves[0]] == S5().troves;
  }

  lemma NewStakeAlmostDouble()
    ensures NEW_STAKE == 19_999_999_999_999_999_988_060
    ensures NewStake(S4(), 2 * BIG) == Some(NEW_STAKE)
  {
  }

  // ---- The run ----

  // Every step of the run succeeds and ends in S5.
  lemma GapIsReached(s: Ledger, ops: seq<Op>)
    requires |ops| == 5 && s == S0() && ops == GAP_RUN
    ensures Leads(s, ops[..4], S4()) && Leads(s, ops, S5())
    ensures s == EmptyLedger(2, true)
  {
    hide Inv, Openable, Opened, ProvideToSP, Liquidate, Adjust, BatchStep, Settle, RecoveryMode, S0, S1, S2, S3, S4, S5;
    hide FourthTotals, Leads, Goes, Synced, DebtClaimsCovered, GoodTrove, SP.Valid, Books;
    StartsEmpty();
    EmptyInv(2, true);
    Openings(s, S1());
    Third();
    FourthStep();
    FourthSettled();
    TwoTroves();
    NormalMode(S3());
    Fifth();
    OpenStep(s, 0, BIG_TROVE, PRICE, S1());
    OpenStep(S1(), 1, SMALL_TROVE, PRICE, S2());
    DepositStep(S2(), 0, DEPOSIT, S3());
    InvBooks(S3());
    LiquidateOne(S3(), 1, LOW_PRICE, false, FourthTotals(), S4());
    LiquidationStep(S3(), [1], LOW_PRICE, S4());
    AdjustStep(S4(), 0, TOP_UP, LOW_PRICE, S5());
    LeadsOn(s, ops, 0, s, S1());
    LeadsOn(s, ops, 1, S1(), S2());
    LeadsOn(s, ops, 2, S2(), S3());
    LeadsOn(s, ops, 3, S3(), S4());
    LeadsOn(s, ops, 4, S4(), S5());
  }

  // The top-up would add almost 1e25 claims to a slack of nothing. After it 19,999,999 wei of debt are pending on the
  // first trove and 10,000,000 are in the default pool, so the trove can no longer be taken out.
  lemma PendingDebtExceedsPool()
    ensures DebtSlack(S4()) == 0 && AdjustRise(S4(), 0, TOP_UP) > 0
    ensures !DebtPayable(S5()) && !Synced(S4())
    ensures GoodTrove(S5(), S5().troves[0]) && S5().troves[0].status.Active?
    ensures PendingDebt(S5(), S5().troves[0]) == 19_999_999 && S5().defaultDebt == 10_000_000
    ensures TakeOut(S5(), 0).None?
  {
    NewStakeAlmostDouble();
    TwoActive(S4());
    TwoActive(S5());
    assert !SyncedTrove(S4(), S4().troves[0]);
  }
}
