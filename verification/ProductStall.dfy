/** A run at ordinary prices that stalls the Stability Pool: two liquidations that leave 3000 wei each bring the running
    product to 1, and after a third deposit a third liquidation reverts. */
module ProductStall {
  import opened Common
  import opened TroveLedger
  import opened Liquidation
  import opened Borrowing
  import opened SystemRuns
  import opened RunSteps
  import Solvency = StabilityPoolSolvency
  import SP = StabilityPool

  const PRICE: nat := 2000 * PRECISION
  const LOW_PRICE: nat := 1_799_999_999_999_998_560_000
  const DEBT: nat := 2000 * PRECISION
  const NET: nat := 1800 * PRECISION
  const BIG: nat := 10_000 * PRECISION
  const SMALL: nat := 1_200_000_000_000_000_000
  const SHARE: nat := SMALL - 6_000_000_000_000_000
  const LEFT: nat := 3000
  const ROUND: nat := DEBT + LEFT

  // One large trove and three small ones, at 120%. The price falls by a tenth, and the owners of the small troves deposit
  // in turn before each liquidation.
  const STALLING_RUN := [
    OpenTrove(0, NET, BIG, 0, PRICE, true),
    OpenTrove(1, NET, SMALL, 0, PRICE, true),
    OpenTrove(2, NET, SMALL, 0, PRICE, true),
    OpenTrove(3, NET, SMALL, 0, PRICE, true),
    DepositToSP(1, ROUND),
    LiquidateTroves([1], LOW_PRICE),
    DepositToSP(2, DEBT),
    LiquidateTroves([2], LOW_PRICE),
    DepositToSP(3, DEBT)]

  // ---- The Stability Pool ----

  function Stage(deposits: seq<SP.Deposit>, total: nat, collateral: nat, P: nat, scale: nat, sums: map<(nat, nat), nat>,
                 collError: nat, lossError: nat): SP.Pool
  {
    SP.Pool(deposits, total, collateral, P, scale, 0, sums, collError, lossError)
  }

  const NONE := SP.NO_DEPOSIT
  const FIRST := SP.Deposit(ROUND, 0, PRECISION, 0, 0)
  const SECOND := SP.Deposit(DEBT, 0, SCALE_FACTOR, 1, 0)
  const THIRD := SP.Deposit(DEBT, 0, 1, 2, 0)
  const SCALE_FACTOR: nat := SP.SCALE_FACTOR
  const GAIN_1: nat := 596_999_999_999_999
  const GAIN_2: nat := 597_000_000_000_000
  const SUMS_1 := map[(0, 0) := GAIN_1 * PRECISION]
  const SUMS_2 := map[(0, 0) := GAIN_1 * PRECISION, (0, 1) := GAIN_2 * SCALE_FACTOR]
  const COLL_ERROR_1: nat := 1_998_209_000_000_000_003_000
  const COLL_ERROR_2: nat := 1_996_418_000_000_000_003_000
  const LOSS_ERROR_1: nat := 999_999_999_999_999_997_000
  const LOSS_ERROR_2: nat := 1_999_999_999_999_999_994_000

  function P1(): SP.Pool { Stage([NONE, FIRST, NONE, NONE], ROUND, 0, PRECISION, 0, map[], 0, 0) }
  function P2(): SP.Pool { Stage([NONE, FIRST, NONE, NONE], LEFT, SHARE, SCALE_FACTOR, 1, SUMS_1, COLL_ERROR_1, LOSS_ERROR_1) }
  function P3(): SP.Pool {
    Stage([NONE, FIRST, SECOND, NONE], ROUND, SHARE, SCALE_FACTOR, 1, SUMS_1, COLL_ERROR_1, LOSS_ERROR_1)
  }
  function P4(): SP.Pool { Stage([NONE, FIRST, SECOND, NONE], LEFT, 2 * SHARE, 1, 2, SUMS_2, COLL_ERROR_2, LOSS_ERROR_2) }
  function P5(): SP.Pool { Stage([NONE, FIRST, SECOND, THIRD], ROUND, 2 * SHARE, 1, 2, SUMS_2, COLL_ERROR_2, LOSS_ERROR_2) }

  // A loss of all but a 1e-18 part multiplies the product by 1e-9 in a new scale.
  lemma CollapsedProduct(p: SP.Pool, gain: nat)
    requires p.P == PRECISION || p.P == SCALE_FACTOR
    ensures SP.UpdateSumAndProduct(p, gain, PRECISION - 1) ==
            Some(p.(P := p.P / SCALE_FACTOR, scale := p.scale + 1,
                    sums := p.sums[(p.epoch, p.scale) := SP.SumAt(p.sums, p.epoch, p.scale) + gain * p.P]))
  {
  }

  lemma FirstOffset(p: SP.Pool)
    requires p == P1()
    ensures SP.Offset(p, DEBT, SHARE) == Some(P2())
  {
    Solvency.RewardsComputed(p, DEBT, SHARE, GAIN_1, PRECISION - 1);
    CollapsedProduct(p.(collError := COLL_ERROR_1, lossError := LOSS_ERROR_1), GAIN_1);
    hide SP.ComputeRewards, SP.UpdateSumAndProduct;
  }

  lemma SecondOffset(p: SP.Pool)
    requires p == P3()
    ensures SP.Offset(p, DEBT, SHARE) == Some(P4())
  {
    Solvency.RewardsComputed(p, DEBT, SHARE, GAIN_2, PRECISION - 1);
    CollapsedProduct(p.(collError := COLL_ERROR_2, lossError := LOSS_ERROR_2), GAIN_2);
    hide SP.ComputeRewards, SP.UpdateSumAndProduct;
  }

  lemma ThirdOffset(p: SP.Pool)
    requires p == P5()
    ensures SP.Offset(p, DEBT, SHARE) == None
  {
    Solvency.RewardsComputed(p, DEBT, SHARE, GAIN_2, PRECISION - 2);
    hide SP.ComputeRewards;
  }

  lemma FreshDeposit(p: SP.Pool, i: nat, amount: nat)
    requires SP.Valid(p) && i < |p.deposits| && p.deposits[i] == SP.NO_DEPOSIT && amount > 0
    ensures SP.TryStep(p, SP.ProvideToSP(i, amount)) ==
            Some(p.(deposits := p.deposits[i := SP.Record(p, amount)], total := p.total + amount))
  {
  }

  // ---- The ledger ----

  const NO_TROVE := Trove(NonExistent, 0, 0, 0, 0, 0)
  const TAKEN := Trove(ClosedByLiquidation, 0, 0, 0, 0, 0)
  const LARGE_TROVE := Trove(Active, DEBT, BIG, BIG, 0, 0)
  const SMALL_TROVE := Trove(Active, DEBT, SMALL, SMALL, 0, 0)

  function Empty(): Ledger {
    Ledger([NO_TROVE, NO_TROVE, NO_TROVE, NO_TROVE], 0, 0, 0, 0, 0, 0, 0, 0, 0, 0, 0, SP.EmptyPool(4), [0, 0, 0, 0],
           0, 0, 0, 0, 0, 0, 0, true, true, 0, 0)
  }

  lemma StartsEmpty()
    ensures Empty() == EmptyLedger(4, true)
  {
    assert Empty().troves == EmptyLedger(4, true).troves;
    assert Empty().surplus == EmptyLedger(4, true).surplus;
  }

  // The first n of the four troves are open, the first of them large.
  function Opened4(n: nat, troves: seq<Trove>, coll: nat): Ledger {
    Empty().(troves := troves, totalStakes := coll, activeColl := coll, activeDebt := n * DEBT, held := n * NET,
             gasPool := n * G, supply := n * DEBT)
  }

  function S1(): Ledger { Opened4(1, [LARGE_TROVE, NO_TROVE, NO_TROVE, NO_TROVE], BIG) }
  function S2(): Ledger { Opened4(2, [LARGE_TROVE, SMALL_TROVE, NO_TROVE, NO_TROVE], BIG + SMALL) }
  function S3(): Ledger { Opened4(3, [LARGE_TROVE, SMALL_TROVE, SMALL_TROVE, NO_TROVE], BIG + 2 * SMALL) }
  function S4(): Ledger { Opened4(4, [LARGE_TROVE, SMALL_TROVE, SMALL_TROVE, SMALL_TROVE], BIG + 3 * SMALL) }

  lemma FirstOpenings(a: Ledger, b: Ledger, c: Ledger)
    requires a == Empty() && b == S1() && c == S2()
    ensures Openable(a, 0, LARGE_TROVE, PRICE) && b == Opened(a, 0, LARGE_TROVE)
    ensures Openable(b, 1, SMALL_TROVE, PRICE) && c == Opened(b, 1, SMALL_TROVE)
  {
    assert a.troves[0 := LARGE_TROVE] == b.troves && b.troves[1 := SMALL_TROVE] == c.troves;
  }

  lemma LastOpenings(c: Ledger, d: Ledger, e: Ledger)
    requires c == S2() && d == S3() && e == S4()
    ensures Openable(c, 2, SMALL_TROVE, PRICE) && d == Opened(c, 2, SMALL_TROVE)
    ensures Openable(d, 3, SMALL_TROVE, PRICE) && e == Opened(d, 3, SMALL_TROVE)
  {
    assert c.troves[2 := SMALL_TROVE] == d.troves && d.troves[3 := SMALL_TROVE] == e.troves;
  }

  function S5(): Ledger { S4().(pool := P1(), held := 4 * NET - ROUND) }
  function S6(): Ledger {
    S5().(troves := [LARGE_TROVE, TAKEN, SMALL_TROVE, SMALL_TROVE], totalStakes := BIG + 2 * SMALL, applications := 1, pool := P2(),
          activeColl := BIG + 2 * SMALL, activeDebt := 3 * DEBT, supply := 3 * DEBT, stakesSnapshot := BIG + 2 * SMALL,
          collSnapshot := BIG + 2 * SMALL, gasPool := 3 * G, held := 4 * NET - ROUND + G)
  }
  function S7(): Ledger { S6().(pool := P3(), held := 4 * NET - ROUND + G - DEBT) }
  function S8(): Ledger {
    S7().(troves := [LARGE_TROVE, TAKEN, TAKEN, SMALL_TROVE], totalStakes := BIG + SMALL, applications := 2, pool := P4(),
          activeColl := BIG + SMALL, activeDebt := 2 * DEBT, supply := 2 * DEBT, stakesSnapshot := BIG + SMALL,
          collSnapshot := BIG + SMALL, gasPool := 2 * G, held := 4 * NET - ROUND + 2 * G - DEBT)
  }
  function S9(): Ledger { S8().(pool := P5(), held := 4 * NET - ROUND + 2 * G - 2 * DEBT) }

  // ---- One liquidation against the Stability Pool alone ----

  function Liquidated(s: Ledger, i: nat, q: SP.Pool): Ledger
    requires i < |s.troves| && s.troves[i].stake <= s.totalStakes && s.troves[i].debt <= s.activeDebt
    requires s.troves[i].debt <= s.supply && s.troves[i].coll <= s.activeColl && G <= s.gasPool
  {
    var t := s.troves[i];
    s.(troves := s.troves[i := TAKEN], totalStakes := s.totalStakes - t.stake, applications := s.applications + 1, pool := q,
       activeColl := s.activeColl - t.coll, activeDebt := s.activeDebt - t.debt, supply := s.supply - t.debt,
       stakesSnapshot := s.totalStakes - t.stake, collSnapshot := s.activeColl - t.coll + s.defaultColl,
       gasPool := s.gasPool - G, held := s.held + G)
  }

  // A fresh trove below MCR that the pool can take in full, in Normal Mode.
  ghost predicate Takeable(s: Ledger, i: nat, price: nat) {
    && i < |s.troves| == |s.surplus| && s.troves[i].status.Active? && GoodTrove(s, s.troves[i]) && price > 0
    && s.troves[i].collSnapshot == s.LColl && s.troves[i].debtSnapshot == s.LDebt && Count(s) > 1
    && s.troves[i].stake <= s.totalStakes && s.troves[i].debt <= s.activeDebt && s.troves[i].debt <= s.supply
    && s.troves[i].coll <= s.activeColl && G <= s.gasPool && 0 < s.troves[i].debt <= s.pool.total
    && !RecoveryMode(s, price) && ComputeCR(s.troves[i].coll, s.troves[i].debt, price) < MCR
  }

  lemma WholeOffset(s: Ledger, i: nat, price: nat, coll: nat)
    requires Books(s, NOTHING) && Takeable(s, i, price) && coll == s.troves[i].coll - s.troves[i].coll / PERCENT_DIVISOR
    ensures
      var q := SP.Offset(s.pool, s.troves[i].debt, coll);
      Liquidate(s, [i], price) == if q.None? then None else Some(Liquidated(s, i, q.value))
  {
    hide Books, RecoveryMode, ComputeCR, SP.Offset, Sum, Liquidate;
    OneInBatch(s, i, price, false);
    WholeStep(s, i, price, coll);
    WholeSettled(s, i, price, coll);
    LiquidateIs(s, i, price);
  }

  lemma LiquidateIs(s: Ledger, i: nat, price: nat)
    requires Books(s, NOTHING) && price > 0 && !RecoveryMode(s, price)
    ensures
      var b := Batch(s, [i], price, false);
      Liquidate(s, [i], price) == if b.None? then None else Settle(b.value.s, b.value.totals)
  {
    hide Books, Batch, Settle, RecoveryMode;
  }

  function Taken(s: Ledger, i: nat): Ledger
    requires i < |s.troves| && s.troves[i].stake <= s.totalStakes
  {
    s.(troves := s.troves[i := TAKEN], totalStakes := s.totalStakes - s.troves[i].stake, applications := s.applications + 1)
  }

  function WholeTotals(t: Trove, coll: nat): Totals
    requires coll <= t.coll
  {
    Totals(t.coll, t.debt, t.coll - coll, G, t.debt, coll, 0, 0, 0)
  }

  lemma WholeStep(s: Ledger, i: nat, price: nat, coll: nat)
    requires Takeable(s, i, price) && coll == s.troves[i].coll - s.troves[i].coll / PERCENT_DIVISOR
    ensures
      BatchStep(Start(s), i, price, false)
      == Some(Start(s).(s := Taken(s, i), totals := WholeTotals(s.troves[i], coll), spLeft := s.pool.total - s.troves[i].debt))
  {
    hide RecoveryMode, ComputeCR, Sum, Take, PendingColl, PendingDebt, OffsetAndRedistribute;
    var t := s.troves[i];
    var v := OffsetAndRedistribute(WithGasShare(t.debt, t.coll), s.pool.total);
    WholeValues(t.debt, t.coll, s.pool.total, coll);
    TakeFresh(s, i, v.value);
  }

  lemma WholeValues(debt: nat, coll: nat, sp: nat, share: nat)
    requires 0 < debt <= sp && share == coll - coll / PERCENT_DIVISOR
    ensures OffsetAndRedistribute(WithGasShare(debt, coll), sp) ==
            Some(Values(debt, coll, coll - share, G, debt, share, 0, 0, 0))
  {
    FullShare(share, debt);
  }

  lemma WholeSettled(s: Ledger, i: nat, price: nat, coll: nat)
    requires Takeable(s, i, price) && coll == s.troves[i].coll - s.troves[i].coll / PERCENT_DIVISOR
    ensures
      var q := SP.Offset(s.pool, s.troves[i].debt, coll);
      Settle(Taken(s, i), WholeTotals(s.troves[i], coll)) == if q.None? then None else Some(Liquidated(s, i, q.value))
  {
    hide RecoveryMode, ComputeCR, Sum, SP.Offset, GoodTrove;
  }

  // ---- The run ----

  lemma FourActive(s: Ledger)
    requires |s.troves| == 4
    ensures Count(s) == Alive(s.troves[0]) + Alive(s.troves[1]) + Alive(s.troves[2]) + Alive(s.troves[3])
  {
    hide Sum;
    var xs := Actives(s.troves);
    SumOfThree(xs[..3]);
    assert Sum(xs) == Sum(xs[..3]) + xs[3] by {
      LastTerm(xs);
    }
  }

  lemma LastTerm(xs: seq<int>)
    requires xs != []
    ensures Sum(xs) == Sum(xs[..|xs| - 1]) + xs[|xs| - 1]
  {
  }

  lemma LowRatios()
    ensures ComputeCR(SMALL, DEBT, LOW_PRICE) < MCR
    ensures ComputeCR(BIG + 3 * SMALL, 4 * DEBT, LOW_PRICE) >= CCR && ComputeCR(BIG + 2 * SMALL, 3 * DEBT, LOW_PRICE) >= CCR
    ensures ComputeCR(BIG + SMALL, 2 * DEBT, LOW_PRICE) >= CCR
    ensures SHARE == SMALL - SMALL / PERCENT_DIVISOR
  {
  }

  lemma AllTakeable(a: Ledger, b: Ledger, c: Ledger)
    requires a == S5() && b == S7() && c == S9()
    ensures Takeable(a, 1, LOW_PRICE) && Takeable(b, 2, LOW_PRICE) && Takeable(c, 3, LOW_PRICE)
  {
    hide ComputeCR, Sum;
    FourActive(a);
    FourActive(b);
    FourActive(c);
    LowRatios();
  }

  lemma AfterEach(a: Ledger, b: Ledger)
    requires a == S5() && b == S7() && Takeable(a, 1, LOW_PRICE) && Takeable(b, 2, LOW_PRICE)
    ensures Liquidated(a, 1, P2()) == S6() && Liquidated(b, 2, P4()) == S8()
    ensures a.pool == P1() && b.pool == P3() && S9().pool == P5()
    ensures a.troves[1] == b.troves[2] == S9().troves[3] == SMALL_TROVE
  {
    hide Takeable;
    assert a.troves[1 := TAKEN] == S6().troves && b.troves[2 := TAKEN] == S8().troves;
  }

  lemma Provisions(a: Ledger, b: Ledger, c: Ledger)
    requires a == S4() && b == S6() && c == S8()
    ensures SP.Valid(a.pool) ==> ProvideToSP(a, 1, ROUND) == Some(S5())
    ensures SP.Valid(b.pool) ==> ProvideToSP(b, 2, DEBT) == Some(S7())
    ensures SP.Valid(c.pool) ==> ProvideToSP(c, 3, DEBT) == Some(S9())
  {
    hide SP.TryStep, SP.Valid;
    if SP.Valid(a.pool) {
      FreshDeposit(a.pool, 1, ROUND);
      assert a.pool.deposits[1 := FIRST] == P1().deposits;
    }
    if SP.Valid(b.pool) {
      FreshDeposit(b.pool, 2, DEBT);
      assert b.pool.deposits[2 := SECOND] == P3().deposits;
    }
    if SP.Valid(c.pool) {
      FreshDeposit(c.pool, 3, DEBT);
      assert c.pool.deposits[3 := THIRD] == P5().deposits;
    }
  }

  // The three deposits and the two liquidations.
  lemma Rounds()
    requires Inv(S4())
    ensures Goes(S4(), DepositToSP(1, ROUND), S5()) && Goes(S5(), LiquidateTroves([1], LOW_PRICE), S6())
    ensures Goes(S6(), DepositToSP(2, DEBT), S7()) && Goes(S7(), LiquidateTroves([2], LOW_PRICE), S8())
    ensures Goes(S8(), DepositToSP(3, DEBT), S9()) && Inv(S9())
  {
    hide Inv, Liquidate, ProvideToSP, Takeable, Liquidated, S4, S5, S6, S7, S8, S9, P1, P2, P3, P4, P5, Goes, SP.Valid, SP.Offset;
    hide Books, GoodTrove;
    Provisions(S4(), S6(), S8());
    AllTakeable(S5(), S7(), S9());
    AfterEach(S5(), S7());
    LowRatios();
    FirstOffset(P1());
    SecondOffset(P3());
    DepositStep(S4(), 1, ROUND, S5());
    InvBooks(S5());
    WholeOffset(S5(), 1, LOW_PRICE, SHARE);
    LiquidationStep(S5(), [1], LOW_PRICE, S6());
    DepositStep(S6(), 2, DEBT, S7());
    InvBooks(S7());
    WholeOffset(S7(), 2, LOW_PRICE, SHARE);
    LiquidationStep(S7(), [2], LOW_PRICE, S8());
    DepositStep(S8(), 3, DEBT, S9());
  }

  // Every step of the run succeeds.
  lemma StallingRunEnds(s: Ledger, ops: seq<Op>)
    requires |ops| == 9 && s == Empty() && ops == STALLING_RUN
    ensures Leads(s, ops, S9())
    ensures s == EmptyLedger(4, true)
  {
    hide Leads, Goes, Inv, Openable, Opened, Empty, S1, S2, S3, S4, S5, S6, S7, S8, S9;
    StartsEmpty();
    EmptyInv(4, true);
    FirstOpenings(s, S1(), S2());
    LastOpenings(S2(), S3(), S4());
    OpenStep(s, 0, LARGE_TROVE, PRICE, S1());
    OpenStep(S1(), 1, SMALL_TROVE, PRICE, S2());
    OpenStep(S2(), 2, SMALL_TROVE, PRICE, S3());
    OpenStep(S3(), 3, SMALL_TROVE, PRICE, S4());
    Rounds();
    LeadsOn(s, ops, 0, s, S1());
    LeadsOn(s, ops, 1, S1(), S2());
    LeadsOn(s, ops, 2, S2(), S3());
    LeadsOn(s, ops, 3, S3(), S4());
    LeadsOn(s, ops, 4, S4(), S5());
    LeadsOn(s, ops, 5, S5(), S6());
    LeadsOn(s, ops, 6, S6(), S7());
    LeadsOn(s, ops, 7, S7(), S8());
    LeadsOn(s, ops, 8, S8(), S9());
  }

  ghost predicate Reverts(s: Ledger, ids: seq<nat>, price: nat)
    requires price > 0
  {
    Books(s, NOTHING) ==> Liquidate(s, ids, price) == None
  }

  // The pool holds more than the debt of the last small trove, which is below MCR; its liquidation reverts.
  lemma ProductCanStall(s: Ledger)
    requires s == S9()
    ensures s.pool.P == 1 && s.pool.total == DEBT + LEFT
    ensures Reverts(s, [3], LOW_PRICE)
    ensures Takeable(s, 3, LOW_PRICE) && s.troves[3].debt == DEBT < s.pool.total
    ensures SP.Offset(s.pool, DEBT, SHARE) == None
  {
    hide Takeable, SP.Offset, Liquidate, Books;
    AllTakeable(S5(), S7(), s);
    AfterEach(S5(), S7());
    LowRatios();
    ThirdOffset(s.pool);
    if Books(s, NOTHING) {
      WholeOffset(s, 3, LOW_PRICE, SHARE);
    }
  }
}
