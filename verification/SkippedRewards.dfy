/** What a skipped debt reward does beyond the default pool: a run, at ordinary prices, after which the sorted list is out
    of order, and hints that are not honoured. Both start from the liquidation of PendingDebtGap. */
module SkippedRewards {
  import opened Common
  import opened TroveLedger
  import opened Liquidation
  import opened Borrowing
  import opened Redemption
  import opened SystemRuns
  import opened SortedTroves
  import opened IntegerOrder
  import opened SortedLedger
  import opened RunSteps
  import opened PendingDebtGap
  import SP = StabilityPool

  // A second borrower opens with almost the collateral the first will have, and then the first tops up.
  const COLL: nat := 2 * BIG - 20_000_000
  const NEW_TROVE_STAKE: nat := COLL * BIG / (BIG + REST)
  const NEW_TROVE := Trove(Active, DEBT, COLL, NEW_TROVE_STAKE, 0, 1000)

  const ORDER_RUN := GAP_RUN[..4] + [
    OpenTrove(1, 1800 * PRECISION, COLL, 0, LOW_PRICE, true),
    AdjustTrove(0, TOP_UP, 0, LOW_PRICE)]

  function T5(): Ledger {
    S4().(troves := [BIG_TROVE, NEW_TROVE],
          totalStakes := BIG + NEW_TROVE_STAKE, activeColl := BIG + COLL, activeDebt := 2 * DEBT,
          held := 5600 * PRECISION - DEPOSIT, gasPool := 400 * PRECISION, supply := 3 * DEBT - DEPOSIT)
  }

  function T6(): Ledger {
    T5().(troves := [Trove(Active, DEBT, 2 * BIG, NEW_STAKE, 0, 0), NEW_TROVE],
          totalStakes := NEW_STAKE + NEW_TROVE_STAKE, activeColl := 2 * BIG + COLL)
  }

  lemma Opening(s: Ledger)
    requires s == S4()
    ensures Openable(s, 1, NEW_TROVE, LOW_PRICE) && T5() == Opened(s, 1, NEW_TROVE)
  {
    assert s.troves[1 := NEW_TROVE] == T5().troves;
    assert NewStake(s, COLL) == Some(NEW_TROVE_STAKE);
  }

  lemma TopUp(s: Ledger)
    requires s == T5()
    ensures GoodTrove(s, s.troves[0]) && Adjust(s, 0, TOP_UP, 0, LOW_PRICE) == Some(T6())
  {
    TopUpRatios();
    NewStakeAlmostDouble();
    hide ComputeCR, ComputeNominalCR;
    assert s.troves[0 := T6().troves[0]] == T6().troves;
  }

  lemma TopUpRatios()
    ensures ComputeCR(2 * BIG, DEBT, LOW_PRICE) >= MCR && ComputeNominalCR(2 * BIG, DEBT) > 0
    ensures ComputeCR(BIG + COLL + REST, 2 * DEBT + LEFT, LOW_PRICE) >= CCR
    ensures ComputeCR(2 * BIG + COLL + REST, 2 * DEBT + LEFT, LOW_PRICE) >= CCR
  {
    RatioAboveCCR(2 * BIG, DEBT, LOW_PRICE);
    RatioAboveCCR(BIG + COLL + REST, 2 * DEBT + LEFT, LOW_PRICE);
    RatioAboveCCR(2 * BIG + COLL + REST, 2 * DEBT + LEFT, LOW_PRICE);
  }

  // Every step of the run succeeds.
  lemma OrderRunEnds(s: Ledger, gap: seq<Op>, ops: seq<Op>)
    requires s == S0() && gap == GAP_RUN && |gap| == 5 && ops == ORDER_RUN && |ops| == 6
    ensures s == EmptyLedger(2, true)
    ensures Leads(s, ops[..5], T5()) && Leads(s, ops, T6())
  {
    hide Inv, Openable, Opened, Adjust, S0, S4, S5, T5, T6, Leads, Goes, Synced, DebtClaimsCovered, GoodTrove;
    GapIsReached(s, gap);
    LeadsIsRun(s, gap[..4], S4());
    Sizes(S4());
    Opening(S4());
    TopUp(T5());
    OpenStep(S4(), 1, NEW_TROVE, LOW_PRICE, T5());
    AdjustStep(T5(), 0, TOP_UP, LOW_PRICE, T6());
    assert ops[..4] == gap[..4];
    LeadsOn(s, ops, 4, S4(), T5());
    LeadsOn(s, ops, 5, T5(), T6());
  }

  lemma Sizes(s: Ledger)
    requires s == S4()
    ensures |s.troves| == 2 && |T5().troves| == 2
  {
  }

  // Before the top-up the second trove is rightly above the first. The ratio the list is told for the first, 1e21, has one
  // slot only, above the second; but with its 19,999,999 wei of pending debt the first is below the second.
  lemma TopUpLosesOrder(s: Ledger, r: Ledger)
    requires s == T5() && r == T6()
    ensures InOrder(s, [1, 0])
    ensures RemoveAt([1, 0], 1) == [1] && InsertAt([1], 0, 0) == [0, 1]
    ensures forall k | 0 <= k <= 1 :: Slot([1], NICRs(r), ComputeNominalCR(2 * BIG, DEBT), k) <==> k == 0
    ensures NICROf(r, 0) < NICROf(r, 1) < ComputeNominalCR(2 * BIG, DEBT)
    ensures !InOrder(r, [0, 1])
  {
    RatiosBefore(s);
    RatiosAfter(r);
    BothActive(s, r);
    hide NICROf;
    assert !Sorted([0, 1], NICRs(r)) by {
      assert NICRs(r)([0, 1][0]) < NICRs(r)([0, 1][1]);
    }
  }

  lemma BothActive(s: Ledger, r: Ledger)
    requires s == T5() && r == T6()
    ensures |s.troves| == 2 && s.troves[0].status.Active? && s.troves[1].status.Active?
  {
  }

  lemma RatiosBefore(s: Ledger)
    requires s == T5()
    ensures NICROf(s, 0) == 499_999_999_999_997_500_000 && NICROf(s, 1) == 999_999_999_999_999_000_000
  {
    assert GoodTrove(s, s.troves[0]) && GoodTrove(s, s.troves[1]);
    assert EntireDebt(s, s.troves[0]) == DEBT + 10_000_000 && EntireDebt(s, s.troves[1]) == DEBT;
    assert EntireColl(s, s.troves[0]) == BIG && EntireColl(s, s.troves[1]) == COLL;
  }

  lemma RatiosAfter(s: Ledger)
    requires s == T6()
    ensures NICROf(s, 0) == 999_999_999_999_990_000_000 && NICROf(s, 1) == 999_999_999_999_999_000_000
    ensures ComputeNominalCR(2 * BIG, DEBT) == 1_000_000_000_000_000_000_000
  {
    NewStakeAlmostDouble();
    assert GoodTrove(s, s.troves[0]) && GoodTrove(s, s.troves[1]);
    assert EntireDebt(s, s.troves[0]) == DEBT + 19_999_999 && EntireDebt(s, s.troves[1]) == DEBT;
    assert EntireColl(s, s.troves[0]) == 2 * BIG && EntireColl(s, s.troves[1]) == COLL;
  }

  // Hints of 10,000,000 wei on the state before: the pending debt leaves just that much above the minimum, but not counting it
  // the redemption would leave less than the minimum, and is cancelled.
  lemma HintsNotHonoured(s: Ledger)
    requires s == S4()
    ensures Queue(s, [0]) && Visitable(s, [0]) && !ReachedUnskipped(s, [0], LEFT)
    ensures
      var hints := HintLoop(s, [0], LEFT, LOW_PRICE, 1);
      && hints.Some? && hints.value.1 == 0
      && RedeemLoop(s, [0], LEFT, LOW_PRICE, hints.value.0) == Some(Outcome(s, 0, 0, 0, 0, true))
  {
    FirstTrove(s);
    hide EntireDebt, EntireColl, AppliedDebt, ComputeNominalCR, ApplyPending;
    assert [0][1..] == [];
    assert AppliedDebt(s, s.troves[[0][0]]) != EntireDebt(s, s.troves[[0][0]]);
  }

  lemma FirstTrove(s: Ledger)
    requires s == S4()
    ensures |s.troves| == 2 && |s.surplus| == 2 && s.troves[0].status.Active? && GoodTrove(s, s.troves[0])
    ensures s.troves[0].debt == DEBT && s.troves[0].coll == BIG
    ensures EntireDebt(s, s.troves[0]) == DEBT + LEFT && EntireColl(s, s.troves[0]) == BIG
    ensures AppliedDebt(s, s.troves[0]) == DEBT && ApplyPending(s, 0) == Some(s)
  {
  }
}
