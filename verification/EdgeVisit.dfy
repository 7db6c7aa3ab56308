/** A run at ordinary prices in which a redemption visits a trove below MCR: two troves have the same nominal ratio, the one
    at the edge, and the one above in the list is the one below MCR. */
module EdgeVisit {
  import opened Common
  import opened TroveLedger
  import opened Liquidation
  import opened Borrowing
  import opened Redemption
  import opened SystemRuns
  import opened SortedTroves
  import opened SortedLedger
  import opened RunSteps
  import SP = StabilityPool

  const PRICE: nat := 2000 * PRECISION
  const LOW_PRICE: nat := 1_799_999_999_999_998_560_000
  const DEBT: nat := 2000 * PRECISION
  const BIG: nat := 10_000 * PRECISION
  const HIGH: nat := 1_222_222_222_222_223_201
  const LOW: nat := 1_222_222_222_222_223_200
  const NET: nat := 1800 * PRECISION

  // The last comer, with 1 wei less, is put above its equal. The price falls by a tenth, to 1e36 / 555555555555556, and 3600
  // thUSD are redeemed.
  const EDGE_RUN := [
    OpenTrove(0, NET, BIG, 0, PRICE, true),
    OpenTrove(1, NET, HIGH, 0, PRICE, true),
    OpenTrove(2, NET, LOW, 0, PRICE, true),
    RedeemCollateral([1, 2, 0], 2 * NET, LOW_PRICE, 0, 0, 0, true)]

  const NO_TROVE := Trove(NonExistent, 0, 0, 0, 0, 0)
  const REDEEMED := Trove(ClosedByRedemption, 0, 0, 0, 0, 0)
  const TROVE_0 := Trove(Active, DEBT, BIG, BIG, 0, 0)
  const TROVE_1 := Trove(Active, DEBT, HIGH, HIGH, 0, 0)
  const TROVE_2 := Trove(Active, DEBT, LOW, LOW, 0, 0)

  function S0(): Ledger {
    Ledger([NO_TROVE, NO_TROVE, NO_TROVE], 0, 0, 0, 0, 0, 0, 0, 0, 0, 0, 0, SP.EmptyPool(3), [0, 0, 0],
           0, 0, 0, 0, 0, 0, 0, true, true, 0, 0)
  }

  lemma StartsEmpty()
    ensures S0() == EmptyLedger(3, true)
  {
    assert S0().troves == EmptyLedger(3, true).troves;
    assert S0().surplus == EmptyLedger(3, true).surplus;
  }

  function S1(): Ledger {
    S0().(troves := [TROVE_0, NO_TROVE, NO_TROVE], totalStakes := BIG, activeColl := BIG, activeDebt := DEBT,
          held := NET, gasPool := G, supply := DEBT)
  }

  function S2(): Ledger {
    S0().(troves := [TROVE_0, TROVE_1, NO_TROVE], totalStakes := BIG + HIGH, activeColl := BIG + HIGH, activeDebt := 2 * DEBT,
          held := 2 * NET, gasPool := 2 * G, supply := 2 * DEBT)
  }

  function S3(): Ledger {
    S0().(troves := [TROVE_0, TROVE_1, TROVE_2], totalStakes := BIG + HIGH + LOW, activeColl := BIG + HIGH + LOW,
          activeDebt := 3 * DEBT, held := 3 * NET, gasPool := 3 * G, supply := 3 * DEBT)
  }

  lemma Openings(a: Ledger, b: Ledger, c: Ledger)
    requires a == S0() && b == S1() && c == S2()
    ensures Openable(a, 0, TROVE_0, PRICE) && b == Opened(a, 0, TROVE_0)
    ensures Openable(b, 1, TROVE_1, PRICE) && c == Opened(b, 1, TROVE_1)
    ensures Openable(c, 2, TROVE_2, PRICE) && S3() == Opened(c, 2, TROVE_2)
  {
    assert a.troves[0 := TROVE_0] == b.troves && b.troves[1 := TROVE_1] == c.troves && c.troves[2 := TROVE_2] == S3().troves;
  }

  // ---- The redemption ----

  // Trove i redeemed in full, for `drawn` of its collateral.
  function Closed(s: Ledger, i: nat, drawn: nat): Ledger
    requires i < |s.troves| == |s.surplus| && drawn <= s.troves[i].coll && s.troves[i].stake <= s.totalStakes
    requires G <= s.gasPool && G <= s.supply && G <= s.activeDebt && s.troves[i].coll <= s.activeColl
  {
    var rest := s.troves[i].coll - drawn;
    s.(troves := s.troves[i := REDEEMED], totalStakes := s.totalStakes - s.troves[i].stake, gasPool := s.gasPool - G,
       supply := s.supply - G, activeDebt := s.activeDebt - G, activeColl := s.activeColl - rest,
       surplus := s.surplus[i := s.surplus[i] + rest], surplusColl := s.surplusColl + rest)
  }

  lemma FullVisit(s: Ledger, i: nat, max: nat, price: nat, hintNICR: nat)
    requires i < |s.troves| == |s.surplus| && GoodTrove(s, s.troves[i]) && !HasPendingRewards(s, s.troves[i]) && price > 0
    requires s.troves[i].status.Active? && Count(s) > 1 && s.troves[i].stake <= s.totalStakes
    requires s.troves[i].debt - G <= max && FaceColl(s.troves[i].debt - G, price) <= s.troves[i].coll <= s.activeColl
    requires G <= s.gasPool && G <= s.supply && G <= s.activeDebt
    ensures
      var lot := s.troves[i].debt - G;
      RedeemOne(s, i, max, price, hintNICR)
      == Some(Single(Closed(s, i, FaceColl(lot, price)), lot, FaceColl(lot, price), true, false))
  {
    hide Sum, FaceColl;
  }

  const DRAWN: nat := 1_000_000_000_000_000_800

  function R1(): Ledger { Closed(S3(), 1, DRAWN) }

  function R2(): Ledger {
    S3().(troves := [TROVE_0, REDEEMED, REDEEMED], totalStakes := BIG, gasPool := G, supply := 3 * DEBT - 2 * G,
          activeDebt := 3 * DEBT - 2 * G, activeColl := BIG + 2 * DRAWN, surplus := [0, HIGH - DRAWN, LOW - DRAWN],
          surplusColl := HIGH + LOW - 2 * DRAWN)
  }

  function S4(): Ledger {
    R2().(held := NET, supply := DEBT, activeDebt := DEBT, activeColl := BIG)
  }

  lemma ThreeActive(s: Ledger)
    requires |s.troves| == 3
    ensures Count(s) == Alive(s.troves[0]) + Alive(s.troves[1]) + Alive(s.troves[2])
  {
    hide Sum;
    SumOfThree(Actives(s.troves));
  }

  lemma Visit1(s: Ledger)
    requires s == S3()
    ensures |s.troves| == 3 && |s.surplus| == 3 && AllGood(s, [1, 2, 0]) && Visitable(s, [1, 2, 0]) && Queue(s, [1, 2, 0])
    ensures RedeemOne(s, 1, 2 * NET, LOW_PRICE, 0) == Some(Single(R1(), NET, DRAWN, true, false))
  {
    ThreeActive(s);
    hide Sum;
    FullVisit(s, 1, 2 * NET, LOW_PRICE, 0);
  }

  lemma Visit2(s: Ledger)
    requires s == R1()
    ensures |s.troves| == 3 && |s.surplus| == 3 && Visitable(s, [2, 0])
    ensures RedeemOne(s, 2, NET, LOW_PRICE, 0) == Some(Single(R2(), NET, DRAWN, true, false))
  {
    ThreeActive(s);
    hide Sum;
    FullVisit(s, 2, NET, LOW_PRICE, 0);
    assert Closed(s, 2, DRAWN).troves == R2().troves && Closed(s, 2, DRAWN).surplus == R2().surplus;
  }

  lemma Loop(s: Ledger)
    requires s == S3()
    ensures Visitable(s, [1, 2, 0]) && Queue(s, [1, 2, 0])
    ensures RedeemLoop(s, [1, 2, 0], 2 * NET, LOW_PRICE, 0) == Some(Outcome(R2(), 2 * NET, 2 * DRAWN, 2, 0, false))
  {
    hide RedeemOne, R1, R2, Visitable, Queue;
    Visit1(s);
    Visit2(R1());
    assert [1, 2, 0][1..] == [2, 0] && [2, 0][1..] == [0];
  }

  // Every step of the run succeeds, and the redemption closes both.
  lemma EdgeRunEnds(s: Ledger, ops: seq<Op>)
    requires |ops| == 4 && s == S0() && ops == EDGE_RUN
    ensures Leads(s, ops[..3], S3()) && Leads(s, ops, S4())
    ensures s == EmptyLedger(3, true)
  {
    hide Leads, Goes, Inv, Openable, Opened, S0, S1, S2, S3, S4, R2, RedeemLoop, Queue, Visitable, TCR;
    StartsEmpty();
    EmptyInv(3, true);
    Openings(s, S1(), S2());
    OpenStep(s, 0, TROVE_0, PRICE, S1());
    OpenStep(S1(), 1, TROVE_1, PRICE, S2());
    OpenStep(S2(), 2, TROVE_2, PRICE, S3());
    Loop(S3());
    SystemAbove(S3());
    AfterLoop(S3(), R2());
    RedeemStep(S3(), [1, 2, 0], 2 * NET, LOW_PRICE, Outcome(R2(), 2 * NET, 2 * DRAWN, 2, 0, false), S4());
    LeadsOn(s, ops, 0, s, S1());
    LeadsOn(s, ops, 1, S1(), S2());
    LeadsOn(s, ops, 2, S2(), S3());
    LeadsOn(s, ops, 3, S3(), S4());
  }

  lemma AfterLoop(s: Ledger, r: Ledger)
    requires s == S3() && r == R2()
    ensures s.pcvSet && r.pcvSet && s.held == r.held == 3 * NET && r.supply == r.activeDebt == 3 * DEBT - 2 * G
    ensures r.activeColl == BIG + 2 * DRAWN
    ensures S4() == r.(held := r.held - 2 * NET, supply := r.supply - 2 * NET, activeDebt := r.activeDebt - 2 * NET,
                       activeColl := r.activeColl - 2 * DRAWN)
  {
  }

  lemma SystemAbove(s: Ledger)
    requires s == S3()
    ensures TCR(s, LOW_PRICE) >= MCR
  {
    QuotientAtLeast((BIG + HIGH + LOW) * LOW_PRICE, 3 * DEBT, MCR);
  }

  // On the list in order the walk stops at trove 1, which is at MCR; the redemption goes on to trove 2, which is below
  // MCR at its visit, and closes it.
  lemma TroveBelowMCRIsRedeemed(s: Ledger)
    requires s == S3()
    ensures InOrder(s, [0, 2, 1]) && AllGood(s, [0, 2, 1])
    ensures Walk(s, [0, 2, 1], LOW_PRICE) == 2 && Upwards([0, 2, 1], 2) == [1, 2, 0]
    ensures ICR(s, 1, LOW_PRICE) == MCR && ICR(s, 2, LOW_PRICE) < MCR && NICROf(s, 1) == NICROf(s, 2) == Edge(LOW_PRICE)
    ensures |R1().troves| == 3 && GoodTrove(R1(), R1().troves[2]) && ICR(R1(), 2, LOW_PRICE) < MCR
    ensures Visitable(s, [1, 2, 0])
    ensures RedeemLoop(s, [1, 2, 0], 2 * NET, LOW_PRICE, 0) == Some(Outcome(R2(), 2 * NET, 2 * DRAWN, 2, 0, false))
    ensures R2().troves[2].status == ClosedByRedemption
  {
    hide RedeemLoop, ICR, NICROf, Visitable, Queue, R1, GoodTrove, Edge;
    Loop(s);
    Ratios(s);
    InListOrder(s, [0, 2, 1]);
    LastAtMCR(s, [0, 2, 1]);
    TroveClosed(R2());
    hide S3, R2;
  }

  lemma TroveClosed(r: Ledger)
    requires r == R2()
    ensures |r.troves| == 3 && r.troves[2].status == ClosedByRedemption
  {
  }

  lemma InListOrder(s: Ledger, order: seq<nat>)
    requires order == [0, 2, 1] && |s.troves| == 3
    requires forall i | 0 <= i < 3 :: GoodTrove(s, s.troves[i]) && s.troves[i].status.Active?
    requires NICROf(s, 0) > NICROf(s, 1) == NICROf(s, 2)
    ensures InOrder(s, order) && AllGood(s, order) && Upwards(order, 2) == [1, 2, 0]
  {
    hide NICROf, GoodTrove;
  }

  lemma LastAtMCR(s: Ledger, order: seq<nat>)
    requires |order| == 3 && AllGood(s, order) && ICR(s, order[2], LOW_PRICE) == MCR
    ensures Walk(s, order, LOW_PRICE) == 2
  {
    hide ICR, GoodTrove;
  }

  lemma Ratios(s: Ledger)
    requires s == S3()
    ensures |s.troves| == 3 && forall i | 0 <= i < 3 :: GoodTrove(s, s.troves[i]) && s.troves[i].status.Active?
    ensures ICR(s, 1, LOW_PRICE) == MCR && ICR(s, 2, LOW_PRICE) < MCR
    ensures NICROf(s, 0) > NICROf(s, 1) == NICROf(s, 2) == Edge(LOW_PRICE)
    ensures |R1().troves| == 3 && GoodTrove(R1(), R1().troves[2]) && ICR(R1(), 2, LOW_PRICE) < MCR
  {
  }
}
