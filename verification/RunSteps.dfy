/** Single steps of the system, for runs that are carried out one call at a time. */
module RunSteps {
  import opened Common
  import opened TroveLedger
  import opened Liquidation
  import opened Borrowing
  import opened Redemption
  import opened SystemRuns
  import SP = StabilityPool

  lemma {:induction false} RunLast(s: Ledger, ops: seq<Op>, op: Op)
    requires Inv(s)
    ensures Run(s, ops + [op]) == Step(Run(s, ops), op)
    decreases |ops|
  {
    hide Inv, Step;
    if ops == [] {
      assert ([op])[1..] == [] && ops + [op] == [op];
    } else {
      assert (ops + [op])[1..] == ops[1..] + [op];
      RunLast(Step(s, ops[0]), ops[1..], op);
    }
  }

  // One step of a run that ends in r.
  ghost predicate Goes(s: Ledger, op: Op, r: Ledger) {
    Inv(s) && Inv(r) && Step(s, op) == r
  }

  // The run from s ends in r, one step after the other.
  ghost predicate Leads(s: Ledger, ops: seq<Op>, r: Ledger)
    decreases |ops|
  {
    if ops == [] then Inv(s) && r == s
    else
      var shorter, op := ops[..|ops| - 1], ops[|ops| - 1];
      exists q :: Leads(s, shorter, q) && Goes(q, op, r)
  }

  lemma {:induction false} LeadsIsRun(s: Ledger, ops: seq<Op>, r: Ledger)
    ensures Leads(s, ops, r) <==> Inv(s) && Run(s, ops) == r
    ensures Leads(s, ops, r) ==> Inv(r)
    decreases |ops|
  {
    hide Inv, Step;
    if ops != [] {
      var shorter, op := ops[..|ops| - 1], ops[|ops| - 1];
      assert shorter + [op] == ops;
      if Leads(s, ops, r) {
        var q :| Leads(s, shorter, q) && Goes(q, op, r);
        LeadsIsRun(s, shorter, q);
        RunLast(s, shorter, op);
      }
      if Inv(s) && Run(s, ops) == r {
        RunLast(s, shorter, op);
        LeadsIsRun(s, shorter, Run(s, shorter));
        assert Goes(Run(s, shorter), op, r);
      }
    }
  }

  lemma LeadsOn(s: Ledger, ops: seq<Op>, n: nat, q: Ledger, r: Ledger)
    requires n < |ops| && Goes(q, ops[n], r) && if n == 0 then q == s else Leads(s, ops[..n], q)
    ensures Leads(s, ops[..n + 1], r)
    ensures n + 1 == |ops| ==> Leads(s, ops, r)
  {
    hide Inv, Step;
    assert ops[..n + 1][..n] == ops[..n];
    assert n + 1 == |ops| ==> ops[..n + 1] == ops;
  }

  lemma StepTo(s: Ledger, op: Op, r: Ledger)
    requires Inv(s) && WellFormed(s, op)
    ensures TryStep(s, op) == Some(r) ==> Goes(s, op, r) && Inv(r)
  {
    hide Inv, TryStep;
    var q := Step(s, op);
  }

  lemma DepositStep(s: Ledger, i: nat, amount: nat, r: Ledger)
    requires Inv(s)
    ensures SP.Valid(s.pool)
    ensures ProvideToSP(s, i, amount) == Some(r) ==> Goes(s, DepositToSP(i, amount), r) && Inv(r)
  {
    InvPool(s);
    hide Inv, ProvideToSP;
    StepTo(s, DepositToSP(i, amount), r);
  }

  lemma LiquidationStep(s: Ledger, ids: seq<nat>, price: nat, r: Ledger)
    requires Inv(s) && price > 0
    ensures Liquidate(s, ids, price) == Some(r) ==> Goes(s, LiquidateTroves(ids, price), r) && Inv(r)
  {
    hide Inv, Liquidate;
    StepTo(s, LiquidateTroves(ids, price), r);
  }

  lemma AdjustStep(s: Ledger, i: nat, c: Change, price: nat, r: Ledger)
    requires Inv(s) && i < |s.troves| && price > 0
    ensures GoodTrove(s, s.troves[i])
    ensures Adjust(s, i, c, 0, price) == Some(r) ==> Goes(s, AdjustTrove(i, c, 0, price), r) && Inv(r)
  {
    InvBooks(s);
    BooksMeanGoodTrove(s, i);
    hide Inv, Adjust;
    StepTo(s, AdjustTrove(i, c, 0, price), r);
  }

  const G: nat := GAS_COMPENSATION

  function Opened(s: Ledger, i: nat, t: Trove): Ledger
    requires i < |s.troves| && t.debt >= G
  {
    s.(troves := s.troves[i := t], totalStakes := s.totalStakes + t.stake, activeColl := s.activeColl + t.coll,
       activeDebt := s.activeDebt + t.debt, held := s.held + t.debt - G, gasPool := s.gasPool + G, supply := s.supply + t.debt)
  }

  // What it takes to open trove t at a good ratio with no fee.
  ghost predicate Openable(s: Ledger, i: nat, t: Trove, price: nat) {
    && i < |s.troves| && !s.troves[i].status.Active? && s.canMint && s.pcvSet && price > 0 && t.debt >= MIN_NET_DEBT + G
    && t == Trove(Active, t.debt, t.coll, t.stake, s.LColl, s.LDebt) && NewStake(s, t.coll) == Some(t.stake)
    && !RecoveryMode(s, price) && ComputeCR(t.coll, t.debt, price) >= MCR && ComputeNominalCR(t.coll, t.debt) > 0
    && ComputeCR(SystemColl(s) + t.coll, SystemDebt(s) + t.debt, price) >= CCR
  }

  lemma OpenPlain(s: Ledger, i: nat, t: Trove, price: nat)
    requires Openable(s, i, t, price)
    ensures Open(s, i, t.debt - G, t.coll, 0, price, true) == Some(Opened(s, i, t))
  {
    hide ComputeCR, ComputeNominalCR, NewStake;
  }

  lemma OpenStep(s: Ledger, i: nat, t: Trove, price: nat, r: Ledger)
    requires Inv(s) && Openable(s, i, t, price) && r == Opened(s, i, t)
    ensures Goes(s, OpenTrove(i, t.debt - G, t.coll, 0, price, true), r) && Inv(r)
  {
    hide Inv, Open, Opened, Goes, RecoveryMode, ComputeCR, ComputeNominalCR, SystemColl, SystemDebt;
    OpenPlain(s, i, t, price);
    StepTo(s, OpenTrove(i, t.debt - G, t.coll, 0, price, true), r);
  }

  // A redemption without fee whose loop came to o.
  lemma RedeemStep(s: Ledger, queue: seq<nat>, amount: nat, price: nat, o: Outcome, r: Ledger)
    requires Inv(s) && Queue(s, queue) && Visitable(s, queue) && price > 0 && s.pcvSet && TCR(s, price) >= MCR
    requires RedeemLoop(s, queue, amount, price, 0) == Some(o) && o.drawn > 0 && 0 < amount <= s.held && o.s.pcvSet
    requires o.redeemed <= o.s.held && o.redeemed <= o.s.supply && o.redeemed <= o.s.activeDebt && o.drawn <= o.s.activeColl
    requires r == o.s.(held := o.s.held - o.redeemed, supply := o.s.supply - o.redeemed,
                       activeDebt := o.s.activeDebt - o.redeemed, activeColl := o.s.activeColl - o.drawn)
    ensures Goes(s, RedeemCollateral(queue, amount, price, 0, 0, 0, true), r) && Inv(r)
  {
    hide Inv, RedeemLoop, Queue, Visitable, TCR;
    assert Redeem(s, queue, amount, price, 0, 0, 0, true) == Some(r);
    StepTo(s, RedeemCollateral(queue, amount, price, 0, 0, 0, true), r);
  }

  lemma SumOfTwo(xs: seq<int>)
    requires |xs| == 2
    ensures Sum(xs) == xs[0] + xs[1]
  {
    assert xs[..1][..0] == [];
    assert Sum(xs[..1]) == Sum(xs[..1][..0]) + xs[0];
  }

  lemma SumOfThree(xs: seq<int>)
    requires |xs| == 3
    ensures Sum(xs) == xs[0] + xs[1] + xs[2]
  {
    SumOfTwo(xs[..2]);
  }

  // Taking out a trove with nothing pending and no surplus.
  lemma TakeFresh(s: Ledger, i: nat, v: Values)
    requires i < |s.troves| && s.troves[i].status.Active? && GoodTrove(s, s.troves[i]) && |s.surplus| == |s.troves|
    requires s.troves[i].collSnapshot == s.LColl && s.troves[i].debtSnapshot == s.LDebt
    requires Count(s) > 1 && s.totalStakes >= s.troves[i].stake && v.collSurplus == 0
    ensures EntireColl(s, s.troves[i]) == s.troves[i].coll && EntireDebt(s, s.troves[i]) == s.troves[i].debt
    ensures Take(s, i, v) == Some(s.(troves := s.troves[i := Trove(ClosedByLiquidation, 0, 0, 0, 0, 0)],
                                     totalStakes := s.totalStakes - s.troves[i].stake, applications := s.applications + 1))
  {
    hide Sum;
    NothingPending(s, s.troves[i]);
    hide PendingColl, PendingDebt;
    SameCount(s, s.(applications := s.applications + 1));
    assert s.surplus[i := s.surplus[i] + 0] == s.surplus;
  }

  // A batch of one is one step.
  lemma OneInBatch(s: Ledger, i: nat, price: nat, recovery: bool)
    requires Books(s, NOTHING) && price > 0 && i < |s.troves|
    ensures GoodTrove(s, s.troves[i]) && |s.surplus| == |s.troves|
    ensures Batch(s, [i], price, recovery) == BatchStep(Start(s), i, price, recovery)
  {
    hide BatchStep, InBatch, Tracked, SP.Valid;
    assert [i][..0] == [];
    assert Batch(s, [], price, recovery) == Some(Start(s));
  }

  lemma LiquidateOne(s: Ledger, i: nat, price: nat, recovery: bool, p: Progress, r: Ledger)
    requires Books(s, NOTHING) && price > 0 && i < |s.troves|
    ensures GoodTrove(s, s.troves[i]) && |s.surplus| == |s.troves|
    ensures
      RecoveryMode(s, price) == recovery && BatchStep(Start(s), i, price, recovery) == Some(p)
      && Settle(p.s, p.totals) == Some(r) ==>
      Liquidate(s, [i], price) == Some(r)
  {
    hide Books, BatchStep, Settle, RecoveryMode;
    OneInBatch(s, i, price, recovery);
  }
}
