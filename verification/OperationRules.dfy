/** When exactly a borrower's operation, a redemption or a loan payment goes through, and what it changes then. Ratios are
    compared by products of the amounts before or after the call. */
module OperationRules {
  import opened Common
  import opened TroveLedger
  import opened Liquidation
  import opened Borrowing
  import opened Redemption
  import opened SortedLedger
  import SP = StabilityPool

  // ---- Ratios ----

  predicate RatioFrom(coll: int, debt: int, price: nat, ratio: nat) { coll * price >= ratio * debt }

  lemma RatioFromExactly(coll: nat, debt: nat, price: nat, ratio: nat)
    requires ratio <= MAX_UINT
    ensures ComputeCR(coll, debt, price) >= ratio <==> RatioFrom(coll, debt, price, ratio)
  {
    NonNegative(coll, price);
    if debt > 0 {
      QuotientAtLeast(coll * price, debt, ratio);
    }
  }

  lemma NominalPositiveExactly(coll: nat, debt: nat)
    requires debt > 0
    ensures ComputeNominalCR(coll, debt) > 0 <==> coll * NICR_PRECISION >= debt
  {
    QuotientAtLeast(coll * NICR_PRECISION, debt, 1);
  }

  // ---- Opening ----

  // The debt of a trove opened for `amount`: the fee is waived in Recovery Mode.
  function DebtOpened(s: Ledger, amount: nat, fee: nat, price: nat): nat {
    amount + (if RecoveryMode(s, price) then 0 else fee) + GAS_COMPENSATION
  }

  // In Recovery Mode the trove is at or above CCR; in Normal Mode it is at or above MCR and the system with it at or above CCR.
  lemma OpenExactly(s: Ledger, i: nat, amount: nat, coll: nat, fee: nat, price: nat, feedActive: bool)
    requires i < |s.troves|
    ensures
      var debt := DebtOpened(s, amount, fee, price);
      Open(s, i, amount, coll, fee, price, feedActive).Some? <==>
      && feedActive && s.canMint && !s.troves[i].status.Active? && debt >= MIN_NET_DEBT + GAS_COMPENSATION
      && (if RecoveryMode(s, price) then RatioFrom(coll, debt, price, CCR)
          else RatioFrom(coll, debt, price, MCR) && RatioFrom(SystemColl(s) + coll, SystemDebt(s) + debt, price, CCR))
      && coll * NICR_PRECISION >= debt && (s.collSnapshot > 0 ==> s.stakesSnapshot > 0)
  {
    hide ComputeCR, ComputeNominalCR, RatioFrom;
    var debt := DebtOpened(s, amount, fee, price);
    RatioFromExactly(coll, debt, price, CCR);
    RatioFromExactly(coll, debt, price, MCR);
    RatioFromExactly(SystemColl(s) + coll, SystemDebt(s) + debt, price, CCR);
    NominalPositiveExactly(coll, debt);
  }

  lemma OpenEffect(s: Ledger, i: nat, amount: nat, coll: nat, fee: nat, price: nat, feedActive: bool)
    requires i < |s.troves|
    ensures Open(s, i, amount, coll, fee, price, feedActive).Some? ==>
      var r, debt := Open(s, i, amount, coll, fee, price, feedActive).value, DebtOpened(s, amount, fee, price);
      && |r.troves| == |s.troves| && r.troves == s.troves[i := r.troves[i]]
      && r.troves[i].status.Active? && r.troves[i].debt == debt && r.troves[i].coll == coll
      && r.troves[i].collSnapshot == s.LColl && r.troves[i].debtSnapshot == s.LDebt && r.LColl == s.LColl && r.LDebt == s.LDebt
      && SystemColl(r) == SystemColl(s) + coll && SystemDebt(r) == SystemDebt(s) + debt
      && r.gasPool == s.gasPool + GAS_COMPENSATION && r.supply - s.supply == r.held - s.held + GAS_COMPENSATION
      && r.held == s.held + (if s.pcvSet then debt - GAS_COMPENSATION else amount)
      && r.unminted == s.unminted + (if s.pcvSet then 0 else debt - GAS_COMPENSATION - amount)
      && r.pool == s.pool && r.surplus == s.surplus && r.loan == s.loan
  {
    hide ComputeCR, ComputeNominalCR, NewStake;
  }

  // ---- Adjusting ----

  // Collateral in or out and not both, something at all, and something to borrow if borrowing.
  predicate Asks(c: Change) {
    && (c.collIn == 0 || c.collOut == 0) && (c.collIn > 0 || c.collOut > 0 || c.debt > 0) && (c.increase ==> c.debt > 0)
  }

  // What the mode asks of the amounts after the change. In Recovery Mode no collateral may leave, and more debt needs a ratio
  // from CCR on and from the old one on; in Normal Mode the trove is at or above MCR and the system at or above CCR.
  ghost predicate ModeAllows(s: Ledger, t: Trove, c: Change, fee: nat, price: nat)
    requires GoodTrove(s, t)
  {
    var coll, debt := EntireColl(s, t), AppliedDebt(s, t);
    var newColl, newDebt := AdjustedColl(s, t, c), AdjustedDebt(s, t, c, fee, price);
    if RecoveryMode(s, price) then
      && c.collOut == 0
      && (c.increase ==>
            RatioFrom(newColl, newDebt, price, CCR) && RatioFrom(newColl, newDebt, price, ComputeCR(coll, debt, price)))
    else
      && RatioFrom(newColl, newDebt, price, MCR)
      && RatioFrom(SystemColl(s) + newColl - coll, SystemDebt(s) + newDebt - debt, price, CCR)
  }

  // Whether the pending rewards can be applied at all.
  predicate RewardsPayable(s: Ledger, t: Trove)
    requires GoodTrove(s, t)
  {
    HasPendingRewards(s, t) ==> PendingDebt(s, t) <= s.defaultDebt
  }

  lemma ApplyExactly(s: Ledger, i: nat, l: Limbo)
    requires Books(s, l) && i < |s.troves|
    ensures GoodTrove(s, s.troves[i]) && (ApplyPending(s, i).Some? <==> RewardsPayable(s, s.troves[i]))
  {
    hide Sum, SP.Valid, PendingDebt, PendingColl;
    PendingCollInPool(s, i);
  }

  lemma Balances(s: Ledger, i: nat, l: Limbo)
    requires Books(s, l) && l.coll >= 0 && l.debt >= 0 && TokensMatchDebt(s) && i < |s.troves|
    ensures s.troves[i].stake <= s.totalStakes && s.troves[i].coll <= s.activeColl && s.troves[i].debt <= s.activeDebt
    ensures s.held <= s.supply && s.gasPool <= s.supply
  {
    hide Books;
    TroveInPools(s, i, l);
  }

  // The rest of an adjustment, on the amounts once the rewards are applied.
  ghost predicate ChangeAllowed(s: Ledger, i: nat, c: Change, newColl: int, newDebt: int)
    requires i < |s.troves|
  {
    && c.collOut <= s.troves[i].coll && (!c.increase ==> c.debt <= s.troves[i].debt)
    && (!c.increase && c.debt > 0 ==> newDebt >= GAS_COMPENSATION + MIN_NET_DEBT && c.debt <= s.held)
    && newColl * NICR_PRECISION >= newDebt
    && (c.increase ==> s.canMint) && (s.collSnapshot > 0 ==> s.stakesSnapshot > 0)
  }

  ghost predicate ChangeInMode(s: Ledger, i: nat, c: Change, newColl: int, newDebt: int, recovery: bool, price: nat)
    requires i < |s.troves|
  {
    var t := s.troves[i];
    if recovery then
      && c.collOut == 0
      && (c.increase ==>
            RatioFrom(newColl, newDebt, price, CCR) && RatioFrom(newColl, newDebt, price, ComputeCR(t.coll, t.debt, price)))
    else
      && RatioFrom(newColl, newDebt, price, MCR)
      && RatioFrom(SystemColl(s) + newColl - t.coll, SystemDebt(s) + newDebt - t.debt, price, CCR)
  }

  lemma AdmitsExactly(s: Ledger, i: nat, c: Change, newColl: nat, newDebt: nat, recovery: bool, price: nat)
    requires i < |s.troves| && s.troves[i].coll <= s.activeColl && s.troves[i].debt <= s.activeDebt
    requires newDebt > 0
    ensures AdmitsAdjustment(s, c, s.troves[i].coll, s.troves[i].debt, newColl, newDebt, recovery, price)
            <==> (s.canMint ==> ChangeInMode(s, i, c, newColl, newDebt, recovery, price))
  {
    hide ComputeCR, RatioFrom;
    var t := s.troves[i];
    RatioFromExactly(newColl, newDebt, price, CCR);
    RatioFromExactly(newColl, newDebt, price, MCR);
    RatioFromExactly(SystemColl(s) + newColl - t.coll, SystemDebt(s) + newDebt - t.debt, price, CCR);
    RatioReached(newColl, newDebt, price, ComputeCR(t.coll, t.debt, price));
  }

  lemma RatioReached(coll: nat, debt: nat, price: nat, ratio: nat)
    requires debt > 0
    ensures ComputeCR(coll, debt, price) >= ratio <==> RatioFrom(coll, debt, price, ratio)
  {
    NonNegative(coll, price);
    QuotientAtLeast(coll * price, debt, ratio);
  }

  lemma MakeChangeExactly(s: Ledger, i: nat, c: Change, charged: nat, recovery: bool, price: nat)
    requires Books(s, NOTHING) && TokensMatchDebt(s) && i < |s.troves| && s.troves[i].status.Active? && (c.increase || charged == 0)
    ensures
      var newColl, newDebt := s.troves[i].coll + c.collIn - c.collOut, s.troves[i].debt + DebtRise(c, charged);
      MakeChange(s, i, c, charged, recovery, price).Some?
      <==> ChangeAllowed(s, i, c, newColl, newDebt) && (s.canMint ==> ChangeInMode(s, i, c, newColl, newDebt, recovery, price))
  {
    hide Books, TokensMatchDebt, AdmitsAdjustment, ChangeInMode, ComputeNominalCR, RatioFrom;
    Balances(s, i, NOTHING);
    GoodOf(s, NOTHING, i);
    var t := s.troves[i];
    if t.coll >= c.collOut && (c.increase || t.debt >= c.debt) {
      var newColl, newDebt := t.coll + c.collIn - c.collOut, t.debt + DebtRise(c, charged);
      if c.increase || c.debt == 0 || newDebt >= GAS_COMPENSATION + MIN_NET_DEBT {
        AdmitsExactly(s, i, c, newColl, newDebt, recovery, price);
        NominalPositiveExactly(newColl, newDebt);
      }
    }
  }

  // An adjustment goes through exactly when it asks for something, the trove is active and its rewards can be applied, the
  // mode allows it while the contract is on the mint list, and the rest is there: collateral and debt to take from, tokens to
  // repay with, the least debt after a repayment, and the right to mint.
  lemma AdjustExactly(s: Ledger, i: nat, c: Change, fee: nat, price: nat)
    requires Inv(s) && i < |s.troves|
    ensures GoodTrove(s, s.troves[i])
    ensures
      var t := s.troves[i];
      var newColl, newDebt := AdjustedColl(s, t, c), AdjustedDebt(s, t, c, fee, price);
      Adjust(s, i, c, fee, price).Some? <==>
      && Asks(c) && t.status.Active? && RewardsPayable(s, t) && (s.canMint ==> ModeAllows(s, t, c, fee, price))
      && c.collOut <= EntireColl(s, t) && (!c.increase ==> c.debt <= AppliedDebt(s, t))
      && (!c.increase && c.debt > 0 ==> newDebt >= GAS_COMPENSATION + MIN_NET_DEBT && c.debt <= s.held)
      && newColl * NICR_PRECISION >= newDebt && (c.increase ==> s.canMint) && (s.collSnapshot > 0 ==> s.stakesSnapshot > 0)
  {
    hide Books, TokensMatchDebt, MakeChange, ApplyPending, RatioFrom, EntireColl, AppliedDebt, ComputeCR, RewardsPayable, Inv;
    InvBooks(s);
    ApplyExactly(s, i, NOTHING);
    ApplyPendingKeeps(s, i, NOTHING);
    if ApplyPending(s, i).Some? && s.troves[i].status.Active? {
      var charged := if c.increase && !RecoveryMode(s, price) then fee else 0;
      MakeChangeExactly(ApplyPending(s, i).value, i, c, charged, RecoveryMode(s, price), price);
    }
  }

  // Its effect: the trove has the new amounts, the other troves their own, and collateral and tokens follow. The fee, waived
  // in Recovery Mode, goes to the PCV.
  ghost predicate Adjusted(s: Ledger, i: nat, c: Change, fee: nat, price: nat, r: Ledger)
    requires i < |s.troves| && GoodTrove(s, s.troves[i])
  {
    var t, charged := s.troves[i], if c.increase && !RecoveryMode(s, price) then fee else 0;
    && |r.troves| == |s.troves| && r.troves == s.troves[i := r.troves[i]] && r.troves[i].status.Active?
    && r.troves[i].coll == AdjustedColl(s, t, c) && r.troves[i].debt == AdjustedDebt(s, t, c, fee, price)
    && SystemColl(r) == SystemColl(s) + c.collIn - c.collOut && SystemDebt(r) == SystemDebt(s) + DebtRise(c, charged)
    && r.held == s.held + (if !c.increase then 0 - c.debt else if s.pcvSet then c.debt + charged else c.debt)
    && r.supply - s.supply == r.held - s.held && r.unminted == s.unminted + (if s.pcvSet then 0 else charged)
    && r.gasPool == s.gasPool && r.pool == s.pool && r.surplus == s.surplus && r.loan == s.loan
  }

  lemma AdjustEffect(s: Ledger, i: nat, c: Change, fee: nat, price: nat)
    requires Inv(s) && i < |s.troves|
    ensures GoodTrove(s, s.troves[i])
    ensures Adjust(s, i, c, fee, price).Some? ==>
      Adjusted(s, i, c, fee, price, Adjust(s, i, c, fee, price).value)
  {
    hide ApplyPending, Books, TokensMatchDebt, ComputeCR, ComputeNominalCR, NewStake, EntireColl, AppliedDebt, AdmitsAdjustment;
    hide Inv;
    InvBooks(s);
    GoodOf(s, NOTHING, i);
    ApplyPendingKeeps(s, i, NOTHING);
    AdjustTouchesOne(s, i, c, fee, price);
    AdjustedRatio(s, i, c, fee, price);
  }

  // On the mint list: in Recovery Mode an adjustment never lowers a trove's collateral, and raises its debt only to a ratio
  // from CCR on and from the old one on; in Normal Mode the trove ends at or above MCR and the system at or above CCR.
  lemma AdjustedWithinMode(s: Ledger, i: nat, c: Change, fee: nat, price: nat)
    requires Inv(s) && i < |s.troves| && s.canMint
    ensures GoodTrove(s, s.troves[i])
    ensures Adjust(s, i, c, fee, price).Some? ==>
      var r, t := Adjust(s, i, c, fee, price).value, s.troves[i];
      && |r.troves| == |s.troves|
      && (RecoveryMode(s, price) ==>
            && r.troves[i].coll >= EntireColl(s, t)
            && (r.troves[i].debt > AppliedDebt(s, t) ==>
                  ComputeCR(r.troves[i].coll, r.troves[i].debt, price)
                  >= Max(CCR, ComputeCR(EntireColl(s, t), AppliedDebt(s, t), price))))
      && (!RecoveryMode(s, price) ==> ComputeCR(r.troves[i].coll, r.troves[i].debt, price) >= MCR && TCR(r, price) >= CCR)
  {
    hide Inv, ComputeCR, RatioFrom, Adjust, EntireColl, AppliedDebt, RewardsPayable;
    AdjustExactly(s, i, c, fee, price);
    AdjustEffect(s, i, c, fee, price);
    if Adjust(s, i, c, fee, price).Some? {
      var r, t := Adjust(s, i, c, fee, price).value, s.troves[i];
      RatioFromExactly(r.troves[i].coll, r.troves[i].debt, price, CCR);
      RatioFromExactly(r.troves[i].coll, r.troves[i].debt, price, MCR);
      RatioFromExactly(SystemColl(r), SystemDebt(r), price, CCR);
      AppliedAmounts(s, i);
      if r.troves[i].debt > AppliedDebt(s, t) {
        RatioReached(r.troves[i].coll, r.troves[i].debt, price, ComputeCR(EntireColl(s, t), AppliedDebt(s, t), price));
      }
    }
  }

  function Max(a: nat, b: nat): nat { if a < b then b else a }

  // ---- Closing ----

  // On the mint list not in Recovery Mode, not into it, and not the last trove; the owner repays all but the reserve.
  lemma CloseExactly(s: Ledger, i: nat, price: nat)
    requires Inv(s) && i < |s.troves|
    ensures GoodTrove(s, s.troves[i])
    ensures
      var t := s.troves[i];
      var coll, debt := EntireColl(s, t), AppliedDebt(s, t);
      Close(s, i, price).Some? <==>
      && t.status.Active? && RewardsPayable(s, t) && debt - GAS_COMPENSATION <= s.held
      && (s.canMint ==>
            !RecoveryMode(s, price) && Count(s) > 1 && RatioFrom(SystemColl(s) - coll, SystemDebt(s) - debt, price, CCR))
    ensures Close(s, i, price).Some? ==>
      var r, t := Close(s, i, price).value, s.troves[i];
      var coll, debt := EntireColl(s, t), AppliedDebt(s, t);
      && r.troves == s.troves[i := Trove(ClosedByOwner, 0, 0, 0, 0, 0)]
      && SystemColl(r) == SystemColl(s) - coll && SystemDebt(r) == SystemDebt(s) - debt
      && r.held == s.held - (debt - GAS_COMPENSATION) && r.gasPool == s.gasPool - GAS_COMPENSATION && r.supply == s.supply - debt
      && r.pool == s.pool && r.surplus == s.surplus && r.loan == s.loan && r.unminted == s.unminted
  {
    hide ApplyPending, Books, TokensMatchDebt, Sum, ComputeCR, EntireColl, AppliedDebt, RatioFrom, Inv, RewardsPayable;
    InvBooks(s);
    ApplyExactly(s, i, NOTHING);
    ApplyPendingKeeps(s, i, NOTHING);
    AppliedAmounts(s, i);
    if ApplyPending(s, i).Some? && s.troves[i].status.Active? {
      var a := ApplyPending(s, i).value;
      Balances(a, i, NOTHING);
      ReserveHeld(a, i, NOTHING);
      AppliedOnly(s, i);
      SameCount(s, a);
      RatioFromExactly(SystemColl(a) - a.troves[i].coll, SystemDebt(a) - a.troves[i].debt, price, CCR);
    }
  }

  lemma ReserveHeld(s: Ledger, i: nat, l: Limbo)
    requires Books(s, l) && l.count >= 0 && TokensMatchDebt(s) && i < |s.troves| && s.troves[i].status.Active?
    ensures GAS_COMPENSATION <= s.gasPool
    ensures s.troves[i].debt >= GAS_COMPENSATION && s.held >= s.troves[i].debt - GAS_COMPENSATION ==> s.troves[i].debt <= s.supply
  {
    hide Sum, SP.Valid, CollClaimsCovered, ErrorsBelowStakes, SurplusMatches;
    SumNonNegative(Actives(s.troves));
    assert Actives(s.troves)[i] == 1;
  }

  // ---- Claims and loans ----

  // The whole surplus of that account, and of no other, is paid out.
  lemma ClaimExactly(s: Ledger, i: nat)
    requires Inv(s) && i < |s.surplus|
    ensures ClaimSurplus(s, i).Some? <==> s.surplus[i] > 0
    ensures ClaimSurplus(s, i).Some? ==>
      var r := ClaimSurplus(s, i).value;
      && |r.surplus| == |s.surplus| && r.surplus[i] == 0 && r.surplusColl == s.surplusColl - s.surplus[i]
      && (forall j | 0 <= j < |s.surplus| && j != i :: r.surplus[j] == s.surplus[j])
      && r == s.(surplus := r.surplus, surplusColl := r.surplusColl)
  {
    hide Sum, SP.Valid, TrovesMatchPools, CollClaimsCovered, ErrorsBelowStakes, TokensMatchDebt;
    SumNonNegative(s.surplus);
  }

  // The loan is repaid up to what is owed; what is offered above it stays with the caller.
  lemma PayLoanExactly(s: Ledger, amount: nat)
    requires Inv(s)
    ensures PayLoan(s, amount).Some? <==> s.loan > 0 && amount <= s.held
    ensures PayLoan(s, amount).Some? ==>
      var r := PayLoan(s, amount).value;
      && (if amount <= s.loan then r.loan == s.loan - amount else r.loan == 0)
      && s.held - r.held == s.supply - r.supply == s.loan - r.loan
      && r == s.(loan := r.loan, held := r.held, supply := r.supply)
  {
    hide Books;
  }

  // The bootstrap loan is minted, against no trove's debt.
  lemma TakeLoanExactly(s: Ledger, amount: nat)
    ensures TakeLoan(s, amount).Some? <==> s.canMint
    ensures TakeLoan(s, amount).Some? ==>
      var r := TakeLoan(s, amount).value;
      && r.loan - s.loan == r.held - s.held == r.supply - s.supply == amount
      && r == s.(loan := r.loan, held := r.held, supply := r.supply)
  {
  }

  // ---- Moving a gain ----

  // The gain leaves the Stability Pool and becomes collateral of the depositor's trove.
  lemma GainToTroveEffect(s: Ledger, i: nat, price: nat)
    requires Inv(s) && i < |s.troves|
    ensures GoodTrove(s, s.troves[i])
    ensures GainToTrove(s, i, price).Some? ==>
      && i < |s.pool.deposits| && SP.GoodDeposit(s.pool, s.pool.deposits[i])
      && var r, gain := GainToTrove(s, i, price).value, SP.CollateralGain(s.pool, s.pool.deposits[i]);
      && gain > 0 && Adjusted(s, i, Change(gain, 0, 0, false), 0, price, r.(pool := s.pool))
      && r.pool.collateral == s.pool.collateral - gain && r.pool.total == s.pool.total
  {
    hide Inv, SP.TryStep, SP.Valid, Adjust, Adjusted, SP.GoodDeposit, SP.CollateralGain;
    InvBooks(s);
    GoodOf(s, NOTHING, i);
    InvGood(s, i);
    if GainToTrove(s, i, price).Some? {
      var op := SP.WithdrawGainToTrove(i, s.troves[i].status.Active?);
      GainMoved(s.pool, op);
      DepositsMoveTotal(s.pool, op);
      var c := Change(s.pool.collateral - SP.TryStep(s.pool, op).value.collateral, 0, 0, false);
      AdjustEffect(s, i, c, 0, price);
      SamePool(s, i, c, price, Adjust(s, i, c, 0, price).value);
    }
  }

  lemma SamePool(s: Ledger, i: nat, c: Change, price: nat, r: Ledger)
    requires i < |s.troves| && GoodTrove(s, s.troves[i]) && Adjusted(s, i, c, 0, price, r)
    ensures r.pool == s.pool
  {
    hide GoodTrove;
  }

  // ---- Redeeming ----

  // A visit goes through exactly when the trove's rewards can be applied, its collateral covers the lot, and it can be closed
  // or, where the hint is right, restaked.
  lemma RedeemOneExactly(s: Ledger, i: nat, max: nat, price: nat, hintNICR: nat, l: Limbo)
    requires Books(s, l) && l.coll >= 0 && l.debt >= 0 && l.count >= 0 && TokensMatchDebt(s)
    requires i < |s.troves| && s.troves[i].status.Active? && price > 0
    ensures GoodTrove(s, s.troves[i]) && |s.surplus| == |s.troves|
    ensures
      var t := s.troves[i];
      var net := AppliedDebt(s, t) - GAS_COMPENSATION;
      RedeemOne(s, i, max, price, hintNICR).Some? <==>
      && net >= 0 && RewardsPayable(s, t)
      && (if max >= net then FaceColl(net, price) <= EntireColl(s, t) && (s.canMint ==> Count(s) > 1)
          else
            && FaceColl(max, price) <= EntireColl(s, t)
            && (TakesPart(s, t, max, price, hintNICR) ==> hintNICR > 0 && (s.collSnapshot > 0 ==> s.stakesSnapshot > 0)))
  {
    hide ApplyPending, Books, TokensMatchDebt, Sum, EntireColl, AppliedDebt, RewardsPayable, ComputeNominalCR, FaceColl;
    GoodOf(s, l, i);
    ApplyExactly(s, i, l);
    ApplyPendingKeeps(s, i, l);
    AppliedAmounts(s, i);
    if ApplyPending(s, i).Some? {
      var a := ApplyPending(s, i).value;
      Balances(a, i, l);
      ReserveHeld(a, i, l);
      AppliedOnly(s, i);
      SameCount(s, a);
    }
  }

  // A redemption goes through exactly when the feed is not active, the system is at or above MCR, the amount is there and not
  // 0, the loop goes through, and the fee is less than the collateral drawn.
  lemma RedeemExactly(s: Ledger, queue: seq<nat>, amount: nat, price: nat, hintNICR: nat, maxIterations: nat, fee: nat,
                      feedInactive: bool)
    requires Inv(s) && Queue(s, queue) && price > 0
    ensures Visitable(s, queue) && Visitable(s, Visits(queue, maxIterations))
    ensures
      var loop := RedeemLoop(s, Visits(queue, maxIterations), amount, price, hintNICR);
      Redeem(s, queue, amount, price, hintNICR, maxIterations, fee, feedInactive).Some? <==>
      && feedInactive && RatioFrom(SystemColl(s), SystemDebt(s), price, MCR) && 0 < amount <= s.held
      && loop.Some? && fee < loop.value.drawn
    ensures Redeem(s, queue, amount, price, hintNICR, maxIterations, fee, feedInactive).Some? ==>
      var o := RedeemLoop(s, Visits(queue, maxIterations), amount, price, hintNICR).value;
      var r := Redeem(s, queue, amount, price, hintNICR, maxIterations, fee, feedInactive).value;
      && r.troves == o.s.troves && r.surplus == o.s.surplus && r.pool == o.s.pool && r.gasPool == o.s.gasPool
      && s.held - r.held == o.s.supply - r.supply == SystemDebt(o.s) - SystemDebt(r) == o.redeemed
      && SystemColl(o.s) - SystemColl(r) == o.drawn - (if s.pcvSet then 0 else fee)
      && r.stranded - o.s.stranded == if s.pcvSet then 0 else fee
  {
    hide Inv, RedeemLoop, Books, TokensMatchDebt, DebtClaimsCovered, Synced, ComputeCR, RatioFrom, AllGood, GoodTrove;
    InvBooks(s);
    var visited := Visits(queue, maxIterations);
    PrefixQueue(s, queue, |visited|);
    assert visited == queue[..|visited|];
    AllGoodInQueue(s, queue, NOTHING);
    RedeemLoopKeeps(s, visited, amount, price, hintNICR, NOTHING);
    RatioFromExactly(SystemColl(s), SystemDebt(s), price, MCR);
    if RedeemLoop(s, visited, amount, price, hintNICR).Some? {
      var o := RedeemLoop(s, visited, amount, price, hintNICR).value;
      RedeemedAtMost(s, visited, amount, price, hintNICR);
      InHand(o.s, o.drawn, o.redeemed);
    }
  }

  lemma RedeemedAtMost(s: Ledger, queue: seq<nat>, amount: nat, price: nat, hintNICR: nat)
    requires Inv(s) && Queue(s, queue) && Visitable(s, queue) && price > 0
    ensures RedeemLoop(s, queue, amount, price, hintNICR).Some? ==>
              RedeemLoop(s, queue, amount, price, hintNICR).value.redeemed <= amount
  {
    hide Inv, RedeemLoop, Books, OnlyThese, FaceValue, Sum;
    InvBooks(s);
    RedeemLoopEffect(s, queue, amount, price, hintNICR, NOTHING);
  }

  // What is in hand after the loop is still in the pools.
  lemma InHand(s: Ledger, coll: nat, debt: nat)
    requires Books(s, NOTHING.(coll := coll, debt := debt)) && TokensMatchDebt(s)
    ensures coll <= s.activeColl && debt <= s.activeDebt && s.held <= s.supply
  {
    hide Sum, SP.Valid, CollClaimsCovered, ErrorsBelowStakes, SurplusMatches, GoodTrove;
    SumNonNegative(Colls(s));
    SumNonNegative(Debts(s));
  }
}
