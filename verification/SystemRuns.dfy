/** The whole system as one state machine: every operation of borrowers, depositors, liquidators, redeemers
    and the PCV, in any order, with any arguments. */
module SystemRuns {
  import opened Common
  import opened TroveLedger
  import opened Liquidation
  import opened Borrowing
  import opened Redemption
  import SP = StabilityPool

  datatype Op =
    | OpenTrove(i: nat, amount: nat, coll: nat, fee: nat, price: nat, feedActive: bool)
    | AdjustTrove(i: nat, change: Change, fee: nat, price: nat)
    | CloseTrove(i: nat, price: nat)
    | LiquidateTroves(ids: seq<nat>, price: nat)
    | RedeemCollateral(queue: seq<nat>, amount: nat, price: nat, hintNICR: nat, maxIterations: nat, fee: nat, feedInactive: bool)
    | ClaimCollateral(i: nat)
    | DepositToSP(i: nat, amount: nat)
    | WithdrawDeposit(i: nat, amount: nat, allowed: bool)
    | MoveGainToTrove(i: nat, price: nat)
    | BorrowLoan(amount: nat)
    | RepayLoan(amount: nat)
    | ChangeMintList(canMint: bool)

  // Arguments no transaction can have: an account out of range, a zero price, a queue that is not a list of
  // distinct active troves.
  predicate WellFormed(s: Ledger, op: Op) {
    match op
    case OpenTrove(i, _, _, _, price, _) => i < |s.troves| && price > 0
    case AdjustTrove(i, _, _, price) => i < |s.troves| && price > 0
    case CloseTrove(i, price) => i < |s.troves| && price > 0
    case LiquidateTroves(_, price) => price > 0
    case RedeemCollateral(queue, _, price, _, _, _, _) => Queue(s, queue) && price > 0
    case ClaimCollateral(i) => i < |s.troves|
    case MoveGainToTrove(i, price) => i < |s.troves| && price > 0
    case _ => true
  }

  function TryStep(s: Ledger, op: Op): Option<Ledger>
    requires Inv(s) && WellFormed(s, op)
  {
    InvMeans(s, op);
    match op
    case OpenTrove(i, amount, coll, fee, price, feedActive) => Open(s, i, amount, coll, fee, price, feedActive)
    case AdjustTrove(i, change, fee, price) => Adjust(s, i, change, fee, price)
    case CloseTrove(i, price) => Close(s, i, price)
    case LiquidateTroves(ids, price) => Liquidate(s, ids, price)
    case RedeemCollateral(queue, amount, price, hintNICR, maxIterations, fee, feedInactive) =>
      Redeem(s, queue, amount, price, hintNICR, maxIterations, fee, feedInactive)
    case ClaimCollateral(i) => ClaimSurplus(s, i)
    case DepositToSP(i, amount) => ProvideToSP(s, i, amount)
    case WithdrawDeposit(i, amount, allowed) => WithdrawFromSP(s, i, amount, allowed)
    case MoveGainToTrove(i, price) => GainToTrove(s, i, price)
    case BorrowLoan(amount) => TakeLoan(s, amount)
    case RepayLoan(amount) => PayLoan(s, amount)
    case ChangeMintList(canMint) => Some(SetMintList(s, canMint))
  }

  lemma InvMeans(s: Ledger, op: Op)
    requires Inv(s) && WellFormed(s, op)
    ensures SP.Valid(s.pool) && |s.surplus| == |s.troves|
    ensures forall i | 0 <= i < |s.troves| :: GoodTrove(s, s.troves[i])
    ensures op.RedeemCollateral? ==> Visitable(s, op.queue)
  {
    hide SP.Valid, Sum;
  }

  // Every operation that succeeds keeps the invariant. As long as the accumulators are in step it also keeps
  // the debt claims covered, and only a liquidation can take them out of step.
  lemma StepKeeps(s: Ledger, op: Op)
    requires Inv(s) && WellFormed(s, op)
    ensures TryStep(s, op).Some? ==>
      var r := TryStep(s, op).value;
      && Inv(r) && r.pcvSet == s.pcvSet
      && (Synced(s) && DebtClaimsCovered(s) ==> DebtClaimsCovered(r))
      && (Synced(s) && !op.LiquidateTroves? ==> Synced(r))
  {
    hide Inv, Synced, DebtClaimsCovered, SP.Valid, Open, Adjust, Close, Liquidate, Redeem, ClaimSurplus, ProvideToSP;
    hide WithdrawFromSP, GainToTrove, Settled, Sum;
    InvMeans(s, op);
    match op
    case OpenTrove(i, amount, coll, fee, price, feedActive) => OpenKeeps(s, i, amount, coll, fee, price, feedActive);
    case AdjustTrove(i, change, fee, price) => AdjustKeeps(s, i, change, fee, price);
    case CloseTrove(i, price) => CloseKeeps(s, i, price);
    case LiquidateTroves(ids, price) => LiquidationKeeps(s, ids, price);
    case RedeemCollateral(queue, amount, price, hintNICR, maxIterations, fee, feedInactive) =>
      RedeemKeeps(s, queue, amount, price, hintNICR, maxIterations, fee, feedInactive);
    case ClaimCollateral(i) => ClaimSurplusKeeps(s, i);
    case DepositToSP(i, amount) => ProvideKeeps(s, i, amount);
    case WithdrawDeposit(i, amount, allowed) => WithdrawKeeps(s, i, amount, allowed);
    case MoveGainToTrove(i, price) => GainToTroveKeeps(s, i, price);
    case BorrowLoan(amount) => LoanKeeps(s, op);
    case RepayLoan(amount) => LoanKeeps(s, op);
    case ChangeMintList(canMint) => LoanKeeps(s, op);
  }

  lemma LiquidationKeeps(s: Ledger, ids: seq<nat>, price: nat)
    requires Inv(s) && price > 0
    ensures Liquidate(s, ids, price).Some? ==>
      Inv(Liquidate(s, ids, price).value) && Liquidate(s, ids, price).value.pcvSet == s.pcvSet
      && (DebtClaimsCovered(s) ==> DebtClaimsCovered(Liquidate(s, ids, price).value))
  {
    hide Books, TokensMatchDebt, DebtClaimsCovered, Liquidate, Batch;
    LiquidateKeepsInv(s, ids, price);
  }

  lemma LoanKeeps(s: Ledger, op: Op)
    requires Inv(s) && WellFormed(s, op) && (op.BorrowLoan? || op.RepayLoan? || op.ChangeMintList?)
    ensures TryStep(s, op).Some? ==>
      var r := TryStep(s, op).value;
      Inv(r) && r.pcvSet == s.pcvSet && (DebtClaimsCovered(s) ==> DebtClaimsCovered(r)) && (Synced(s) ==> Synced(r))
  {
    hide Books, DebtClaimsCovered, Synced;
    if TryStep(s, op).Some? {
      InvPool(s);
      TokenChangeKeeps(s, TryStep(s, op).value);
    }
  }

  lemma InvPool(s: Ledger)
    requires Inv(s)
    ensures SP.Valid(s.pool) && |s.pool.deposits| == |s.troves|
  {
  }

  // ---- Runs ----

  // A transaction that reverts, or is not well-formed, leaves the state as it was.
  function Step(s: Ledger, op: Op): (r: Ledger)
    requires Inv(s)
    ensures Inv(r) && r.pcvSet == s.pcvSet
  {
    hide Inv;
    if !WellFormed(s, op) then s
    else
      StepKeeps(s, op);
      match TryStep(s, op)
      case None => s
      case Some(q) => q
  }

  function Run(s: Ledger, ops: seq<Op>): (r: Ledger)
    requires Inv(s)
    ensures Inv(r) && r.pcvSet == s.pcvSet
    decreases |ops|
  {
    hide Inv, Step;
    if ops == [] then s else Run(Step(s, ops[0]), ops[1..])
  }

  // What a pool holds beyond the claims on it, in 1e-18 parts: at least the carried error, which stays below
  // totalStakes at the last redistribution, and at most that many plus one unit for every reward application,
  // however many redistributions there have been.
  predicate GapWithin(gap: int, error: nat, s: Ledger) {
    && error <= gap <= s.lastStakes + (PRECISION - 1) * s.applications
    && (s.lastStakes > 0 ==> error < s.lastStakes && gap < s.lastStakes + (PRECISION - 1) * s.applications)
  }

  lemma EmptyInv(accounts: nat, pcvSet: bool)
    ensures Inv(EmptyLedger(accounts, pcvSet)) && Synced(EmptyLedger(accounts, pcvSet))
    ensures DebtClaimsCovered(EmptyLedger(accounts, pcvSet))
  {
    hide Sum, SP.Valid;
    var s := EmptyLedger(accounts, pcvSet);
    EmptySums(s);
    EmptyDeposits(accounts);
    SumZero(s.surplus);
  }

  lemma EmptySums(s: Ledger)
    requires forall i | 0 <= i < |s.troves| :: s.troves[i] == Trove(NonExistent, 0, 0, 0, 0, 0)
    ensures Sum(Stakes(s)) == Sum(Colls(s)) == Sum(Debts(s)) == Count(s) == 0
    ensures Sum(CollClaims(s)) == Sum(DebtClaims(s)) == 0
  {
    hide Sum;
    SumZero(Stakes(s));
    SumZero(Colls(s));
    SumZero(Debts(s));
    SumZero(CollClaims(s));
    SumZero(DebtClaims(s));
    SumZero(Actives(s.troves));
  }

  lemma EmptyDeposits(accounts: nat)
    ensures SP.Valid(SP.EmptyPool(accounts))
  {
  }

  // In every state of every run: the active pool holds exactly the troves' stored collateral and debt, all
  // thUSD is accounted for by debt, loan and unpaid fees, the gas pool holds 200 thUSD for every active
  // trove, and the default pool can pay every pending collateral reward.
  lemma EveryRunKeepsTheBooks(accounts: nat, pcvSet: bool, ops: seq<Op>)
    ensures Inv(EmptyLedger(accounts, pcvSet))
    ensures
      var s := Run(EmptyLedger(accounts, pcvSet), ops);
      && s.activeColl == Sum(Colls(s)) + s.stranded && s.activeDebt == Sum(Debts(s))
      && s.supply == s.held + s.pool.total + s.gasPool
      && s.supply + s.unminted == SystemDebt(s) + s.loan
      && (pcvSet ==> s.unminted == 0 && s.stranded == 0)
      && s.gasPool == GAS_COMPENSATION * Count(s)
      && s.surplusColl == Sum(s.surplus)
      && s.totalStakes == Sum(Stakes(s))
      && GapWithin(PRECISION * s.defaultColl - Sum(CollClaims(s)), s.collError, s)
      && forall i | 0 <= i < |s.troves| :: PendingColl(s, s.troves[i]) <= s.defaultColl
  {
    hide Run, SP.Valid, Sum, PendingColl;
    EmptyInv(accounts, pcvSet);
    var s := Run(EmptyLedger(accounts, pcvSet), ops);
    forall i | 0 <= i < |s.troves| ensures PendingColl(s, s.troves[i]) <= s.defaultColl {
      PendingCollInPool(s, i);
    }
  }

  // ---- Pending debt ----

  // The two accumulators stay in step at every state of the run.
  ghost predicate StaysSynced(s: Ledger, ops: seq<Op>)
    requires Inv(s)
    decreases |ops|
  {
    Synced(s) && (ops != [] ==> StaysSynced(Step(s, ops[0]), ops[1..]))
  }

  // As long as they do, the default pool can also pay every pending debt.
  lemma {:induction false} SyncedRunPaysDebt(s: Ledger, ops: seq<Op>)
    requires Inv(s) && StaysSynced(s, ops) && DebtClaimsCovered(s)
    ensures DebtClaimsCovered(Run(s, ops))
    ensures GapWithin(PRECISION * Run(s, ops).defaultDebt - Sum(DebtClaims(Run(s, ops))), Run(s, ops).debtError, Run(s, ops))
    ensures forall i | 0 <= i < |Run(s, ops).troves| ::
              PendingDebt(Run(s, ops), Run(s, ops).troves[i]) <= Run(s, ops).defaultDebt
    decreases |ops|
  {
    hide Inv, DebtClaimsCovered, Synced, PendingDebt, GapWithin, Sum, DebtClaims, Step;
    if ops == [] {
      CoveredPays(s);
    } else {
      StepKeepsDebt(s, ops[0]);
      SyncedRunPaysDebt(Step(s, ops[0]), ops[1..]);
    }
  }

  lemma CoveredPays(s: Ledger)
    requires Inv(s) && DebtClaimsCovered(s)
    ensures GapWithin(PRECISION * s.defaultDebt - Sum(DebtClaims(s)), s.debtError, s)
    ensures forall i | 0 <= i < |s.troves| :: PendingDebt(s, s.troves[i]) <= s.defaultDebt
  {
    hide Sum, SP.Valid, PendingDebt;
    forall i | 0 <= i < |s.troves| ensures PendingDebt(s, s.troves[i]) <= s.defaultDebt {
      PendingDebtInPool(s, i);
    }
  }

  lemma StepKeepsDebt(s: Ledger, op: Op)
    requires Inv(s) && Synced(s) && DebtClaimsCovered(s)
    ensures DebtClaimsCovered(Step(s, op))
  {
    hide Inv, Synced, DebtClaimsCovered, TryStep;
    if WellFormed(s, op) {
      StepKeeps(s, op);
    }
  }
}
