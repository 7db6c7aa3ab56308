/** The operations of borrowers, depositors and the PCV on the ledger. Borrowing fees are arbitrary inputs;
    that a fee stays within the caller's limit is not modelled. */
module Borrowing {
  import opened Common
  import opened TroveLedger
  import opened Liquidation
  import SP = StabilityPool

  // thusdToken.mint to an outside account, raising the active debt by `debt`.
  function Mint(s: Ledger, amount: nat, debt: nat): Option<Ledger> {
    if !s.canMint then None
    else Some(s.(supply := s.supply + amount, held := s.held + amount, activeDebt := s.activeDebt + debt))
  }

  // _triggerBorrowingFee: the fee is minted to the PCV, if there is one. Its debt is added later.
  function PayFee(s: Ledger, fee: nat): Option<Ledger> {
    if !s.pcvSet then Some(s.(unminted := s.unminted + fee)) else Mint(s, fee, 0)
  }

  // openTrove
  function Open(s: Ledger, i: nat, amount: nat, coll: nat, fee: nat, price: nat, feedActive: bool): Option<Ledger>
    requires i < |s.troves|
  {
    var recovery := RecoveryMode(s, price);
    var charged := if recovery then 0 else fee;
    var net := amount + charged;
    var debt := net + GAS_COMPENSATION;
    var icr := ComputeCR(coll, debt, price);
    if !feedActive || s.troves[i].status.Active? || net < MIN_NET_DEBT then None
    else if recovery && icr < CCR then None
    else if !recovery && (icr < MCR || ComputeCR(SystemColl(s) + coll, SystemDebt(s) + debt, price) < CCR) then None
    else if ComputeNominalCR(coll, debt) == 0 || !s.canMint then None
    else
      match (PayFee(s, charged), NewStake(s, coll))
      case (None, _) => None
      case (_, None) => None
      case (Some(a), Some(stake)) =>
        Some(With(a, i, Trove(Active, debt, coll, stake, s.LColl, s.LDebt))
             .(totalStakes := s.totalStakes + stake, activeColl := s.activeColl + coll, activeDebt := s.activeDebt + debt,
               held := a.held + amount, gasPool := s.gasPool + GAS_COMPENSATION, supply := a.supply + amount + GAS_COMPENSATION))
  }

  // The change an adjustment asks for: collateral in or out, debt up or down.
  datatype Change = Change(collIn: nat, collOut: nat, debt: nat, increase: bool)

  // _requireValidAdjustmentInCurrentMode
  function AdmitsAdjustment(s: Ledger, c: Change, coll: nat, debt: nat, newColl: nat, newDebt: nat, recovery: bool, price: nat)
    : bool
  {
    var newICR := ComputeCR(newColl, newDebt, price);
    if !s.canMint then true
    else if recovery then
      c.collOut == 0 && (c.increase ==> newICR >= CCR && newICR >= ComputeCR(coll, debt, price))
    else
      newICR >= MCR
      && SystemColl(s) + newColl >= coll && SystemDebt(s) + newDebt >= debt
      && ComputeCR(SystemColl(s) + newColl - coll, SystemDebt(s) + newDebt - debt, price) >= CCR
  }

  // _adjustTrove
  function Adjust(s: Ledger, i: nat, c: Change, fee: nat, price: nat): Option<Ledger>
    requires i < |s.troves| && GoodTrove(s, s.troves[i])
  {
    var recovery := RecoveryMode(s, price);
    var charged := if c.increase && !recovery then fee else 0;
    if (c.increase && c.debt == 0) || (c.collIn != 0 && c.collOut != 0)
       || (c.collIn == 0 && c.collOut == 0 && c.debt == 0) || !s.troves[i].status.Active? then None
    else
      match ApplyPending(s, i)
      case None => None
      case Some(a) => MakeChange(a, i, c, charged, recovery, price)
  }

  // The change itself, once the pending rewards are applied.
  function MakeChange(s: Ledger, i: nat, c: Change, charged: nat, recovery: bool, price: nat): Option<Ledger>
    requires i < |s.troves|
  {
    var t := s.troves[i];
    if t.coll < c.collOut || (!c.increase && t.debt < c.debt) then None
    else
      var newColl := t.coll + c.collIn - c.collOut;
      var newDebt := if c.increase then t.debt + c.debt + charged else t.debt - c.debt;
      if !AdmitsAdjustment(s, c, t.coll, t.debt, newColl, newDebt, recovery, price) then None
      else if !c.increase && c.debt > 0 && (newDebt < GAS_COMPENSATION + MIN_NET_DEBT || s.held < c.debt) then None
      else if ComputeNominalCR(newColl, newDebt) == 0 then None
      else
        match SetTrove(s, i, newColl, newDebt)
        case None => None
        case Some(b) => MoveTokens(b, c, charged)
  }

  // _moveTokensAndCollateralfromAdjustment, and the fee
  function MoveTokens(s: Ledger, c: Change, charged: nat): Option<Ledger> {
    if s.activeColl + c.collIn < c.collOut then None
    else
      var a := s.(activeColl := s.activeColl + c.collIn - c.collOut);
      if c.increase then
        match PayFee(a, charged)
        case None => None
        case Some(b) => Mint(b, c.debt, c.debt + charged)
      else if a.activeDebt < c.debt || a.held < c.debt || a.supply < c.debt then None
      else Some(a.(activeDebt := a.activeDebt - c.debt, held := a.held - c.debt, supply := a.supply - c.debt))
  }

  // closeTrove
  function Close(s: Ledger, i: nat, price: nat): Option<Ledger>
    requires i < |s.troves| && GoodTrove(s, s.troves[i])
  {
    if !s.troves[i].status.Active? || (s.canMint && RecoveryMode(s, price)) then None
    else
      match ApplyPending(s, i)
      case None => None
      case Some(a) =>
        var t := a.troves[i];
        if t.debt < GAS_COMPENSATION || a.held < t.debt - GAS_COMPENSATION then None
        else if SystemColl(a) < t.coll || SystemDebt(a) < t.debt then None
        else if a.canMint && ComputeCR(SystemColl(a) - t.coll, SystemDebt(a) - t.debt, price) < CCR then None
        else
          match CloseOut(a, i, ClosedByOwner)
          case None => None
          case Some(b) =>
            if b.activeDebt < t.debt || b.gasPool < GAS_COMPENSATION || b.supply < t.debt || b.activeColl < t.coll then None
            else
              Some(b.(activeDebt := b.activeDebt - t.debt, held := b.held - (t.debt - GAS_COMPENSATION),
                      gasPool := b.gasPool - GAS_COMPENSATION, supply := b.supply - t.debt, activeColl := b.activeColl - t.coll))
  }

  // claimCollateral
  function ClaimSurplus(s: Ledger, i: nat): Option<Ledger>
    requires i < |s.surplus|
  {
    if s.surplus[i] == 0 || s.surplusColl < s.surplus[i] then None
    else Some(s.(surplus := s.surplus[i := 0], surplusColl := s.surplusColl - s.surplus[i]))
  }

  // ---- Deposits: thUSD moves between its holders and the Stability Pool ----

  function ProvideToSP(s: Ledger, i: nat, amount: nat): Option<Ledger>
    requires SP.Valid(s.pool)
  {
    if s.held < amount then None
    else
      match SP.TryStep(s.pool, SP.ProvideToSP(i, amount))
      case None => None
      case Some(q) => Some(s.(pool := q, held := s.held - amount))
  }

  function WithdrawFromSP(s: Ledger, i: nat, amount: nat, allowed: bool): Option<Ledger>
    requires SP.Valid(s.pool)
  {
    match SP.TryStep(s.pool, SP.WithdrawFromSP(i, amount, allowed))
    case None => None
    case Some(q) => if q.total > s.pool.total then None else Some(s.(pool := q, held := s.held + (s.pool.total - q.total)))
  }

  // withdrawCollateralGainToTrove: the gain becomes collateral of the depositor's own trove.
  function GainToTrove(s: Ledger, i: nat, price: nat): Option<Ledger>
    requires SP.Valid(s.pool) && i < |s.troves| && GoodTrove(s, s.troves[i])
  {
    match SP.TryStep(s.pool, SP.WithdrawGainToTrove(i, s.troves[i].status.Active?))
    case None => None
    case Some(q) =>
      if q.collateral > s.pool.collateral then None
      else
        match Adjust(s, i, Change(s.pool.collateral - q.collateral, 0, 0, false), 0, price)
        case None => None
        case Some(r) => Some(r.(pool := q))
  }

  // ---- The PCV's bootstrap loan, and the mint list ----

  function TakeLoan(s: Ledger, amount: nat): Option<Ledger> {
    match Mint(s, amount, 0)
    case None => None
    case Some(a) => Some(a.(loan := s.loan + amount))
  }

  function PayLoan(s: Ledger, amount: nat): Option<Ledger> {
    var paid := Min(amount, s.loan);
    if s.loan == 0 || s.held < amount || s.supply < paid then None
    else Some(s.(loan := s.loan - paid, held := s.held - paid, supply := s.supply - paid))
  }

  function SetMintList(s: Ledger, canMint: bool): Ledger { s.(canMint := canMint) }

  // ---- What they keep ----

  // Opening a trove keeps all books, and never leads from Normal to Recovery Mode.
  lemma OpenKeeps(s: Ledger, i: nat, amount: nat, coll: nat, fee: nat, price: nat, feedActive: bool)
    requires Inv(s) && i < |s.troves|
    ensures Open(s, i, amount, coll, fee, price, feedActive).Some? ==>
      var r := Open(s, i, amount, coll, fee, price, feedActive).value;
      && Inv(r) && r.pcvSet == s.pcvSet
      && (DebtClaimsCovered(s) ==> DebtClaimsCovered(r)) && (Synced(s) ==> Synced(r))
      && (!RecoveryMode(s, price) ==> !RecoveryMode(r, price))
  {
    hide Sum, CollClaim, DebtClaim, NewStake, SP.Valid, ComputeCR, ComputeNominalCR;
    if Open(s, i, amount, coll, fee, price, feedActive).Some? {
      var r := Open(s, i, amount, coll, fee, price, feedActive).value;
      assert GoodTrove(s, s.troves[i]);
      ReplaceSums(s, r, i, r.troves[i]);
      UpToDateClaims(s, s.troves[i]);
      UpToDateClaims(s, r.troves[i]);
      ReplaceGood(s, r, i);
    }
  }

  // So do adjusting one, whatever the change, and closing one, while the contract is on the mint list.
  lemma AdjustKeeps(s: Ledger, i: nat, c: Change, fee: nat, price: nat)
    requires Inv(s) && i < |s.troves|
    ensures GoodTrove(s, s.troves[i])
    ensures Adjust(s, i, c, fee, price).Some? ==>
      var r := Adjust(s, i, c, fee, price).value;
      && Inv(r) && r.pool == s.pool && r.pcvSet == s.pcvSet
      && (Synced(s) ==> Synced(r) && (DebtClaimsCovered(s) ==> DebtClaimsCovered(r)))
      && (s.canMint && !RecoveryMode(s, price) ==> !RecoveryMode(r, price))
  {
    hide MakeChange, ApplyPending, Books, TokensMatchDebt, DebtClaimsCovered, Synced, ComputeCR, EntireColl, AppliedDebt;
    InvBooks(s);
    BooksMeanGoodTrove(s, i);
    ApplyPendingKeeps(s, i, NOTHING);
    if Adjust(s, i, c, fee, price).Some? {
      var charged := if c.increase && !RecoveryMode(s, price) then fee else 0;
      MakeChangeKeeps(ApplyPending(s, i).value, i, c, charged, RecoveryMode(s, price), price);
    }
  }

  lemma MakeChangeKeeps(s: Ledger, i: nat, c: Change, charged: nat, recovery: bool, price: nat)
    requires Books(s, NOTHING) && TokensMatchDebt(s) && i < |s.troves| && (c.increase || charged == 0)
    requires s.troves[i].status.Active? && s.troves[i].collSnapshot == s.LColl
    ensures MakeChange(s, i, c, charged, recovery, price).Some? ==>
      var r := MakeChange(s, i, c, charged, recovery, price).value;
      && Inv(r) && r.pool == s.pool && r.pcvSet == s.pcvSet
      && (Synced(s) ==> Synced(r)) && (s.troves[i].debtSnapshot == s.LDebt && DebtClaimsCovered(s) ==> DebtClaimsCovered(r))
      && (s.canMint && !recovery ==> !RecoveryMode(r, price))
  {
    hide SetTrove, Books, TokensMatchDebt, DebtClaimsCovered, Synced, ComputeCR, ComputeNominalCR;
    BooksMeanGoodTrove(s, i);
    if MakeChange(s, i, c, charged, recovery, price).Some? {
      var t := s.troves[i];
      var newColl := t.coll + c.collIn - c.collOut;
      var newDebt := if c.increase then t.debt + c.debt + charged else t.debt - c.debt;
      SetTroveKeeps(s, i, newColl, newDebt, NOTHING);
      MoveTokensKeeps(SetTrove(s, i, newColl, newDebt).value, c, charged);
    }
  }

  lemma BooksMeanGoodTrove(s: Ledger, i: nat)
    requires Books(s, NOTHING) && i < |s.troves|
    ensures GoodTrove(s, s.troves[i])
  {
  }

  function DebtRise(c: Change, charged: nat): int {
    if c.increase then c.debt + charged else 0 - c.debt
  }

  lemma MoveTokensKeeps(s: Ledger, c: Change, charged: nat)
    requires (c.increase || charged == 0)
    requires Books(s, Limbo(c.collOut - c.collIn, -DebtRise(c, charged), 0, 0))
    requires TokensMatchDebt(s)
    ensures MoveTokens(s, c, charged).Some? ==>
      var r := MoveTokens(s, c, charged).value;
      && Inv(r) && r.pool == s.pool && r.pcvSet == s.pcvSet
      && (DebtClaimsCovered(s) ==> DebtClaimsCovered(r)) && (Synced(s) ==> Synced(r))
      && SystemColl(r) == SystemColl(s) + c.collIn - c.collOut
      && SystemDebt(r) == SystemDebt(s) + DebtRise(c, charged)
  {
    hide Sum, SP.Valid;
    if MoveTokens(s, c, charged).Some? {
      SameBooks(s, MoveTokens(s, c, charged).value);
    }
  }

  lemma CloseKeeps(s: Ledger, i: nat, price: nat)
    requires Inv(s) && i < |s.troves|
    ensures GoodTrove(s, s.troves[i])
    ensures Close(s, i, price).Some? ==>
      var r := Close(s, i, price).value;
      && Inv(r) && r.pcvSet == s.pcvSet
      && (Synced(s) ==> Synced(r) && (DebtClaimsCovered(s) ==> DebtClaimsCovered(r)))
      && (s.canMint && !RecoveryMode(s, price) ==> !RecoveryMode(r, price))
  {
    hide CloseOut, ApplyPending, Sum, CollClaim, DebtClaim, ComputeCR, SP.Valid;
    ApplyPendingKeeps(s, i, NOTHING);
    if Close(s, i, price).Some? {
      var a := ApplyPending(s, i).value;
      CloseOutKeeps(a, i, ClosedByOwner, NOTHING);
      SameBooks(CloseOut(a, i, ClosedByOwner).value, Close(s, i, price).value);
    }
  }

  lemma ClaimSurplusKeeps(s: Ledger, i: nat)
    requires Inv(s) && i < |s.surplus|
    ensures ClaimSurplus(s, i).Some? ==>
      var r := ClaimSurplus(s, i).value;
      && Inv(r) && r.pcvSet == s.pcvSet && (DebtClaimsCovered(s) ==> DebtClaimsCovered(r)) && (Synced(s) ==> Synced(r))
  {
    hide Sum, SP.Valid;
    if ClaimSurplus(s, i).Some? {
      SumUpdate(s.surplus, i, 0);
      SameBooks(s, ClaimSurplus(s, i).value);
    }
  }

  // Any change of tokens alone that balances.
  lemma TokenChangeKeeps(s: Ledger, r: Ledger)
    requires Inv(s) && TokensMatchDebt(r) && SP.Valid(r.pool) && |r.pool.deposits| == |s.pool.deposits|
    requires r == s.(pool := r.pool, held := r.held, supply := r.supply, loan := r.loan, canMint := r.canMint)
    ensures Inv(r) && (DebtClaimsCovered(s) ==> DebtClaimsCovered(r)) && (Synced(s) ==> Synced(r))
  {
    hide Sum, SP.Valid;
    SameBooks(s, r);
  }

  lemma DepositsMoveTotal(p: SP.Pool, op: SP.Op)
    requires SP.Valid(p) && SP.TryStep(p, op).Some?
    ensures op.ProvideToSP? ==> SP.TryStep(p, op).value.total == p.total + op.amount
    ensures op.WithdrawFromSP? ==> SP.TryStep(p, op).value.total <= p.total
    ensures op.WithdrawGainToTrove? ==>
              SP.TryStep(p, op).value.total == p.total && SP.TryStep(p, op).value.collateral < p.collateral
  {
    hide SP.Compounded, SP.CollateralGain;
  }

  lemma ProvideKeeps(s: Ledger, i: nat, amount: nat)
    requires Inv(s)
    ensures ProvideToSP(s, i, amount).Some? ==>
      var r := ProvideToSP(s, i, amount).value;
      && Inv(r) && r.pcvSet == s.pcvSet && (DebtClaimsCovered(s) ==> DebtClaimsCovered(r)) && (Synced(s) ==> Synced(r))
  {
    hide SP.TryStep, SP.Valid, TrovesMatchPools, CollClaimsCovered, DebtClaimsCovered, Synced, SurplusMatches;
    if ProvideToSP(s, i, amount).None? { return; }
    DepositsMoveTotal(s.pool, SP.ProvideToSP(i, amount));
    TokenChangeKeeps(s, ProvideToSP(s, i, amount).value);
  }

  lemma WithdrawKeeps(s: Ledger, i: nat, amount: nat, allowed: bool)
    requires Inv(s)
    ensures WithdrawFromSP(s, i, amount, allowed).Some? ==>
      var r := WithdrawFromSP(s, i, amount, allowed).value;
      && Inv(r) && r.pcvSet == s.pcvSet && (DebtClaimsCovered(s) ==> DebtClaimsCovered(r)) && (Synced(s) ==> Synced(r))
  {
    hide SP.TryStep, SP.Valid, TrovesMatchPools, CollClaimsCovered, DebtClaimsCovered, Synced, SurplusMatches;
    if WithdrawFromSP(s, i, amount, allowed).None? { return; }
    DepositsMoveTotal(s.pool, SP.WithdrawFromSP(i, amount, allowed));
    TokenChangeKeeps(s, WithdrawFromSP(s, i, amount, allowed).value);
  }

  lemma GainMoved(p: SP.Pool, op: SP.Op)
    requires SP.Valid(p) && op.WithdrawGainToTrove? && SP.TryStep(p, op).Some?
    ensures op.account < |p.deposits| && SP.GoodDeposit(p, p.deposits[op.account])
    ensures p.collateral - SP.TryStep(p, op).value.collateral == SP.CollateralGain(p, p.deposits[op.account])
  {
    hide SP.Compounded, SP.CollateralGain;
  }

  lemma GainToTroveKeeps(s: Ledger, i: nat, price: nat)
    requires Inv(s) && i < |s.troves|
    ensures GoodTrove(s, s.troves[i])
    ensures GainToTrove(s, i, price).Some? ==>
      var r := GainToTrove(s, i, price).value;
      && Inv(r) && r.pcvSet == s.pcvSet && (Synced(s) ==> Synced(r) && (DebtClaimsCovered(s) ==> DebtClaimsCovered(r)))
  {
    hide SP.TryStep, SP.Valid, TrovesMatchPools, CollClaimsCovered, DebtClaimsCovered, Synced, SurplusMatches, Adjust;
    var op := SP.WithdrawGainToTrove(i, s.troves[i].status.Active?);
    BooksMeanGoodTrove(s, i);
    if GainToTrove(s, i, price).None? { return; }
    DepositsMoveTotal(s.pool, op);
    var q := SP.TryStep(s.pool, op).value;
    var c := Change(s.pool.collateral - q.collateral, 0, 0, false);
    AdjustKeeps(s, i, c, 0, price);
    TokenChangeKeeps(Adjust(s, i, c, 0, price).value, GainToTrove(s, i, price).value);
  }
}
