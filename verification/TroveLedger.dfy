/** The troves, the four pools of collateral and debt and the thUSD in existence, as the contracts keep
    them: integers, truncating division, pending redistribution rewards with carried errors. */
module TroveLedger {
  import opened Common
  import SP = StabilityPool

  const GAS_COMPENSATION: nat := 200 * PRECISION
  const MIN_NET_DEBT: nat := 1800 * PRECISION
  const ONE_HUNDRED_PERCENT: nat := PRECISION
  const MCR: nat := 1_100_000_000_000_000_000
  const CCR: nat := 1_500_000_000_000_000_000
  const PERCENT_DIVISOR: nat := 200
  const NICR_PRECISION: nat := 100 * PRECISION
  const MAX_UINT: nat := 0x1_0000_0000_0000_0000_0000_0000_0000_0000_0000_0000_0000_0000_0000_0000_0000_0000 - 1

  datatype Status = NonExistent | Active | ClosedByOwner | ClosedByLiquidation | ClosedByRedemption

  datatype Trove = Trove(status: Status, debt: nat, coll: nat, stake: nat, collSnapshot: nat, debtSnapshot: nat)

  // Accounts are indices, as in the Stability Pool. `held` is the thUSD outside the Stability Pool and the
  // gas pool, whoever holds it. `unminted` is fee debt for which no thUSD was minted (no PCV set), and
  // `loan` the PCV's bootstrap loan, minted without debt. `applications` counts reward applications, and
  // `lastStakes` is totalStakes at the last redistribution, 0 before any.
  datatype Ledger = Ledger(
    troves: seq<Trove>, LColl: nat, LDebt: nat, collError: nat, debtError: nat,
    totalStakes: nat, stakesSnapshot: nat, collSnapshot: nat,
    activeColl: nat, activeDebt: nat, defaultColl: nat, defaultDebt: nat,
    pool: SP.Pool, surplus: seq<nat>, surplusColl: nat,
    held: nat, gasPool: nat, supply: nat, unminted: nat, loan: nat, stranded: nat,
    pcvSet: bool, canMint: bool, applications: nat, lastStakes: nat)

  function EmptyLedger(accounts: nat, pcvSet: bool): Ledger {
    Ledger(seq(accounts, _ => Trove(NonExistent, 0, 0, 0, 0, 0)), 0, 0, 0, 0, 0, 0, 0, 0, 0, 0, 0,
           SP.EmptyPool(accounts), seq(accounts, _ => 0), 0, 0, 0, 0, 0, 0, 0, pcvSet, true, 0, 0)
  }

  // LiquityMath._computeCR and _computeNominalCR
  function ComputeCR(coll: nat, debt: nat, price: nat): nat {
    if debt > 0 then coll * price / debt else MAX_UINT
  }

  function ComputeNominalCR(coll: nat, debt: nat): nat {
    if debt > 0 then coll * NICR_PRECISION / debt else MAX_UINT
  }

  function SystemColl(s: Ledger): nat { s.activeColl + s.defaultColl }

  function SystemDebt(s: Ledger): nat { s.activeDebt + s.defaultDebt }

  function TCR(s: Ledger, price: nat): nat { ComputeCR(SystemColl(s), SystemDebt(s), price) }

  predicate RecoveryMode(s: Ledger, price: nat) { TCR(s, price) < CCR }

  // ---- What the state always looks like ----

  ghost predicate GoodTrove(s: Ledger, t: Trove) {
    && t.collSnapshot <= s.LColl && t.debtSnapshot <= s.LDebt
    && (t.status.Active? ==> t.debt >= MIN_NET_DEBT + GAS_COMPENSATION)
    && (!t.status.Active? ==> t.debt == 0 && t.coll == 0 && t.stake == 0)
  }

  function PendingColl(s: Ledger, t: Trove): nat
    requires GoodTrove(s, t)
  {
    if t.status.Active? then t.stake * (s.LColl - t.collSnapshot) / PRECISION else 0
  }

  function PendingDebt(s: Ledger, t: Trove): nat
    requires GoodTrove(s, t)
  {
    if t.status.Active? then t.stake * (s.LDebt - t.debtSnapshot) / PRECISION else 0
  }

  function EntireColl(s: Ledger, t: Trove): nat
    requires GoodTrove(s, t)
  {
    t.coll + PendingColl(s, t)
  }

  function EntireDebt(s: Ledger, t: Trove): nat
    requires GoodTrove(s, t)
  {
    t.debt + PendingDebt(s, t)
  }

  function Stakes(s: Ledger): (xs: seq<int>)
    ensures |xs| == |s.troves| && forall i | 0 <= i < |xs| :: xs[i] == s.troves[i].stake
  {
    seq(|s.troves|, i requires 0 <= i < |s.troves| => s.troves[i].stake as int)
  }

  function Colls(s: Ledger): (xs: seq<int>)
    ensures |xs| == |s.troves| && forall i | 0 <= i < |xs| :: xs[i] == s.troves[i].coll
  {
    seq(|s.troves|, i requires 0 <= i < |s.troves| => s.troves[i].coll as int)
  }

  function Debts(s: Ledger): (xs: seq<int>)
    ensures |xs| == |s.troves| && forall i | 0 <= i < |xs| :: xs[i] == s.troves[i].debt
  {
    seq(|s.troves|, i requires 0 <= i < |s.troves| => s.troves[i].debt as int)
  }

  function CollClaim(s: Ledger, t: Trove): int { t.stake * (s.LColl - t.collSnapshot) }

  function DebtClaim(s: Ledger, t: Trove): int { t.stake * (s.LDebt - t.debtSnapshot) }

  function CollClaims(s: Ledger): (xs: seq<int>)
    ensures |xs| == |s.troves| && forall i | 0 <= i < |xs| :: xs[i] == CollClaim(s, s.troves[i])
  {
    seq(|s.troves|, i requires 0 <= i < |s.troves| => CollClaim(s, s.troves[i]))
  }

  function DebtClaims(s: Ledger): (xs: seq<int>)
    ensures |xs| == |s.troves| && forall i | 0 <= i < |xs| :: xs[i] == DebtClaim(s, s.troves[i])
  {
    seq(|s.troves|, i requires 0 <= i < |s.troves| => DebtClaim(s, s.troves[i]))
  }

  function Alive(t: Trove): int { if t.status.Active? then 1 else 0 }

  function Actives(troves: seq<Trove>): (xs: seq<int>)
    ensures |xs| == |troves| && forall i | 0 <= i < |xs| :: xs[i] == Alive(troves[i])
  {
    seq(|troves|, i requires 0 <= i < |troves| => Alive(troves[i]))
  }

  // TroveOwners.length, which is also the size of the sorted list.
  function Count(s: Ledger): int { Sum(Actives(s.troves)) }

  // What a liquidation in progress has taken out of the troves and not yet placed.
  datatype Limbo = Limbo(coll: int, debt: int, count: int, surplus: int)

  const NOTHING := Limbo(0, 0, 0, 0)

  ghost predicate TrovesMatchPools(s: Ledger, l: Limbo) {
    && (forall i | 0 <= i < |s.troves| :: GoodTrove(s, s.troves[i]))
    && s.totalStakes == Sum(Stakes(s))
    && s.activeColl == Sum(Colls(s)) + l.coll + s.stranded
    && s.activeDebt == Sum(Debts(s)) + l.debt
    && s.gasPool == GAS_COMPENSATION * (Count(s) + l.count)
  }

  // The rewards pending on all troves, and the carried error, are in the default pool; what is in it
  // beyond them is less than one unit for every reward application so far.
  ghost predicate CollClaimsCovered(s: Ledger) {
    var slack := PRECISION * s.defaultColl - Sum(CollClaims(s)) - s.collError;
    0 <= slack <= (PRECISION - 1) * s.applications
  }

  // What the default pool holds beyond the debt claims on it and the carried error, in 1e-18 parts.
  ghost function DebtSlack(s: Ledger): int {
    PRECISION * s.defaultDebt - Sum(DebtClaims(s)) - s.debtError
  }

  ghost predicate DebtPayable(s: Ledger) { DebtSlack(s) >= 0 }

  ghost predicate DebtClaimsCovered(s: Ledger) {
    0 <= DebtSlack(s) <= (PRECISION - 1) * s.applications
  }

  // What truncation has carried over is less than one unit for every stake of the last redistribution.
  ghost predicate ErrorsBelowStakes(s: Ledger) {
    if s.lastStakes == 0 then s.collError == 0 && s.debtError == 0
    else s.collError < s.lastStakes && s.debtError < s.lastStakes
  }

  // Every thUSD is a trove's debt, or the bootstrap loan, except the fees nobody was paid.
  ghost predicate TokensMatchDebt(s: Ledger) {
    && s.supply == s.held + s.pool.total + s.gasPool
    && s.supply + s.unminted == SystemDebt(s) + s.loan
    && (s.pcvSet ==> s.unminted == 0 && s.stranded == 0)
  }

  ghost predicate SurplusMatches(s: Ledger, l: Limbo) {
    |s.surplus| == |s.troves| && s.surplusColl + l.surplus == Sum(s.surplus)
  }

  ghost predicate Books(s: Ledger, l: Limbo) {
    && TrovesMatchPools(s, l) && CollClaimsCovered(s) && ErrorsBelowStakes(s) && SurplusMatches(s, l)
    && SP.Valid(s.pool) && |s.pool.deposits| == |s.troves|
  }

  // Between two transactions nothing is in limbo.
  ghost predicate Inv(s: Ledger) {
    Books(s, NOTHING) && TokensMatchDebt(s)
  }

  lemma InvBooks(s: Ledger)
    requires Inv(s)
    ensures Books(s, NOTHING) && TokensMatchDebt(s)
  {
  }

  // hasPendingRewards looks at the collateral accumulator alone. That is sound as long as a trove
  // up to date with it is up to date with the debt accumulator as well.
  ghost predicate Synced(s: Ledger) {
    forall i | 0 <= i < |s.troves| :: SyncedTrove(s, s.troves[i])
  }

  ghost predicate SyncedTrove(s: Ledger, t: Trove) {
    t.status.Active? && t.collSnapshot == s.LColl ==> t.debtSnapshot == s.LDebt
  }

  // ---- Replacing one trove ----

  // t stands in for trove i, with both accumulators as they are.
  function With(s: Ledger, i: nat, t: Trove): Ledger
    requires i < |s.troves|
  {
    s.(troves := s.troves[i := t])
  }

  lemma ReplaceSums(s: Ledger, r: Ledger, i: nat, t: Trove)
    requires i < |s.troves| && r.troves == s.troves[i := t] && r.LColl == s.LColl && r.LDebt == s.LDebt
    ensures
      var o := s.troves[i];
      && Sum(Stakes(r)) == Sum(Stakes(s)) - o.stake + t.stake
      && Sum(Colls(r)) == Sum(Colls(s)) - o.coll + t.coll
      && Sum(Debts(r)) == Sum(Debts(s)) - o.debt + t.debt
      && Sum(CollClaims(r)) == Sum(CollClaims(s)) - CollClaim(s, o) + CollClaim(s, t)
      && Sum(DebtClaims(r)) == Sum(DebtClaims(s)) - DebtClaim(s, o) + DebtClaim(s, t)
      && Count(r) == Count(s) - Alive(o) + Alive(t)
  {
    hide Sum, CollClaim, DebtClaim, Alive;
    SameClaims(s, r);
    assert Stakes(r) == Stakes(s)[i := t.stake];
    assert Colls(r) == Colls(s)[i := t.coll];
    assert Debts(r) == Debts(s)[i := t.debt];
    assert CollClaims(r) == CollClaims(s)[i := CollClaim(s, t)];
    assert DebtClaims(r) == DebtClaims(s)[i := DebtClaim(s, t)];
    assert Actives(r.troves) == Actives(s.troves)[i := Alive(t)];
    SumUpdate(Stakes(s), i, t.stake);
    SumUpdate(Colls(s), i, t.coll);
    SumUpdate(Debts(s), i, t.debt);
    SumUpdate(CollClaims(s), i, CollClaim(s, t));
    SumUpdate(DebtClaims(s), i, DebtClaim(s, t));
    SumUpdate(Actives(s.troves), i, Alive(t));
  }

  lemma SameClaims(s: Ledger, r: Ledger)
    requires r.LColl == s.LColl && r.LDebt == s.LDebt
    ensures forall t :: CollClaim(r, t) == CollClaim(s, t) && DebtClaim(r, t) == DebtClaim(s, t)
  {
  }

  // A claim is what is pending plus less than one unit, in 1e-18 parts.
  lemma ClaimOfPending(s: Ledger, t: Trove)
    requires GoodTrove(s, t)
    ensures 0 <= CollClaim(s, t) - PRECISION * PendingColl(s, t) <= PRECISION - 1
    ensures 0 <= DebtClaim(s, t) - PRECISION * PendingDebt(s, t) <= PRECISION - 1
  {
    var x, y := t.stake * (s.LColl - t.collSnapshot), t.stake * (s.LDebt - t.debtSnapshot);
    NonNegative(t.stake, s.LColl - t.collSnapshot);
    NonNegative(t.stake, s.LDebt - t.debtSnapshot);
    FloorDivision(x, PRECISION);
    FloorDivision(y, PRECISION);
  }

  lemma ClaimsNonNegative(s: Ledger)
    requires forall i | 0 <= i < |s.troves| :: GoodTrove(s, s.troves[i])
    ensures Sum(CollClaims(s)) >= 0 && Sum(DebtClaims(s)) >= 0
    ensures forall i | 0 <= i < |s.troves| ::
              CollClaim(s, s.troves[i]) <= Sum(CollClaims(s)) && DebtClaim(s, s.troves[i]) <= Sum(DebtClaims(s))
  {
    hide Sum, CollClaim, DebtClaim, PendingColl, PendingDebt;
    forall i | 0 <= i < |s.troves| ensures CollClaims(s)[i] >= 0 && DebtClaims(s)[i] >= 0 {
      assert GoodTrove(s, s.troves[i]);
      ClaimOfPending(s, s.troves[i]);
    }
    SumNonNegative(CollClaims(s));
    SumNonNegative(DebtClaims(s));
    forall i | 0 <= i < |s.troves|
      ensures CollClaim(s, s.troves[i]) <= Sum(CollClaims(s)) && DebtClaim(s, s.troves[i]) <= Sum(DebtClaims(s))
    {
      assert CollClaims(s)[i] <= Sum(CollClaims(s)) && DebtClaims(s)[i] <= Sum(DebtClaims(s));
    }
  }

  // Covered claims: the default pool can always pay what is pending on any trove.
  lemma PendingCollInPool(s: Ledger, i: nat)
    requires i < |s.troves| && CollClaimsCovered(s)
    requires forall j | 0 <= j < |s.troves| :: GoodTrove(s, s.troves[j])
    ensures PendingColl(s, s.troves[i]) <= s.defaultColl
  {
    hide Sum, CollClaim, DebtClaim, PendingColl, PendingDebt;
    ClaimsNonNegative(s);
    ClaimOfPending(s, s.troves[i]);
  }

  lemma PendingDebtInPool(s: Ledger, i: nat)
    requires i < |s.troves| && DebtPayable(s)
    requires forall j | 0 <= j < |s.troves| :: GoodTrove(s, s.troves[j])
    ensures PendingDebt(s, s.troves[i]) <= s.defaultDebt
  {
    hide Sum, CollClaim, DebtClaim, PendingColl, PendingDebt;
    ClaimsNonNegative(s);
    ClaimOfPending(s, s.troves[i]);
  }

  // ---- The building blocks ----

  // _movePendingTroveRewardsToActivePool
  function MovePending(s: Ledger, debt: nat, coll: nat): Option<Ledger> {
    if s.defaultDebt < debt || s.defaultColl < coll then None
    else Some(s.(defaultDebt := s.defaultDebt - debt, activeDebt := s.activeDebt + debt,
                 defaultColl := s.defaultColl - coll, activeColl := s.activeColl + coll))
  }

  predicate HasPendingRewards(s: Ledger, t: Trove) {
    t.status.Active? && t.collSnapshot < s.LColl
  }

  // The debt _applyPendingRewards leaves a trove with: where it skips the rewards, the pending debt is not counted.
  function AppliedDebt(s: Ledger, t: Trove): nat
    requires GoodTrove(s, t)
  {
    if HasPendingRewards(s, t) then EntireDebt(s, t) else t.debt
  }

  // _applyPendingRewards
  function ApplyPending(s: Ledger, i: nat): Option<Ledger>
    requires i < |s.troves| && GoodTrove(s, s.troves[i])
  {
    var t := s.troves[i];
    if !HasPendingRewards(s, t) then Some(s)
    else
      match MovePending(s, PendingDebt(s, t), PendingColl(s, t))
      case None => None
      case Some(q) =>
        Some(With(q, i, t.(coll := EntireColl(s, t), debt := EntireDebt(s, t), collSnapshot := s.LColl, debtSnapshot := s.LDebt))
             .(applications := s.applications + 1))
  }

  // _computeNewStake; None is its failed assert.
  function NewStake(s: Ledger, coll: nat): Option<nat> {
    if s.collSnapshot == 0 then Some(coll)
    else if s.stakesSnapshot == 0 then None
    else Some(coll * s.stakesSnapshot / s.collSnapshot)
  }

  // Set a trove's collateral and debt and recompute its stake (_updateStakeAndTotalStakes).
  function SetTrove(s: Ledger, i: nat, coll: nat, debt: nat): Option<Ledger>
    requires i < |s.troves|
  {
    var t := s.troves[i];
    match NewStake(s, coll)
    case None => None
    case Some(stake) =>
      if s.totalStakes < t.stake then None
      else Some(With(s, i, t.(coll := coll, debt := debt, stake := stake)).(totalStakes := s.totalStakes - t.stake + stake))
  }

  // _removeStake and _closeTrove: the last trove cannot be closed while new ones can be minted.
  function CloseOut(s: Ledger, i: nat, closed: Status): Option<Ledger>
    requires i < |s.troves| && closed != Active
  {
    var t := s.troves[i];
    if (s.canMint && Count(s) <= 1) || s.totalStakes < t.stake then None
    else Some(With(s, i, Trove(closed, 0, 0, 0, 0, 0)).(totalStakes := s.totalStakes - t.stake))
  }

  // A numerator shared out over the stakes, and what truncation leaves for the next time.
  function PerUnit(numerator: nat, stakes: nat): nat
    requires stakes > 0
  {
    numerator / stakes
  }

  function Carried(numerator: nat, stakes: nat): nat
    requires stakes > 0
  {
    FloorDivision(numerator, stakes);
    numerator - PerUnit(numerator, stakes) * stakes
  }

  // _redistributeDebtAndColl; None is a division by a zero totalStakes or a pool underflow.
  function Redistribute(s: Ledger, debt: nat, coll: nat): Option<Ledger> {
    if debt == 0 then Some(s)
    else if s.totalStakes == 0 || s.activeDebt < debt || s.activeColl < coll then None
    else
      var collNumerator := coll * PRECISION + s.collError;
      var debtNumerator := debt * PRECISION + s.debtError;
      Some(s.(LColl := s.LColl + PerUnit(collNumerator, s.totalStakes),
              LDebt := s.LDebt + PerUnit(debtNumerator, s.totalStakes),
              collError := Carried(collNumerator, s.totalStakes), debtError := Carried(debtNumerator, s.totalStakes),
              lastStakes := s.totalStakes,
              activeDebt := s.activeDebt - debt, defaultDebt := s.defaultDebt + debt,
              activeColl := s.activeColl - coll, defaultColl := s.defaultColl + coll))
  }

  // ---- ... and what each keeps ----

  lemma ApplyPendingKeeps(s: Ledger, i: nat, l: Limbo)
    requires Books(s, l) && i < |s.troves|
    ensures ApplyPending(s, i).Some? ==>
      var r := ApplyPending(s, i).value;
      var t := s.troves[i];
      && Books(r, l) && SystemColl(r) == SystemColl(s) && SystemDebt(r) == SystemDebt(s)
      && r == s.(troves := r.troves, activeColl := r.activeColl, defaultColl := r.defaultColl,
                 activeDebt := r.activeDebt, defaultDebt := r.defaultDebt, applications := r.applications)
      && (DebtClaimsCovered(s) ==> DebtClaimsCovered(r))
      && (Synced(s) ==> Synced(r)) && (TokensMatchDebt(s) ==> TokensMatchDebt(r))
      && |r.troves| == |s.troves| && r.troves[i].status == t.status
      && (t.status.Active? ==> r.troves[i].collSnapshot == r.LColl)
      && r.troves[i].coll == EntireColl(s, t) && r.troves[i].debt == AppliedDebt(s, t)
      && (Synced(s) && t.status.Active? ==> r.troves[i].debtSnapshot == r.LDebt && r.troves[i].debt == EntireDebt(s, t))
    ensures DebtClaimsCovered(s) ==> ApplyPending(s, i).Some?
  {
    hide Sum, CollClaim, DebtClaim, PendingColl, PendingDebt, SP.Valid;
    var t := s.troves[i];
    assert GoodTrove(s, t);
    ClaimOfPending(s, t);
    PendingCollInPool(s, i);
    if DebtClaimsCovered(s) {
      PendingDebtInPool(s, i);
    }
    if ApplyPending(s, i).Some? {
      var r := ApplyPending(s, i).value;
      if HasPendingRewards(s, t) {
        ReplaceSums(s, r, i, r.troves[i]);
        UpToDateClaims(s, r.troves[i]);
        ApplyGood(s, r, i);
      } else {
        NothingPending(s, t);
      }
    }
  }

  lemma UpToDateClaims(s: Ledger, t: Trove)
    ensures t.collSnapshot == s.LColl ==> CollClaim(s, t) == 0
    ensures t.debtSnapshot == s.LDebt ==> DebtClaim(s, t) == 0
    ensures t.stake == 0 ==> CollClaim(s, t) == 0 && DebtClaim(s, t) == 0
  {
  }

  lemma NothingPending(s: Ledger, t: Trove)
    requires GoodTrove(s, t)
    ensures t.collSnapshot == s.LColl ==> PendingColl(s, t) == 0
    ensures t.debtSnapshot == s.LDebt ==> PendingDebt(s, t) == 0
    ensures !t.status.Active? ==> PendingColl(s, t) == 0 && PendingDebt(s, t) == 0
  {
  }

  lemma SyncedAppliesAll(s: Ledger, t: Trove)
    requires GoodTrove(s, t) && SyncedTrove(s, t)
    ensures AppliedDebt(s, t) == EntireDebt(s, t)
  {
  }

  lemma ApplyGood(s: Ledger, r: Ledger, i: nat)
    requires i < |s.troves| && ApplyPending.requires(s, i) && ApplyPending(s, i) == Some(r) && HasPendingRewards(s, s.troves[i])
    requires forall j | 0 <= j < |s.troves| :: GoodTrove(s, s.troves[j])
    ensures forall j | 0 <= j < |r.troves| :: GoodTrove(r, r.troves[j])
    ensures Synced(s) ==> Synced(r)
  {
    hide PendingColl, PendingDebt;
    forall j | 0 <= j < |r.troves| ensures GoodTrove(r, r.troves[j]) {
      assert GoodTrove(s, s.troves[j]);
    }
    if Synced(s) {
      forall j | 0 <= j < |r.troves| ensures SyncedTrove(r, r.troves[j]) {
        assert SyncedTrove(s, s.troves[j]);
      }
    }
  }

  // Setting a trove whose rewards have been applied: the change of its collateral and debt is in limbo
  // until the pools follow.
  lemma SetTroveKeeps(s: Ledger, i: nat, coll: nat, debt: nat, l: Limbo)
    requires Books(s, l) && i < |s.troves| && s.troves[i].status.Active? && s.troves[i].collSnapshot == s.LColl
    requires debt >= MIN_NET_DEBT + GAS_COMPENSATION
    ensures SetTrove(s, i, coll, debt).Some? ==>
      var r := SetTrove(s, i, coll, debt).value;
      var t := s.troves[i];
      && Books(r, l.(coll := l.coll + t.coll - coll, debt := l.debt + t.debt - debt))
      && r == s.(troves := r.troves, totalStakes := r.totalStakes)
      && r.troves == s.troves[i := r.troves[i]]
      && r.troves[i] == t.(coll := coll, debt := debt, stake := r.troves[i].stake)
      && (t.debtSnapshot == s.LDebt && DebtClaimsCovered(s) ==> DebtClaimsCovered(r))
      && (Synced(s) ==> Synced(r)) && (TokensMatchDebt(s) ==> TokensMatchDebt(r))
    ensures SetTrove(s, i, coll, debt).None? <==> NewStake(s, coll).None?
  {
    hide Sum, CollClaim, DebtClaim, NewStake, SP.Valid;
    StakeInTotal(s, i);
    if SetTrove(s, i, coll, debt).Some? {
      var r := SetTrove(s, i, coll, debt).value;
      ReplaceSums(s, r, i, r.troves[i]);
      UpToDateClaims(s, s.troves[i]);
      UpToDateClaims(s, r.troves[i]);
      ReplaceGood(s, r, i);
    }
  }

  lemma StakeInTotal(s: Ledger, i: nat)
    requires i < |s.troves|
    ensures s.troves[i].stake <= Sum(Stakes(s))
    ensures s.troves[i].coll <= Sum(Colls(s)) && s.troves[i].debt <= Sum(Debts(s))
    ensures s.troves[i].status.Active? ==> Count(s) >= 1
  {
    hide Sum;
    SumNonNegative(Stakes(s));
    SumNonNegative(Colls(s));
    SumNonNegative(Debts(s));
    SumNonNegative(Actives(s.troves));
    assert Stakes(s)[i] == s.troves[i].stake && Colls(s)[i] == s.troves[i].coll && Debts(s)[i] == s.troves[i].debt;
    assert Actives(s.troves)[i] == Alive(s.troves[i]);
  }

  lemma ReplaceGood(s: Ledger, r: Ledger, i: nat)
    requires i < |s.troves| && r.LColl == s.LColl && r.LDebt == s.LDebt && |r.troves| == |s.troves|
    requires r.troves == s.troves[i := r.troves[i]]
    requires forall j | 0 <= j < |s.troves| :: GoodTrove(s, s.troves[j])
    requires GoodTrove(r, r.troves[i]) && (Synced(s) ==> SyncedTrove(r, r.troves[i]))
    ensures forall j | 0 <= j < |r.troves| :: GoodTrove(r, r.troves[j])
    ensures Synced(s) ==> Synced(r)
  {
    forall j | 0 <= j < |r.troves| ensures GoodTrove(r, r.troves[j]) {
      assert GoodTrove(s, s.troves[j]);
    }
    if Synced(s) {
      forall j | 0 <= j < |r.troves| ensures SyncedTrove(r, r.troves[j]) {
        assert SyncedTrove(s, s.troves[j]);
      }
    }
  }

  // Closing a trove whose rewards have been applied.
  lemma CloseOutKeeps(s: Ledger, i: nat, closed: Status, l: Limbo)
    requires Books(s, l) && i < |s.troves| && s.troves[i].status.Active? && closed != Active
    requires s.troves[i].collSnapshot == s.LColl
    ensures CloseOut(s, i, closed).Some? ==>
      var r := CloseOut(s, i, closed).value;
      var t := s.troves[i];
      && Books(r, l.(coll := l.coll + t.coll, debt := l.debt + t.debt, count := l.count + 1))
      && r == s.(troves := r.troves, totalStakes := r.totalStakes)
      && r.troves == s.troves[i := Trove(closed, 0, 0, 0, 0, 0)]
      && (t.debtSnapshot == s.LDebt && DebtClaimsCovered(s) ==> DebtClaimsCovered(r))
      && (Synced(s) ==> Synced(r)) && (TokensMatchDebt(s) ==> TokensMatchDebt(r))
    ensures CloseOut(s, i, closed).None? <==> s.canMint && Count(s) <= 1
  {
    hide Sum, CollClaim, DebtClaim, SP.Valid;
    StakeInTotal(s, i);
    if CloseOut(s, i, closed).Some? {
      var r := CloseOut(s, i, closed).value;
      ReplaceSums(s, r, i, r.troves[i]);
      UpToDateClaims(s, s.troves[i]);
      UpToDateClaims(s, r.troves[i]);
      ReplaceGood(s, r, i);
    }
  }

  // Taking a liquidated trove out: its pending rewards move to the active pool and it is closed.
  function TakeOut(s: Ledger, i: nat): Option<Ledger>
    requires i < |s.troves| && GoodTrove(s, s.troves[i])
  {
    match MovePending(s, PendingDebt(s, s.troves[i]), PendingColl(s, s.troves[i]))
    case None => None
    case Some(q) => CloseOut(q.(applications := s.applications + 1), i, ClosedByLiquidation)
  }

  lemma TakeOutKeeps(s: Ledger, i: nat, l: Limbo)
    requires Books(s, l) && i < |s.troves| && s.troves[i].status.Active?
    ensures TakeOut(s, i).Some? ==>
      var r := TakeOut(s, i).value;
      var t := s.troves[i];
      && Books(r, l.(coll := l.coll + EntireColl(s, t), debt := l.debt + EntireDebt(s, t), count := l.count + 1))
      && SystemColl(r) == SystemColl(s) && SystemDebt(r) == SystemDebt(s)
      && r == s.(troves := s.troves[i := Trove(ClosedByLiquidation, 0, 0, 0, 0, 0)], totalStakes := r.totalStakes,
                 activeColl := r.activeColl, defaultColl := r.defaultColl,
                 activeDebt := r.activeDebt, defaultDebt := r.defaultDebt, applications := r.applications)
      && (DebtClaimsCovered(s) ==> DebtClaimsCovered(r))
      && (Synced(s) ==> Synced(r)) && (TokensMatchDebt(s) ==> TokensMatchDebt(r))
    ensures DebtClaimsCovered(s) ==> (TakeOut(s, i).None? <==> s.canMint && Count(s) <= 1)
  {
    hide Sum, CollClaim, DebtClaim, PendingColl, PendingDebt, SP.Valid, CollClaims, DebtClaims, Stakes, Colls, Debts;
    var t := s.troves[i];
    assert GoodTrove(s, t);
    ClaimOfPending(s, t);
    PendingCollInPool(s, i);
    StakeInTotal(s, i);
    if DebtClaimsCovered(s) {
      PendingDebtInPool(s, i);
    }
    var q := MovePending(s, PendingDebt(s, t), PendingColl(s, t));
    if q.Some? {
      SameCount(s, q.value.(applications := s.applications + 1));
    }
    if TakeOut(s, i).Some? {
      var r := TakeOut(s, i).value;
      ReplaceSums(s, r, i, r.troves[i]);
      UpToDateClaims(s, r.troves[i]);
      ReplaceGood(s, r, i);
    }
  }

  lemma SameCount(s: Ledger, q: Ledger)
    requires |q.troves| == |s.troves| && forall i | 0 <= i < |s.troves| :: q.troves[i].status == s.troves[i].status
    ensures Count(q) == Count(s)
  {
    hide Sum;
    assert Actives(q.troves) == Actives(s.troves);
  }

  // What the pools hold of one trove.
  lemma TroveInPools(s: Ledger, i: nat, l: Limbo)
    requires Books(s, l) && i < |s.troves|
    ensures s.troves[i].stake <= s.totalStakes
    ensures s.troves[i].coll + l.coll <= s.activeColl && s.troves[i].debt + l.debt <= s.activeDebt
  {
    hide Sum, SP.Valid, CollClaimsCovered, ErrorsBelowStakes, SurplusMatches, GoodTrove;
    SumNonNegative(Stakes(s));
    SumNonNegative(Colls(s));
    SumNonNegative(Debts(s));
    assert Stakes(s)[i] == s.troves[i].stake && Colls(s)[i] == s.troves[i].coll && Debts(s)[i] == s.troves[i].debt;
  }

  lemma DebtPositive(s: Ledger, t: Trove)
    requires GoodTrove(s, t) && t.status.Active?
    ensures EntireDebt(s, t) >= MIN_NET_DEBT + GAS_COMPENSATION
  {
    hide PendingDebt;
  }

  // A redistribution moves a debt and a collateral from limbo to the default pool and hands all of it,
  // up to the carried errors, to the troves: the slack of both claims stays what it was.
  lemma RedistributeKeeps(s: Ledger, debt: nat, coll: nat, l: Limbo)
    requires Books(s, l) && (debt == 0 ==> coll == 0)
    ensures Redistribute(s, debt, coll).Some? ==>
      var r := Redistribute(s, debt, coll).value;
      && Books(r, l.(coll := l.coll - coll, debt := l.debt - debt))
      && SystemColl(r) == SystemColl(s) && SystemDebt(r) == SystemDebt(s)
      && r == s.(LColl := r.LColl, LDebt := r.LDebt, collError := r.collError, debtError := r.debtError, lastStakes := r.lastStakes,
                 activeDebt := s.activeDebt - debt, defaultDebt := s.defaultDebt + debt,
                 activeColl := s.activeColl - coll, defaultColl := s.defaultColl + coll)
      && (debt > 0 ==> r.collError < r.totalStakes && r.debtError < r.totalStakes)
      && (DebtClaimsCovered(s) ==> DebtClaimsCovered(r))
    ensures coll <= l.coll && debt <= l.debt ==>
              (Redistribute(s, debt, coll).None? <==> debt > 0 && s.totalStakes == 0)
  {
    hide Sum, CollClaim, DebtClaim, SP.Valid, Redistribute;
    SumsNonNegative(s);
    RedistributeFields(s, debt, coll);
    if debt > 0 && Redistribute(s, debt, coll).Some? {
      var r := Redistribute(s, debt, coll).value;
      RedistributedClaims(s, r);
      SameTroves(s, r);
      forall j | 0 <= j < |r.troves| ensures GoodTrove(r, r.troves[j]) {
        assert GoodTrove(s, s.troves[j]);
      }
    }
  }

  // The equations the error carry is for.
  lemma RedistributeFields(s: Ledger, debt: nat, coll: nat)
    ensures debt == 0 ==> Redistribute(s, debt, coll) == Some(s)
    ensures debt > 0 ==>
              (Redistribute(s, debt, coll).None? <==> s.totalStakes == 0 || s.activeDebt < debt || s.activeColl < coll)
    ensures debt > 0 && Redistribute(s, debt, coll).Some? ==>
      var r := Redistribute(s, debt, coll).value;
      && r == s.(LColl := r.LColl, LDebt := r.LDebt, collError := r.collError, debtError := r.debtError, lastStakes := r.lastStakes,
                 activeDebt := s.activeDebt - debt, defaultDebt := s.defaultDebt + debt,
                 activeColl := s.activeColl - coll, defaultColl := s.defaultColl + coll)
      && s.totalStakes > 0 && r.LColl >= s.LColl && r.LDebt >= s.LDebt
      && r.LColl - s.LColl == PerUnit(coll * PRECISION + s.collError, s.totalStakes)
      && r.LDebt - s.LDebt == PerUnit(debt * PRECISION + s.debtError, s.totalStakes)
      && (r.LColl - s.LColl) * s.totalStakes + r.collError == coll * PRECISION + s.collError
      && (r.LDebt - s.LDebt) * s.totalStakes + r.debtError == debt * PRECISION + s.debtError
      && r.collError < s.totalStakes && r.debtError < s.totalStakes && r.lastStakes == s.totalStakes
  {
    hide PerUnit, Carried;
    if debt > 0 && s.totalStakes > 0 {
      Carry(coll * PRECISION + s.collError, s.totalStakes);
      Carry(debt * PRECISION + s.debtError, s.totalStakes);
    }
  }

  lemma Carry(numerator: nat, stakes: nat)
    requires stakes > 0
    ensures PerUnit(numerator, stakes) * stakes + Carried(numerator, stakes) == numerator
    ensures Carried(numerator, stakes) < stakes
  {
    FloorDivision(numerator, stakes);
  }

  lemma SumsNonNegative(s: Ledger)
    ensures Sum(Colls(s)) >= 0 && Sum(Debts(s)) >= 0
  {
    hide Sum;
    SumNonNegative(Colls(s));
    SumNonNegative(Debts(s));
  }

  lemma SameTroves(s: Ledger, r: Ledger)
    requires r.troves == s.troves
    ensures Stakes(r) == Stakes(s) && Colls(r) == Colls(s) && Debts(r) == Debts(s) && Count(r) == Count(s)
  {
    hide Sum;
    SameCount(s, r);
    assert Stakes(r) == Stakes(s) && Colls(r) == Colls(s) && Debts(r) == Debts(s);
  }

  lemma RedistributedClaims(s: Ledger, r: Ledger)
    requires r.troves == s.troves
    ensures Sum(CollClaims(r)) == Sum(CollClaims(s)) + (r.LColl - s.LColl) * Sum(Stakes(s))
    ensures Sum(DebtClaims(r)) == Sum(DebtClaims(s)) + (r.LDebt - s.LDebt) * Sum(Stakes(s))
  {
    hide Sum, CollClaim, DebtClaim;
    forall i | 0 <= i < |s.troves|
      ensures CollClaims(r)[i] == CollClaims(s)[i] + (r.LColl - s.LColl) * Stakes(s)[i]
      ensures DebtClaims(r)[i] == DebtClaims(s)[i] + (r.LDebt - s.LDebt) * Stakes(s)[i]
    {
      ClaimGrows(s, r, s.troves[i]);
    }
    SumShift(CollClaims(s), CollClaims(r), Stakes(s), r.LColl - s.LColl);
    SumShift(DebtClaims(s), DebtClaims(r), Stakes(s), r.LDebt - s.LDebt);
  }

  lemma ClaimGrows(s: Ledger, r: Ledger, t: Trove)
    ensures CollClaim(r, t) == CollClaim(s, t) + (r.LColl - s.LColl) * t.stake
    ensures DebtClaim(r, t) == DebtClaim(s, t) + (r.LDebt - s.LDebt) * t.stake
  {
  }

  // A redistribution keeps the two accumulators in step exactly when it raises the collateral one, or
  // raises neither, or every active trove already lags behind.
  lemma RedistributeSyncedExactly(s: Ledger, debt: nat, coll: nat)
    requires Synced(s) && debt > 0 && Redistribute(s, debt, coll).Some?
    requires forall j | 0 <= j < |s.troves| :: GoodTrove(s, s.troves[j])
    ensures
      var collPerUnit := PerUnit(coll * PRECISION + s.collError, s.totalStakes);
      var debtPerUnit := PerUnit(debt * PRECISION + s.debtError, s.totalStakes);
      Synced(Redistribute(s, debt, coll).value) <==>
      (collPerUnit > 0 || debtPerUnit == 0
       || forall j | 0 <= j < |s.troves| :: !s.troves[j].status.Active? || s.troves[j].collSnapshot < s.LColl)
  {
    hide Redistribute, Sum, PerUnit;
    RedistributeFields(s, debt, coll);
    var r := Redistribute(s, debt, coll).value;
    forall j | 0 <= j < |s.troves| ensures GoodTrove(s, s.troves[j]) && SyncedTrove(s, s.troves[j]) {
    }
    if r.LColl == s.LColl && r.LDebt > s.LDebt {
      if j :| 0 <= j < |s.troves| && s.troves[j].status.Active? && s.troves[j].collSnapshot == s.LColl {
        assert !SyncedTrove(r, r.troves[j]);
      }
    }
  }
}
