/** The trove manager and the pools it moves funds between, as an object with the sorted list of troves: the
    array of owners, the liquidation loops, and the redemption loop along the list, each proved against the ledger
    functions. Accounts are indices, and account 0 is the null address. Where `ok` is false the transaction
    reverts and the chain discards the new state. */
module TroveManager {
  import opened Common
  import opened TroveLedger
  import opened Liquidation
  import opened Redemption
  import opened Borrowing
  import opened SortedTroves
  import opened SortedLedger
  import opened Registers
  import SP = StabilityPool

  // A batch that cannot get past some of its troves fails as a whole.
  lemma {:induction false} BatchFails(s: Ledger, ids: seq<nat>, n: nat, price: nat, recovery: bool)
    requires Books(s, NOTHING) && price > 0 && n <= |ids|
    requires Batch(s, ids[..n], price, recovery).None?
    ensures Batch(s, ids, price, recovery).None?
    decreases |ids|
  {
    hide Books, BatchStep, InBatch;
    if n == |ids| {
      assert ids[..n] == ids;
    } else {
      var shorter := ids[..|ids| - 1];
      assert shorter[..n] == ids[..n];
      BatchFails(s, shorter, n, price, recovery);
    }
  }

  lemma BatchStarts(s: Ledger, ids: seq<nat>, price: nat, recovery: bool)
    requires Books(s, NOTHING) && price > 0
    ensures Batch(s, ids[..0], price, recovery) == Some(Start(s))
    ensures Batch(s, ids[..|ids|], price, recovery) == Batch(s, ids, price, recovery)
  {
    hide Books;
    assert ids[..|ids|] == ids;
  }

  lemma BatchNext(s: Ledger, ids: seq<nat>, n: nat, price: nat, recovery: bool, p: Progress)
    requires Books(s, NOTHING) && price > 0 && n < |ids| && Batch(s, ids[..n], price, recovery) == Some(p)
    ensures InBatch(p, s) && |p.s.surplus| == |p.s.troves|
    ensures recovery && !p.backToNormal ==> Tracked(p)
    ensures ids[n] < |p.s.troves| ==> GoodTrove(p.s, p.s.troves[ids[n]])
    ensures Batch(s, ids[..n + 1], price, recovery) ==
              if ids[n] >= |p.s.troves| then Some(p) else BatchStep(p, ids[n], price, recovery)
  {
    hide Books, BatchStep, InBatch, Tracked;
    assert ids[..n + 1][..n] == ids[..n];
    BatchTroves(p, s);
    if ids[n] < |p.s.troves| {
      BooksMeanGood(p, s, ids[n]);
    }
  }

  lemma BatchTroves(p: Progress, s: Ledger)
    requires InBatch(p, s)
    ensures |p.s.surplus| == |p.s.troves|
  {
  }

  // The balances of ActivePool and DefaultPool, the accumulators with their carried errors, thUSD by holder,
  // and what only the proofs count.
  datatype Balance = Balance(coll: nat, debt: nat)
  datatype LTerms = LTerms(coll: nat, debt: nat, collError: nat, debtError: nat)
  datatype Tokens = Tokens(held: nat, gasPool: nat, supply: nat)
  datatype Tally = Tally(unminted: nat, loan: nat, stranded: nat, applications: nat, lastStakes: nat)

  class Contract {
    const sortedTroves: List
    var troves: seq<Trove>
    var troveOwners: seq<nat>
    var arrayIndex: seq<nat>
    var L: LTerms
    var totalStakes: nat
    var totalStakesSnapshot: nat
    var totalCollateralSnapshot: nat
    var activePool: Balance
    var defaultPool: Balance
    var stabilityPool: SP.Pool
    var surplus: seq<nat>
    var surplusColl: nat
    var thusd: Tokens
    var pcvSet: bool
    var canMint: bool
    ghost var tally: Tally

    ghost function Model(): Ledger
      reads this
    {
      Ledger(troves, L.coll, L.debt, L.collError, L.debtError, totalStakes, totalStakesSnapshot, totalCollateralSnapshot,
             activePool.coll, activePool.debt, defaultPool.coll, defaultPool.debt, stabilityPool, surplus, surplusColl,
             thusd.held, thusd.gasPool, thusd.supply, tally.unminted, tally.loan, tally.stranded, pcvSet, canMint,
             tally.applications, tally.lastStakes)
    }

    // Both registers hold exactly the active troves, and the list has room for all accounts.
    ghost predicate OwnersListed()
      reads this, sortedTroves
    {
      && Registered(troves, troveOwners, arrayIndex, sortedTroves.order)
      && sortedTroves.Valid() && |troves| <= sortedTroves.maxSize
    }

    constructor (accounts: nat, pcvSet: bool)
      ensures Model() == EmptyLedger(accounts, pcvSet) && OwnersListed() && sortedTroves.order == []
      ensures fresh(sortedTroves)
    {
      sortedTroves := new List(accounts + 1);
      troves := seq(accounts, _ => Trove(NonExistent, 0, 0, 0, 0, 0));
      troveOwners, arrayIndex := [], seq(accounts, _ => 0);
      L := LTerms(0, 0, 0, 0);
      totalStakes, totalStakesSnapshot, totalCollateralSnapshot := 0, 0, 0;
      activePool, defaultPool := Balance(0, 0), Balance(0, 0);
      stabilityPool, surplus, surplusColl := SP.EmptyPool(accounts), seq(accounts, _ => 0), 0;
      thusd, tally := Tokens(0, 0, 0), Tally(0, 0, 0, 0, 0);
      this.pcvSet, canMint := pcvSet, true;
      new;
      SumZero(Actives(troves));
    }

    // ---- Pending rewards ----

    method GetPendingCollateralReward(i: nat) returns (reward: nat)
      requires i < |troves| && GoodTrove(Model(), troves[i])
      ensures reward == PendingColl(Model(), troves[i])
    {
      var perUnit := L.coll - troves[i].collSnapshot;
      if perUnit == 0 || troves[i].status != Active { return 0; }
      reward := troves[i].stake * perUnit / PRECISION;
    }

    method GetPendingTHUSDDebtReward(i: nat) returns (reward: nat)
      requires i < |troves| && GoodTrove(Model(), troves[i])
      ensures reward == PendingDebt(Model(), troves[i])
    {
      var perUnit := L.debt - troves[i].debtSnapshot;
      if perUnit == 0 || troves[i].status != Active { return 0; }
      reward := troves[i].stake * perUnit / PRECISION;
    }

    method GetEntireDebtAndColl(i: nat) returns (debt: nat, coll: nat, pendingDebt: nat, pendingColl: nat)
      requires i < |troves| && GoodTrove(Model(), troves[i])
      ensures debt == EntireDebt(Model(), troves[i]) && coll == EntireColl(Model(), troves[i])
      ensures pendingDebt == PendingDebt(Model(), troves[i]) && pendingColl == PendingColl(Model(), troves[i])
    {
      pendingDebt := GetPendingTHUSDDebtReward(i);
      pendingColl := GetPendingCollateralReward(i);
      debt, coll := troves[i].debt + pendingDebt, troves[i].coll + pendingColl;
    }

    method MovePendingTroveRewardsToActivePool(debt: nat, coll: nat) returns (ok: bool)
      modifies this`defaultPool, this`activePool
      ensures ok == MovePending(old(Model()), debt, coll).Some?
      ensures ok ==> Model() == MovePending(old(Model()), debt, coll).value
    {
      if defaultPool.debt < debt || defaultPool.coll < coll { return false; }
      defaultPool := Balance(defaultPool.coll - coll, defaultPool.debt - debt);
      activePool := Balance(activePool.coll + coll, activePool.debt + debt);
      return true;
    }

    method ApplyPendingRewards(i: nat) returns (ok: bool)
      requires i < |troves| && GoodTrove(Model(), troves[i]) && OwnersListed()
      modifies this`troves, this`defaultPool, this`activePool, this`tally
      ensures ok == ApplyPending(old(Model()), i).Some?
      ensures ok ==> Model() == ApplyPending(old(Model()), i).value && OwnersListed()
    {
      hide PendingColl, PendingDebt, Registered;
      ghost var before := troves;
      if troves[i].status != Active || troves[i].collSnapshot >= L.coll { return true; }
      var pendingColl := GetPendingCollateralReward(i);
      var pendingDebt := GetPendingTHUSDDebtReward(i);
      var t := troves[i];
      troves := troves[i := t.(coll := t.coll + pendingColl, debt := t.debt + pendingDebt)];
      troves := troves[i := troves[i].(collSnapshot := L.coll, debtSnapshot := L.debt)];
      ok := MovePendingTroveRewardsToActivePool(pendingDebt, pendingColl);
      tally := tally.(applications := tally.applications + 1);
      StatusKeepsRegistered(before, troves, troveOwners, arrayIndex, sortedTroves.order);
    }

    // ---- Stakes ----

    method ComputeNewStake(coll: nat) returns (ok: bool, stake: nat)
      ensures ok == NewStake(Model(), coll).Some?
      ensures ok ==> stake == NewStake(Model(), coll).value
    {
      if totalCollateralSnapshot == 0 { return true, coll; }
      if totalStakesSnapshot == 0 { return false, 0; }
      return true, coll * totalStakesSnapshot / totalCollateralSnapshot;
    }

    // The trove's collateral and debt are set, and its stake after them.
    method SetCollDebtAndStake(i: nat, coll: nat, debt: nat) returns (ok: bool)
      requires i < |troves| && OwnersListed()
      modifies this`troves, this`totalStakes
      ensures ok == SetTrove(old(Model()), i, coll, debt).Some?
      ensures ok ==> Model() == SetTrove(old(Model()), i, coll, debt).value && OwnersListed()
    {
      hide Registered, NewStake;
      ghost var before := troves;
      var oldStake, newStake := troves[i].stake, 0;
      troves := troves[i := troves[i].(coll := coll, debt := debt)];
      SnapshotsFixStake(old(Model()), Model(), coll);
      ok, newStake := ComputeNewStake(coll);
      if !ok || totalStakes < oldStake { return false; }
      troves := troves[i := troves[i].(stake := newStake)];
      totalStakes := totalStakes - oldStake + newStake;
      StatusKeepsRegistered(before, troves, troveOwners, arrayIndex, sortedTroves.order);
    }

    method RemoveStake(i: nat) returns (ok: bool)
      requires i < |troves|
      modifies this`troves, this`totalStakes
      ensures ok == (old(totalStakes) >= old(troves)[i].stake)
      ensures ok ==> totalStakes == old(totalStakes) - old(troves)[i].stake
      ensures ok ==> troves == old(troves)[i := old(troves)[i].(stake := 0)]
    {
      if totalStakes < troves[i].stake { return false; }
      totalStakes := totalStakes - troves[i].stake;
      troves := troves[i := troves[i].(stake := 0)];
      return true;
    }

    // ---- Closing ----

    method RemoveTroveOwner(i: nat)
      requires i < |arrayIndex| && arrayIndex[i] < |troveOwners| && troveOwners[|troveOwners| - 1] < |arrayIndex|
      modifies this`troveOwners, this`arrayIndex
      ensures troveOwners == WithoutOwner(old(troveOwners), old(arrayIndex)[i])
      ensures arrayIndex == old(arrayIndex)[old(troveOwners)[|old(troveOwners)| - 1] := old(arrayIndex)[i]]
    {
      var index, idxLast := arrayIndex[i], |troveOwners| - 1;
      var addressToMove := troveOwners[idxLast];
      troveOwners := troveOwners[index := addressToMove];
      arrayIndex := arrayIndex[addressToMove := index];
      troveOwners := troveOwners[..idxLast];
    }

    method CloseTrove(i: nat, closed: Status) returns (ok: bool)
      requires i < |troves| && troves[i].status.Active? && OwnersListed() && closed != Active
      modifies this`troves, this`troveOwners, this`arrayIndex, sortedTroves
      ensures ok == !(canMint && |old(troveOwners)| <= 1)
      ensures ok ==> troves == old(troves)[i := Trove(closed, 0, 0, old(troves)[i].stake, 0, 0)] && OwnersListed()
      ensures ok ==> sortedTroves.order == Survivors(troves, old(sortedTroves.order))
    {
      hide Registered, Survivors, RemoveAt;
      if canMint && |troveOwners| <= 1 { return false; }
      RegisteredMeans(troves, troveOwners, arrayIndex, sortedTroves.order);
      ghost var t, order, k := Trove(closed, 0, 0, troves[i].stake, 0, 0), sortedTroves.order, 0;
      assert Survives(troves, i) && i in order;
      k :| 0 <= k < |order| && order[k] == i;
      ClosingKeepsRegistered(troves, troveOwners, arrayIndex, order, i, t, k);
      troves := troves[i := Trove(closed, 0, 0, troves[i].stake, 0, 0)];
      RemoveTroveOwner(i);
      ghost var j;
      ok, j := sortedTroves.Remove(i);
      SamePosition(order, j, k);
    }

    // _removeStake, then _closeTrove.
    method RemoveStakeAndClose(i: nat, closed: Status) returns (ok: bool)
      requires i < |troves| && troves[i].status.Active? && OwnersListed() && closed != Active
      modifies this`troves, this`totalStakes, this`troveOwners, this`arrayIndex, sortedTroves
      ensures ok == CloseOut(old(Model()), i, closed).Some?
      ensures ok ==> Model() == CloseOut(old(Model()), i, closed).value && OwnersListed()
      ensures ok ==> sortedTroves.order == Survivors(troves, old(sortedTroves.order))
    {
      hide Registered, Sum, Survivors, Linked;
      ghost var before := troves;
      RegisteredMeans(troves, troveOwners, arrayIndex, sortedTroves.order);
      ok := RemoveStake(i);
      if !ok { return; }
      StatusKeepsRegistered(before, troves, troveOwners, arrayIndex, sortedTroves.order);
      ok := CloseTrove(i, closed);
    }

    // ---- Liquidation ----

    method TakeTroveOut(i: nat, pendingDebt: nat, pendingColl: nat, collSurplus: nat, ghost v: Values) returns (ok: bool)
      requires i < |troves| && GoodTrove(Model(), troves[i]) && troves[i].status.Active? && OwnersListed()
      requires |surplus| == |troves| && collSurplus == v.collSurplus
      requires pendingDebt == PendingDebt(Model(), troves[i]) && pendingColl == PendingColl(Model(), troves[i])
      modifies this, sortedTroves
      ensures ok == Take(old(Model()), i, v).Some?
      ensures ok ==> Model() == Take(old(Model()), i, v).value && OwnersListed()
      ensures ok ==> sortedTroves.order == Survivors(troves, old(sortedTroves.order))
    {
      hide Registered, CloseOut, PendingColl, PendingDebt, Survivors;
      ok := MovePendingTroveRewardsToActivePool(pendingDebt, pendingColl);
      if !ok { return; }
      tally := tally.(applications := tally.applications + 1);
      ok := RemoveStakeAndClose(i, ClosedByLiquidation);
      if !ok { return; }
      surplus := surplus[i := surplus[i] + collSurplus];
    }

    method LiquidateNormalMode(i: nat, sp: nat) returns (ok: bool, v: Values)
      requires i < |troves| && GoodTrove(Model(), troves[i]) && troves[i].status.Active? && OwnersListed()
      requires |surplus| == |troves|
      modifies this, sortedTroves
      ensures
        var t := old(troves)[i];
        var values := NormalValues(EntireDebt(old(Model()), t), EntireColl(old(Model()), t), sp);
        && ok == (values.Some? && Take(old(Model()), i, values.value).Some?)
        && (ok ==> v == values.value && Model() == Take(old(Model()), i, v).value && OwnersListed())
      ensures ok ==> sortedTroves.order == Survivors(troves, old(sortedTroves.order))
    {
      hide Survivors, Take, Registered, PendingColl, PendingDebt, OffsetAndRedistribute;
      var debt, coll, pendingDebt, pendingColl := GetEntireDebtAndColl(i);
      var values := NormalValues(debt, coll, sp);
      if values.None? { return false, ZERO_VALUES; }
      v := values.value;
      ReserveIsPaid(debt, coll, sp, 1);
      ok := TakeTroveOut(i, pendingDebt, pendingColl, 0, v);
    }

    // The caller has checked that this is not the last trove.
    method LiquidateRecoveryMode(i: nat, icr: nat, sp: nat, tcr: nat, price: nat) returns (ok: bool, v: Values)
      requires i < |troves| && GoodTrove(Model(), troves[i]) && troves[i].status.Active? && OwnersListed()
      requires |surplus| == |troves|
      modifies this, sortedTroves
      ensures
        var t := old(troves)[i];
        var values := RecoveryValues(EntireDebt(old(Model()), t), EntireColl(old(Model()), t), icr, sp, tcr, price);
        && (old(|troveOwners|) <= 1 ==> ok && v == ZERO_VALUES && Model() == old(Model()) && OwnersListed())
        && (old(|troveOwners|) > 1 ==>
              && ok == (values.Some? && (values.value != ZERO_VALUES ==> Take(old(Model()), i, values.value).Some?))
              && (ok ==> v == values.value && OwnersListed()
                         && Model() == if v == ZERO_VALUES then old(Model()) else Take(old(Model()), i, v).value))
      ensures ok ==> sortedTroves.order == Survivors(troves, old(sortedTroves.order))
    {
      hide Survivors, Take, Registered, PendingColl, PendingDebt, OffsetAndRedistribute, CappedOffset;
      NobodyLeaves(troves, troveOwners, arrayIndex, sortedTroves.order);
      if |troveOwners| <= 1 { return true, ZERO_VALUES; }
      var debt, coll, pendingDebt, pendingColl := GetEntireDebtAndColl(i);
      var values := None;
      if icr <= ONE_HUNDRED_PERCENT {
        values := OffsetAndRedistribute(WithGasShare(debt, coll), 0);
      } else if icr < MCR {
        values := OffsetAndRedistribute(WithGasShare(debt, coll), sp);
      } else if icr < tcr && debt <= sp {
        if sp == 0 { return false, ZERO_VALUES; }
        values := CappedOffset(debt, coll, price);
      } else {
        return true, ZERO_VALUES;
      }
      if values.None? { return false, ZERO_VALUES; }
      v := values.value;
      ReserveIsPaid(debt, coll, 0, price);
      ReserveIsPaid(debt, coll, sp, price);
      ok := TakeTroveOut(i, pendingDebt, pendingColl, v.collSurplus, v);
    }

    // ---- Batches ----

    method GetTotalsFromBatchLiquidate_NormalMode(ids: seq<nat>, price: nat, thusdInSP: nat)
      returns (ok: bool, totals: Totals, ghost p: Progress)
      requires Books(Model(), NOTHING) && OwnersListed() && price > 0 && thusdInSP == stabilityPool.total
      modifies this, sortedTroves
      ensures ok == Batch(old(Model()), ids, price, false).Some?
      ensures ok ==> Batch(old(Model()), ids, price, false) == Some(p)
      ensures ok ==> p.s == Model() && p.totals == totals && OwnersListed()
      ensures ok ==> sortedTroves.order == Survivors(troves, old(sortedTroves.order))
    {
      hide Survivors, OnlyCloses, Books, Batch, BatchStep, InBatch, Registered, NormalValues, Take, Tracked, GoodTrove;
      ghost var start, order := Model(), sortedTroves.order;
      NobodyLeaves(troves, troveOwners, arrayIndex, order);
      var remaining: nat := thusdInSP;
      totals := NO_TOTALS;
      p := Start(start);
      ok := true;
      BatchStarts(start, ids, price, false);
      for n := 0 to |ids|
        invariant ok && Batch(start, ids[..n], price, false) == Some(p)
        invariant p == Progress(Model(), totals, remaining, p.sysColl, p.sysDebt, p.backToNormal) && OwnersListed()
        invariant sortedTroves.order == Survivors(troves, order)
      {
        BatchNext(start, ids, n, price, false, p);
        var user := ids[n];
        if user < |troves| {
          NormalStep(p, user, price);
          var icr := GetCurrentICR(user, price);
          if icr < MCR {
            var v;
            ok, v := LiquidateNormalMode(user, remaining);
            if !ok || remaining < v.debtToOffset { BatchFails(start, ids, n + 1, price, false); return false, totals, p; }
            remaining := remaining - v.debtToOffset;
            totals := Add(totals, v);
            FewerSurvive(start, ids, n, price, false, p, Model(), order);
            p := p.(s := Model(), totals := totals, spLeft := remaining);
          }
        }
      }
    }

    method GetTotalFromBatchLiquidate_RecoveryMode(ids: seq<nat>, price: nat, thusdInSP: nat)
      returns (ok: bool, totals: Totals, ghost p: Progress)
      requires Books(Model(), NOTHING) && OwnersListed() && price > 0 && thusdInSP == stabilityPool.total
      modifies this, sortedTroves
      ensures ok == Batch(old(Model()), ids, price, true).Some?
      ensures ok ==> Batch(old(Model()), ids, price, true) == Some(p)
      ensures ok ==> p.s == Model() && p.totals == totals && OwnersListed()
      ensures ok ==> sortedTroves.order == Survivors(troves, old(sortedTroves.order))
    {
      hide Survivors, OnlyCloses, Books, Batch, BatchStep, InBatch, Registered, NormalValues, RecoveryValues, Take, Tracked;
      hide GoodTrove, ComputeCR, EntireColl, EntireDebt, ICR, Sum;
      ghost var start, order := Model(), sortedTroves.order;
      NobodyLeaves(troves, troveOwners, arrayIndex, order);
      var remaining: nat, backToNormalMode := thusdInSP, false;
      var entireSystemDebt: nat := activePool.debt + defaultPool.debt;
      var entireSystemColl: nat := activePool.coll + defaultPool.coll;
      totals := NO_TOTALS;
      p := Start(start);
      ok := true;
      BatchStarts(start, ids, price, true);
      for n := 0 to |ids|
        invariant ok && Batch(start, ids[..n], price, true) == Some(p) && OwnersListed()
        invariant p == Progress(Model(), totals, remaining, entireSystemColl, entireSystemDebt, backToNormalMode)
        invariant sortedTroves.order == Survivors(troves, order)
      {
        BatchNext(start, ids, n, price, true, p);
        var user := ids[n];
        if user >= |troves| || troves[user].status != Active {
          SkipStep(p, user, price);
          continue;
        }
        RecoveryStep(p, user, price);
        RegisteredMeans(troves, troveOwners, arrayIndex, sortedTroves.order);
        var icr := GetCurrentICR(user, price);
        var v := ZERO_VALUES;
        if !backToNormalMode {
          if icr >= MCR && remaining == 0 { continue; }
          var tcr := ComputeCR(entireSystemColl, entireSystemDebt, price);
          ok, v := LiquidateRecoveryMode(user, icr, remaining, tcr, price);
          var out := v.collToSP + v.collGas + v.collSurplus;
          if !ok || remaining < v.debtToOffset || entireSystemDebt < v.debtToOffset || entireSystemColl < out {
            BatchFails(start, ids, n + 1, price, true);
            return false, totals, p;
          }
          remaining := remaining - v.debtToOffset;
          entireSystemDebt := entireSystemDebt - v.debtToOffset;
          entireSystemColl := entireSystemColl - out;
          totals := Add(totals, v);
          backToNormalMode := ComputeCR(entireSystemColl, entireSystemDebt, price) >= CCR;
        } else if icr < MCR {
          ok, v := LiquidateNormalMode(user, remaining);
          if !ok || remaining < v.debtToOffset { BatchFails(start, ids, n + 1, price, true); return false, totals, p; }
          remaining := remaining - v.debtToOffset;
          totals := Add(totals, v);
        }
        FewerSurvive(start, ids, n, price, true, p, Model(), order);
        p := Progress(Model(), totals, remaining, entireSystemColl, entireSystemDebt, backToNormalMode);
      }
    }

    method RedistributeDebtAndColl(debt: nat, coll: nat) returns (ok: bool)
      modifies this`L, this`tally, this`activePool, this`defaultPool
      ensures ok == Redistribute(old(Model()), debt, coll).Some?
      ensures ok ==> Model() == Redistribute(old(Model()), debt, coll).value
    {
      hide PerUnit, Carried;
      if debt == 0 { return true; }
      if totalStakes == 0 || activePool.debt < debt || activePool.coll < coll { return false; }
      UpdateLTerms(debt, coll);
      MoveToDefaultPool(debt, coll);
      return true;
    }

    method UpdateLTerms(debt: nat, coll: nat)
      requires totalStakes > 0
      modifies this`L, this`tally
      ensures
        var s := old(Model());
        var collNumerator, debtNumerator := coll * PRECISION + s.collError, debt * PRECISION + s.debtError;
        Model() == s.(LColl := s.LColl + PerUnit(collNumerator, s.totalStakes),
                      LDebt := s.LDebt + PerUnit(debtNumerator, s.totalStakes),
                      collError := Carried(collNumerator, s.totalStakes), debtError := Carried(debtNumerator, s.totalStakes),
                      lastStakes := s.totalStakes)
    {
      hide PerUnit, Carried;
      var collateralNumerator := coll * PRECISION + L.collError;
      var debtNumerator := debt * PRECISION + L.debtError;
      var collateralPerUnit := PerUnit(collateralNumerator, totalStakes);
      var debtPerUnit := PerUnit(debtNumerator, totalStakes);
      Carry(collateralNumerator, totalStakes);
      Carry(debtNumerator, totalStakes);
      L := L.(collError := collateralNumerator - collateralPerUnit * totalStakes,
              debtError := debtNumerator - debtPerUnit * totalStakes);
      L := L.(coll := L.coll + collateralPerUnit, debt := L.debt + debtPerUnit);
      tally := tally.(lastStakes := totalStakes);
    }

    method MoveToDefaultPool(debt: nat, coll: nat)
      requires debt <= activePool.debt && coll <= activePool.coll
      modifies this`activePool, this`defaultPool
      ensures
        var s := old(Model());
        Model() == s.(activeDebt := s.activeDebt - debt, defaultDebt := s.defaultDebt + debt,
                      activeColl := s.activeColl - coll, defaultColl := s.defaultColl + coll)
    {
      activePool := Balance(activePool.coll - coll, activePool.debt - debt);
      defaultPool := Balance(defaultPool.coll + coll, defaultPool.debt + debt);
    }

    // The Stability Pool's offset, and the movement of debt and collateral that follows it.
    method OffsetWithStabilityPool(debt: nat, coll: nat) returns (ok: bool)
      modifies this`stabilityPool, this`activePool, this`thusd
      ensures ok == ApplyOffset(old(Model()), debt, coll).Some?
      ensures ok ==> Model() == ApplyOffset(old(Model()), debt, coll).value
    {
      hide SP.Offset;
      if stabilityPool.total == 0 || debt == 0 { return true; }
      var q := SP.Offset(stabilityPool, debt, coll);
      if q.None? || activePool.debt < debt || thusd.supply < debt || activePool.coll < coll { return false; }
      stabilityPool := q.value;
      activePool := Balance(activePool.coll - coll, activePool.debt - debt);
      thusd := thusd.(supply := thusd.supply - debt);
      return true;
    }

    method SettleTotals(totals: Totals) returns (ok: bool)
      requires OwnersListed()
      modifies this`stabilityPool, this`thusd, this`L, this`tally, this`activePool, this`defaultPool, this`surplusColl,
               this`totalStakesSnapshot, this`totalCollateralSnapshot
      ensures ok == Settle(old(Model()), totals).Some?
      ensures ok ==> Model() == Settle(old(Model()), totals).value && OwnersListed() && troves == old(troves)
    {
      hide ApplyOffset, Redistribute, Registered;
      if totals.debt == 0 { return false; }
      ok := OffsetWithStabilityPool(totals.debtToOffset, totals.collToSP);
      if !ok { return; }
      ok := RedistributeDebtAndColl(totals.debtToRedistribute, totals.collToRedistribute);
      if !ok { return; }
      ok := PaySurplusAndGas(totals.collSurplus, totals.collGas, totals.thusdGas);
    }

    // The surplus goes to its pool, the system is snapshot without the gas share, and the caller is paid.
    method PaySurplusAndGas(collSurplus: nat, collGas: nat, thusdGas: nat) returns (ok: bool)
      modifies this`activePool, this`surplusColl, this`totalStakesSnapshot, this`totalCollateralSnapshot, this`thusd
      ensures ok == (old(activePool.coll) >= collSurplus + collGas && old(thusd.gasPool) >= thusdGas)
      ensures
        ok ==>
          var s := old(Model());
          var left := s.activeColl - collSurplus - collGas;
          Model() == s.(activeColl := left, surplusColl := s.surplusColl + collSurplus, stakesSnapshot := s.totalStakes,
                        collSnapshot := left + s.defaultColl, gasPool := s.gasPool - thusdGas, held := s.held + thusdGas)
    {
      if activePool.coll < collSurplus + collGas || thusd.gasPool < thusdGas { return false; }
      activePool := activePool.(coll := activePool.coll - collSurplus);
      surplusColl := surplusColl + collSurplus;
      totalStakesSnapshot, totalCollateralSnapshot := totalStakes, activePool.coll - collGas + defaultPool.coll;
      thusd := thusd.(gasPool := thusd.gasPool - thusdGas, held := thusd.held + thusdGas);
      activePool := activePool.(coll := activePool.coll - collGas);
      return true;
    }

    method BatchLiquidateTroves(ids: seq<nat>, price: nat) returns (ok: bool)
      requires Inv(Model()) && OwnersListed() && price > 0
      modifies this, sortedTroves
      ensures ok == Liquidate(old(Model()), ids, price).Some?
      ensures ok ==> Model() == Liquidate(old(Model()), ids, price).value && Inv(Model()) && OwnersListed()
      ensures ok ==> sortedTroves.order == Survivors(troves, old(sortedTroves.order))
      ensures
        var s := old(Model());
        ok && InOrder(s, old(sortedTroves.order)) ==>
        && Books(s, NOTHING) && Batch(s, ids, price, RecoveryMode(s, price)).Some?
        && (InOrder(Model(), sortedTroves.order) <==>
              NeighboursSorted(sortedTroves.order, SharedRatios(s, Batch(s, ids, price, RecoveryMode(s, price)).value)))
    {
      hide Survivors, Books, TokensMatchDebt, Batch, Settle, Registered, ComputeCR, DebtClaimsCovered, InOrder, SharedRatio;
      hide NeighboursSorted, SP.Valid;
      ghost var s, order := Model(), sortedTroves.order;
      LiquidateKeepsInv(s, ids, price);
      if |ids| == 0 { return false; }
      var tcr := ComputeCR(activePool.coll + defaultPool.coll, activePool.debt + defaultPool.debt, price);
      var recoveryModeAtStart := tcr < CCR;
      var totals;
      ghost var p;
      if recoveryModeAtStart {
        ok, totals, p := GetTotalFromBatchLiquidate_RecoveryMode(ids, price, stabilityPool.total);
      } else {
        ok, totals, p := GetTotalsFromBatchLiquidate_NormalMode(ids, price, stabilityPool.total);
      }
      if !ok { return; }
      ok := SettleTotals(totals);
      if ok && InOrder(s, order) {
        LiquidateOrderExactly(s, order, ids, price);
      }
    }

    // ---- Redemption ----

    method ApplyAndRedeem(i: nat, max: nat, price: nat, hintNICR: nat, upperHint: nat, lowerHint: nat)
      returns (ok: bool, lot: nat, collLot: nat, cancelled: bool, ghost one: Single)
      requires i < |troves| && GoodTrove(Model(), troves[i]) && troves[i].status.Active? && |surplus| == |troves|
      requires price > 0 && OwnersListed()
      modifies this`troves, this`totalStakes, this`troveOwners, this`arrayIndex, this`thusd, this`activePool, this`defaultPool,
               this`surplus, this`surplusColl, this`tally, sortedTroves
      ensures ok == RedeemOne(old(Model()), i, max, price, hintNICR).Some?
      ensures ok ==> RedeemOne(old(Model()), i, max, price, hintNICR) == Some(one)
      ensures ok ==> one == Single(Model(), lot, collLot, one.closed, cancelled) && OwnersListed()
      ensures ok && one.closed ==> sortedTroves.order == Survivors(troves, old(sortedTroves.order))
      ensures ok && cancelled ==> sortedTroves.order == old(sortedTroves.order)
      ensures ok && !one.closed && !cancelled ==>
                Reinserted(old(sortedTroves.order), sortedTroves.order, i, Nominals(troves, L.coll, L.debt), hintNICR)
    {
      hide Survivors, Reinserted, ApplyPending, RedeemFromTrove, Registered, GoodTrove;
      lot, collLot, cancelled, one := 0, 0, false, Single(Model(), 0, 0, false, false);
      AppliedStatus(Model(), i);
      ok := ApplyPendingRewards(i);
      if ok {
        ok, lot, collLot, cancelled, one := RedeemCollateralFromTrove(i, max, price, hintNICR, upperHint, lowerHint);
      }
    }

    // `lot` and `collLot` are 0 where the partial redemption is cancelled.
    method RedeemCollateralFromTrove(i: nat, max: nat, price: nat, hintNICR: nat, upperHint: nat, lowerHint: nat)
      returns (ok: bool, lot: nat, collLot: nat, cancelled: bool, ghost one: Single)
      requires i < |troves| && troves[i].status.Active? && |surplus| == |troves| && price > 0 && OwnersListed()
      modifies this`troves, this`totalStakes, this`troveOwners, this`arrayIndex, this`thusd, this`activePool, this`defaultPool,
               this`surplus, this`surplusColl, this`tally, sortedTroves
      ensures ok == RedeemFromTrove(old(Model()), i, max, price, hintNICR).Some?
      ensures ok ==> RedeemFromTrove(old(Model()), i, max, price, hintNICR) == Some(one)
      ensures ok ==> one == Single(Model(), lot, collLot, one.closed, cancelled) && OwnersListed()
      ensures ok && one.closed ==> sortedTroves.order == Survivors(troves, old(sortedTroves.order))
      ensures ok && cancelled ==> sortedTroves.order == old(sortedTroves.order)
      ensures ok && !one.closed && !cancelled ==>
                Reinserted(old(sortedTroves.order), sortedTroves.order, i, Nominals(troves, L.coll, L.debt), hintNICR)
    {
      hide Survivors, Reinserted, SetTrove, CloseRedeemed, Registered, ComputeNominalCR, FaceColl;
      lot, collLot, cancelled, one := 0, 0, false, Single(Model(), 0, 0, false, true);
      var t := troves[i];
      if t.debt < GAS_COMPENSATION { return false, 0, 0, false, one; }
      var amount := Min(max, t.debt - GAS_COMPENSATION);
      var value := FaceColl(amount, price);
      if t.coll < value { return false, 0, 0, false, one; }
      var newDebt, newColl := t.debt - amount, t.coll - value;
      if newDebt == GAS_COMPENSATION {
        ok := CloseFullyRedeemed(i, newColl);
        return ok, amount, value, false, Single(Model(), amount, value, true, false);
      }
      var newNICR := ComputeNominalCR(newColl, newDebt);
      if newNICR != hintNICR || newDebt - GAS_COMPENSATION < MIN_NET_DEBT { return true, 0, 0, true, one; }
      if newNICR == 0 { return false, 0, 0, false, one; }
      ghost var before, order := troves, sortedTroves.order;
      RegisteredMeans(troves, troveOwners, arrayIndex, order);
      ReinsertTrove(i, newNICR, upperHint, lowerHint);
      SetTouchesOne(Model(), i, newColl, newDebt);
      ok := SetCollDebtAndStake(i, newColl, newDebt);
      if ok {
        ReinsertedElsewhere(before, troves, L.coll, L.debt, order, sortedTroves.order, i, newNICR);
      }
      return ok, amount, value, false, Single(Model(), amount, value, false, false);
    }

    method CloseFullyRedeemed(i: nat, rest: nat) returns (ok: bool)
      requires i < |troves| && troves[i].status.Active? && |surplus| == |troves| && OwnersListed()
      modifies this`troves, this`totalStakes, this`troveOwners, this`arrayIndex, this`thusd, this`activePool,
               this`surplus, this`surplusColl, sortedTroves
      ensures ok == CloseRedeemed(old(Model()), i, rest).Some?
      ensures ok ==> Model() == CloseRedeemed(old(Model()), i, rest).value && OwnersListed()
      ensures ok ==> sortedTroves.order == Survivors(troves, old(sortedTroves.order))
    {
      hide CloseOut, Registered, Survivors;
      SurplusOnly(Model(), i);
      ok := RemoveStakeAndClose(i, ClosedByRedemption);
      if ok {
        ok := RedeemCloseTrove(i, rest);
      }
    }

    method RedeemCloseTrove(i: nat, rest: nat) returns (ok: bool)
      requires i < |surplus|
      modifies this`thusd, this`activePool, this`surplus, this`surplusColl
      ensures ok == BurnReserve(old(Model()), i, rest).Some?
      ensures ok ==> Model() == BurnReserve(old(Model()), i, rest).value
    {
      if thusd.gasPool < GAS_COMPENSATION || thusd.supply < GAS_COMPENSATION
         || activePool.debt < GAS_COMPENSATION || activePool.coll < rest {
        return false;
      }
      thusd := thusd.(gasPool := thusd.gasPool - GAS_COMPENSATION, supply := thusd.supply - GAS_COMPENSATION);
      activePool := Balance(activePool.coll - rest, activePool.debt - GAS_COMPENSATION);
      surplus, surplusColl := surplus[i := surplus[i] + rest], surplusColl + rest;
      return true;
    }

    method RedeemCollateral(amount: nat, price: nat, firstHint: nat, upperHint: nat, lowerHint: nat, hintNICR: nat,
                            maxIterations: nat, fee: nat, feedInactive: bool) returns (ok: bool)
      requires Inv(Model()) && OwnersListed() && price > 0
      modifies this, sortedTroves
      ensures
        var s, order := old(Model()), old(sortedTroves.order);
        (ListIsRedeemable(s, old(troveOwners), old(arrayIndex), order);
         var r := RedeemFromList(s, order, amount, price, firstHint, hintNICR, maxIterations, fee, feedInactive);
         ok == r.Some? && (ok ==> Model() == r.value))
      ensures ok ==> Inv(Model()) && OwnersListed()
      ensures
        var s, order := old(Model()), old(sortedTroves.order);
        (ListIsRedeemable(s, old(troveOwners), old(arrayIndex), order);
         var part := PartlyRedeemed(s, order, amount, price, firstHint, hintNICR, maxIterations);
         ok && InOrder(s, order) ==>
         (InOrder(Model(), sortedTroves.order) <==> part.None? || NextNoHigher(sortedTroves.order, part.value, NICRs(Model()))))
      ensures ok && old(Synced(Model()) && InOrder(Model(), sortedTroves.order)) ==> InOrder(Model(), sortedTroves.order)
    {
      hide Inv, Visitable, Queue, Registered, ComputeCR, RedeemLoop, AllGood, Distinct, Entry, InOrder, Synced, Visits, ListAfter;
      hide PartlyRedeemed, NextNoHigher;
      ghost var s, order := Model(), sortedTroves.order;
      ListIsRedeemable(s, troveOwners, arrayIndex, order);
      RegisteredMeans(troves, troveOwners, arrayIndex, order);
      var tcr := ComputeCR(activePool.coll + defaultPool.coll, activePool.debt + defaultPool.debt, price);
      if !feedInactive || tcr < MCR { return false; }
      if amount == 0 || thusd.held < amount { return false; }
      var currentBorrower;
      ghost var w;
      currentBorrower, w := FindRedemptionStart(firstHint, price);
      QueueOfList(s, order, w, troveOwners, arrayIndex);
      var totalRedeemed, totalDrawn;
      ghost var o;
      ok, totalRedeemed, totalDrawn, o :=
        RedeemAlongList(currentBorrower, amount, price, hintNICR, maxIterations, upperHint, lowerHint, s, order, w);
      if !ok || totalDrawn == 0 || fee >= totalDrawn { return false; }
      ok := PayRedeemer(totalRedeemed, totalDrawn, fee);
      if ok {
        RedeemedInOrderOfList(s, order, amount, price, firstHint, hintNICR, maxIterations, fee, feedInactive,
                              Model(), sortedTroves.order);
      }
    }

    method IsValidFirstRedemptionHint(hint: nat, price: nat) returns (valid: bool)
      requires OwnersListed() && AllGood(Model(), sortedTroves.order)
      ensures valid == ValidFirstHint(Model(), sortedTroves.order, price, PositionOf(sortedTroves.order, hint))
    {
      hide Registered, Linked, ICR, GoodTrove;
      ghost var order := sortedTroves.order;
      ghost var k := PositionOf(order, hint);
      LinkedMeans(sortedTroves.nodes, order);
      if hint == 0 || !sortedTroves.Contains(hint) { return false; }
      NodeOf(sortedTroves.nodes, order, k);
      var icr := GetCurrentICR(hint, price);
      if icr < MCR { return false; }
      var nextTrove := sortedTroves.NodeAt(hint).nextId;
      NeighboursAreNodes(sortedTroves.nodes, order, k + 1);
      if nextTrove == 0 { return true; }
      icr := GetCurrentICR(nextTrove, price);
      return icr < MCR;
    }

    // The first hint if it is valid, and otherwise the first trove from the tail upwards with ICR >= MCR.
    method FindRedemptionStart(firstHint: nat, price: nat) returns (currentBorrower: nat, ghost w: int)
      requires OwnersListed() && AllGood(Model(), sortedTroves.order)
      ensures w == Entry(Model(), sortedTroves.order, price, firstHint) && currentBorrower == At(sortedTroves.order, w)
    {
      hide Registered, Linked, ICR, GoodTrove, ValidFirstHint;
      ghost var order := sortedTroves.order;
      var valid := IsValidFirstRedemptionHint(firstHint, price);
      if valid {
        HintInRange(Model(), order, price, firstHint);
        return firstHint, PositionOf(order, firstHint);
      }
      currentBorrower, w := sortedTroves.tail, |order| - 1;
      assert order[..|order|] == order;
      while currentBorrower != 0
        invariant -1 <= w < |order| && currentBorrower == At(order, w) && AllGood(Model(), order[..w + 1])
        invariant Walk(Model(), order[..w + 1], price) == Walk(Model(), order, price)
        decreases w + 1
      {
        NeighboursAreNodes(sortedTroves.nodes, order, w);
        var icr := GetCurrentICR(currentBorrower, price);
        WalkStep(Model(), order, price, w);
        if icr >= MCR { return; }
        NodeOf(sortedTroves.nodes, order, w);
        currentBorrower := sortedTroves.NodeAt(currentBorrower).prevId;
        w := w - 1;
      }
      NeighboursAreNodes(sortedTroves.nodes, order, w);
    }

    // The loop of redeemCollateral, up the list. The trove before the current one is looked up before the list
    // changes.
    method RedeemAlongList(start: nat, amount: nat, price: nat, hintNICR: nat, maxIterations: nat, upperHint: nat, lowerHint: nat,
                           ghost s: Ledger, ghost order: seq<nat>, ghost w: int)
      returns (ok: bool, redeemed: nat, drawn: nat, ghost o: Outcome)
      requires s == Model() && order == sortedTroves.order && -1 <= w < |order| && start == At(order, w) && price > 0
      requires OwnersListed() && Queue(s, Upwards(order, w)) && Visitable(s, Upwards(order, w))
      modifies this`troves, this`totalStakes, this`troveOwners, this`arrayIndex, this`thusd, this`activePool, this`defaultPool,
               this`surplus, this`surplusColl, this`tally, sortedTroves
      ensures Visitable(s, Visits(Upwards(order, w), maxIterations))
      ensures ok == RedeemLoop(s, Visits(Upwards(order, w), maxIterations), amount, price, hintNICR).Some?
      ensures ok ==> RedeemLoop(s, Visits(Upwards(order, w), maxIterations), amount, price, hintNICR) == Some(o)
      ensures ok ==> o.s == Model() && o.redeemed == redeemed && o.drawn == drawn && OwnersListed()
      ensures ok ==> ListAfter(order, w, o.closed, o.partial, sortedTroves.order, Nominals(troves, L.coll, L.debt), hintNICR)
    {
      hide RedeemLoop, RedeemOne, Registered, GoodTrove, Visitable, Queue, Linked, Reinserted, Survivors, Midway, ListAfter;
      hide Visits, At, Nominals, WithoutClosed;
      ghost var queue := Visits(Upwards(order, w), maxIterations);
      PrefixVisitable(s, Upwards(order, w), maxIterations);
      ghost var loop := RedeemLoop(s, queue, amount, price, hintNICR);
      var remaining: nat, currentBorrower, iterations := amount, start, 0;
      redeemed, drawn, ok := 0, 0, true;
      ghost var closed, partial := 0, 0;
      o := Outcome(s, 0, 0, 0, 0, false);
      MidwayStarts(s, queue, amount, price, hintNICR);
      NothingCut(order, w, Nominals(troves, L.coll, L.debt), hintNICR);
      LinkedMeans(sortedTroves.nodes, order);
      while currentBorrower != 0 && remaining > 0 && (maxIterations == 0 || iterations < maxIterations)
        invariant 0 <= iterations <= |queue| && ok && OwnersListed() && currentBorrower == At(order, w - iterations)
        invariant Midway(Model(), loop, queue, iterations, remaining, price, hintNICR,
                         Outcome(s, redeemed, drawn, closed, partial, false))
        invariant ListAfter(order, w, closed, partial, sortedTroves.order, Nominals(troves, L.coll, L.debt), hintNICR)
        decreases |queue| - iterations
      {
        ghost var so := Outcome(s, redeemed, drawn, closed, partial, false);
        var nextUserToCheck, lot, collLot, cancelled;
        ghost var wasClosed;
        ok, nextUserToCheck, lot, collLot, cancelled, wasClosed :=
          RedeemNext(currentBorrower, remaining, price, hintNICR, upperHint, lowerHint,
                     order, w, iterations, maxIterations, loop, so);
        if !ok { return; }
        if cancelled {
          o := Outcome(Model(), redeemed, drawn, closed, 0, true);
          return;
        }
        redeemed, drawn, remaining := redeemed + lot, drawn + collLot, remaining - lot;
        closed, partial := closed + (if wasClosed then 1 else 0), partial + if wasClosed then 0 else lot;
        currentBorrower, iterations := nextUserToCheck, iterations + 1;
      }
      QueueExhausted(order, w, queue, iterations, maxIterations, currentBorrower, remaining);
      o := Outcome(s, redeemed, drawn, closed, partial, false);
      MidwayEnds(Model(), loop, queue, iterations, remaining, price, hintNICR, o);
      o := o.(s := Model());
    }

    // One turn of that loop. k: the turns before it.
    method RedeemNext(currentBorrower: nat, remaining: nat, price: nat, hintNICR: nat, upperHint: nat, lowerHint: nat,
                      ghost order: seq<nat>, ghost w: int, ghost k: nat, ghost maxIterations: nat, ghost loop: Option<Outcome>,
                      ghost so: Outcome)
      returns (ok: bool, nextUserToCheck: nat, lot: nat, collLot: nat, cancelled: bool, ghost closed: bool)
      requires -1 <= w < |order| && OwnersListed() && currentBorrower == At(order, w - k) != 0
      requires remaining > 0 && (maxIterations == 0 || k < maxIterations)
      requires Midway(Model(), loop, Visits(Upwards(order, w), maxIterations), k, remaining, price, hintNICR, so)
      requires ListAfter(order, w, so.closed, so.partial, sortedTroves.order, Nominals(troves, L.coll, L.debt), hintNICR)
      modifies this`troves, this`totalStakes, this`troveOwners, this`arrayIndex, this`thusd, this`activePool, this`defaultPool,
               this`surplus, this`surplusColl, this`tally, sortedTroves
      ensures !ok ==> loop.None?
      ensures ok ==> OwnersListed() && k < |Visits(Upwards(order, w), maxIterations)|
      ensures ok && cancelled ==>
                && loop == Some(Outcome(Model(), so.redeemed, so.drawn, so.closed, 0, true))
                && ListAfter(order, w, so.closed, 0, sortedTroves.order, Nominals(troves, L.coll, L.debt), hintNICR)
      ensures
        ok && !cancelled ==>
          && lot <= remaining && nextUserToCheck == At(order, w - k - 1)
          && var now := so.(redeemed := so.redeemed + lot, drawn := so.drawn + collLot,
                            closed := so.closed + (if closed then 1 else 0),
                            partial := so.partial + if closed then 0 else lot);
          && Midway(Model(), loop, Visits(Upwards(order, w), maxIterations), k + 1, remaining - lot, price, hintNICR, now)
          && ListAfter(order, w, now.closed, now.partial, sortedTroves.order, Nominals(troves, L.coll, L.debt), hintNICR)
    {
      hide RedeemOne, Registered, GoodTrove, Linked, Reinserted, Survivors, Midway, ListAfter, Visits, Upwards, At;
      hide Nominals, WithoutClosed;
      ghost var s, queue, list := Model(), Visits(Upwards(order, w), maxIterations), sortedTroves.order;
      MidwayMeans(s, loop, queue, k, remaining, price, hintNICR, so);
      NextInQueue(order, w, queue, k, maxIterations, sortedTroves.nodes, list, Nominals(troves, L.coll, L.debt), hintNICR);
      MidwayNext(s, loop, queue, k, remaining, price, hintNICR, so);
      RegisteredMeans(troves, troveOwners, arrayIndex, list);
      nextUserToCheck := sortedTroves.NodeAt(currentBorrower).prevId;
      ghost var one;
      ok, lot, collLot, cancelled, one := ApplyAndRedeem(currentBorrower, remaining, price, hintNICR, upperHint, lowerHint);
      closed := one.closed;
      if ok && cancelled {
        NonePartial(order, w, so.closed, list, Nominals(troves, L.coll, L.debt), hintNICR);
      } else if ok {
        ListAfterVisit(order, w, k, s, remaining, price, list, sortedTroves.order, Nominals(troves, L.coll, L.debt), hintNICR);
      }
    }

    // Send the fee to the PCV, if there is one, burn the redeemed thUSD and send the rest of the collateral.
    method PayRedeemer(redeemed: nat, drawn: nat, fee: nat) returns (ok: bool)
      requires fee < drawn
      modifies this`thusd, this`activePool, this`tally
      ensures ok == (old(thusd.held) >= redeemed && old(thusd.supply) >= redeemed
                     && old(activePool.debt) >= redeemed && old(activePool.coll) >= drawn)
      ensures
        ok ==>
          var s := old(Model());
          Model() == s.(held := s.held - redeemed, supply := s.supply - redeemed, activeDebt := s.activeDebt - redeemed,
                        activeColl := s.activeColl - (if s.pcvSet then drawn else drawn - fee),
                        stranded := s.stranded + if s.pcvSet then 0 else fee)
    {
      if activePool.coll < drawn || thusd.held < redeemed || thusd.supply < redeemed || activePool.debt < redeemed {
        return false;
      }
      if pcvSet {
        activePool := activePool.(coll := activePool.coll - fee);
      } else {
        tally := tally.(stranded := tally.stranded + fee);
      }
      thusd := thusd.(held := thusd.held - redeemed, supply := thusd.supply - redeemed);
      activePool := Balance(activePool.coll - (drawn - fee), activePool.debt - redeemed);
      return true;
    }

    // ---- Borrowers ----

    method MintTHUSD(amount: nat, debt: nat) returns (ok: bool)
      modifies this`thusd, this`activePool
      ensures ok == Mint(old(Model()), amount, debt).Some?
      ensures ok ==> Model() == Mint(old(Model()), amount, debt).value
    {
      if !canMint { return false; }
      activePool := activePool.(debt := activePool.debt + debt);
      thusd := thusd.(supply := thusd.supply + amount, held := thusd.held + amount);
      return true;
    }

    method TriggerBorrowingFee(fee: nat) returns (ok: bool)
      modifies this`thusd, this`activePool, this`tally
      ensures ok == PayFee(old(Model()), fee).Some?
      ensures ok ==> Model() == PayFee(old(Model()), fee).value
    {
      if pcvSet {
        ok := MintTHUSD(fee, 0);
      } else {
        tally := tally.(unminted := tally.unminted + fee);
        ok := true;
      }
    }

    method OpenTrove(i: nat, amount: nat, coll: nat, fee: nat, price: nat, feedActive: bool, upperHint: nat, lowerHint: nat)
      returns (ok: bool)
      requires Inv(Model()) && 0 < i < |troves| && OwnersListed()
      modifies this, sortedTroves
      ensures ok == Open(old(Model()), i, amount, coll, fee, price, feedActive).Some?
      ensures ok ==> Model() == Open(old(Model()), i, amount, coll, fee, price, feedActive).value
      ensures ok ==> Inv(Model()) && OwnersListed()
      ensures ok ==> Inserted(old(sortedTroves.order), sortedTroves.order, i, NICRs(Model()), NICROf(Model(), i))
      ensures ok && old(InOrder(Model(), sortedTroves.order)) ==> InOrder(Model(), sortedTroves.order)
    {
      hide Inserted, InOrder, NICROf, Inv, Registered, ComputeCR, ComputeNominalCR, NewStake;
      ghost var s, order := Model(), sortedTroves.order;
      RegisteredMeans(troves, troveOwners, arrayIndex, order);
      var isRecoveryMode := ComputeCR(activePool.coll + defaultPool.coll, activePool.debt + defaultPool.debt, price) < CCR;
      if !feedActive || troves[i].status == Active { return false; }
      var charged := if isRecoveryMode then 0 else fee;
      FeeIsMinted(s, charged);
      ok := TriggerBorrowingFee(charged);
      var netDebt := amount + charged;
      if !ok || netDebt < MIN_NET_DEBT { return false; }
      var compositeDebt := netDebt + GAS_COMPENSATION;
      ok := RequireOpeningRatios(isRecoveryMode, coll, compositeDebt, price);
      if !ok { return; }
      SnapshotsFixStake(s, Model(), coll);
      ok := CreateAndFund(i, amount, netDebt, coll, upperHint, lowerHint);
      if ok {
        OpenedInOrder(s, Model(), order, sortedTroves.order, i, amount, coll, fee, price, feedActive);
      }
    }

    // The new trove, its collateral and its tokens.
    method CreateAndFund(i: nat, amount: nat, netDebt: nat, coll: nat, upperHint: nat, lowerHint: nat) returns (ok: bool)
      requires 0 < i < |troves| && OwnersListed() && troves[i].status != Active
      requires ComputeNominalCR(coll, netDebt + GAS_COMPENSATION) > 0
      modifies this`troves, this`totalStakes, this`troveOwners, this`arrayIndex, this`thusd, this`activePool, sortedTroves
      ensures ok == (NewStake(old(Model()), coll).Some? && old(canMint))
      ensures
        ok ==>
          var s := old(Model());
          var debt, stake := netDebt + GAS_COMPENSATION, NewStake(s, coll).value;
          Model() == With(s, i, Trove(Active, debt, coll, stake, s.LColl, s.LDebt))
                     .(totalStakes := s.totalStakes + stake, activeColl := s.activeColl + coll, activeDebt := s.activeDebt + debt,
                       held := s.held + amount, gasPool := s.gasPool + GAS_COMPENSATION,
                       supply := s.supply + amount + GAS_COMPENSATION)
      ensures ok ==> OwnersListed()
      ensures ok ==> Inserted(old(sortedTroves.order), sortedTroves.order, i, Nominals(troves, L.coll, L.debt),
                              ComputeNominalCR(coll, netDebt + GAS_COMPENSATION))
    {
      hide Registered, NewStake, ComputeNominalCR, Inserted;
      ok := CreateTrove(i, netDebt + GAS_COMPENSATION, coll, upperHint, lowerHint);
      if !ok { return; }
      activePool := activePool.(coll := activePool.coll + coll);
      ok := WithdrawTHUSD(amount, netDebt);
    }

    // Mint the amount to the borrower and the reserve to the gas pool.
    method WithdrawTHUSD(amount: nat, netDebt: nat) returns (ok: bool)
      modifies this`thusd, this`activePool
      ensures ok == canMint
      ensures
        ok ==>
          var s := old(Model());
          Model() == s.(held := s.held + amount, supply := s.supply + amount + GAS_COMPENSATION,
                        activeDebt := s.activeDebt + netDebt + GAS_COMPENSATION, gasPool := s.gasPool + GAS_COMPENSATION)
    {
      ok := MintTHUSD(amount, netDebt);
      if !ok { return; }
      activePool := activePool.(debt := activePool.debt + GAS_COMPENSATION);
      thusd := thusd.(supply := thusd.supply + GAS_COMPENSATION, gasPool := thusd.gasPool + GAS_COMPENSATION);
    }

    // _requireICRisAboveCCR, or _requireICRisAboveMCR and _requireNewTCRisAboveCCR; and a NICR for the list.
    method RequireOpeningRatios(isRecoveryMode: bool, coll: nat, debt: nat, price: nat) returns (ok: bool)
      ensures
        var s := Model();
        var icr := ComputeCR(coll, debt, price);
        ok == (ComputeNominalCR(coll, debt) != 0
               && if isRecoveryMode then icr >= CCR
                  else icr >= MCR && ComputeCR(SystemColl(s) + coll, SystemDebt(s) + debt, price) >= CCR)
    {
      hide ComputeCR, ComputeNominalCR;
      var icr, nicr := ComputeCR(coll, debt, price), ComputeNominalCR(coll, debt);
      var newTCR := ComputeCR(activePool.coll + defaultPool.coll + coll, activePool.debt + defaultPool.debt + debt, price);
      return nicr != 0 && if isRecoveryMode then icr >= CCR else icr >= MCR && newTCR >= CCR;
    }

    method CreateTrove(i: nat, debt: nat, coll: nat, upperHint: nat, lowerHint: nat) returns (ok: bool)
      requires 0 < i < |troves| && OwnersListed() && troves[i].status != Active && ComputeNominalCR(coll, debt) > 0
      modifies this`troves, this`totalStakes, this`troveOwners, this`arrayIndex, sortedTroves
      ensures ok == NewStake(old(Model()), coll).Some?
      ensures
        ok ==>
          var s := old(Model());
          var stake := NewStake(s, coll).value;
          && Model() == With(s, i, Trove(Active, debt, coll, stake, s.LColl, s.LDebt)).(totalStakes := s.totalStakes + stake)
          && OwnersListed()
      ensures ok ==> Inserted(old(sortedTroves.order), sortedTroves.order, i, Nominals(troves, L.coll, L.debt),
                              ComputeNominalCR(coll, debt))
    {
      hide Registered, NewStake, ComputeNominalCR, Nominals, Inserted, Linked;
      var stake;
      ok, stake := ComputeNewStake(coll);
      if !ok { return; }
      RegisterTrove(i, Trove(Active, debt, coll, stake, L.coll, L.debt), ComputeNominalCR(coll, debt), upperHint, lowerHint);
      totalStakes := totalStakes + stake;
    }

    // Record a new trove, put it into the sorted list, and list its owner.
    method RegisterTrove(i: nat, t: Trove, newNICR: nat, upperHint: nat, lowerHint: nat)
      requires 0 < i < |troves| && OwnersListed() && troves[i].status != Active && t.status == Active && newNICR > 0
      modifies this`troves, this`troveOwners, this`arrayIndex, sortedTroves
      ensures troves == old(troves)[i := t] && OwnersListed()
      ensures Inserted(old(sortedTroves.order), sortedTroves.order, i, Nominals(troves, L.coll, L.debt), newNICR)
    {
      hide Registered, InsertAt, Slot, Nominals, Inserted, Linked;
      ghost var before, order, k := troves, sortedTroves.order, 0;
      RegisteredMeans(troves, troveOwners, arrayIndex, order);
      RoomInRegister(troves, troveOwners, arrayIndex, order, i);
      troves := troves[i := t];
      var ok;
      ok, k := sortedTroves.Insert(Nominals(troves, L.coll, L.debt), i, newNICR, upperHint, lowerHint);
      SlotInRange(order, Nominals(troves, L.coll, L.debt), newNICR, k);
      OpeningKeepsRegistered(before, troveOwners, arrayIndex, order, i, t, sortedTroves.order, k);
      InsertedIf(order, sortedTroves.order, i, Nominals(troves, L.coll, L.debt), newNICR, k);
      troveOwners, arrayIndex := troveOwners + [i], arrayIndex[i := |troveOwners|];
    }

    // Move a trove within the sorted list to a place for its new nominal ratio.
    method ReinsertTrove(i: nat, newNICR: nat, upperHint: nat, lowerHint: nat)
      requires i < |troves| && troves[i].status.Active? && OwnersListed() && newNICR > 0
      modifies sortedTroves
      ensures OwnersListed()
      ensures Reinserted(old(sortedTroves.order), sortedTroves.order, i, Nominals(troves, L.coll, L.debt), newNICR)
    {
      hide Registered, InsertAt, RemoveAt, Slot;
      ghost var order, j, k := sortedTroves.order, 0, 0;
      RegisteredMeans(troves, troveOwners, arrayIndex, order);
      var ok;
      ok, j, k := sortedTroves.ReInsert(Nominals(troves, L.coll, L.debt), i, newNICR, upperHint, lowerHint);
      SlotInRange(RemoveAt(order, j), Nominals(troves, L.coll, L.debt), newNICR, k);
      InsertedIf(RemoveAt(order, j), sortedTroves.order, i, Nominals(troves, L.coll, L.debt), newNICR, k);
      ReinsertionKeepsRegistered(troves, troveOwners, arrayIndex, order, i, sortedTroves.order,
                                 Nominals(troves, L.coll, L.debt), newNICR);
    }

    method AdjustTrove(i: nat, c: Change, fee: nat, price: nat, upperHint: nat, lowerHint: nat) returns (ok: bool)
      requires Inv(Model()) && i < |troves| && GoodTrove(Model(), troves[i]) && OwnersListed()
      modifies this, sortedTroves
      ensures ok ==> |troves| == |old(troves)|
      ensures ok == Adjust(old(Model()), i, c, fee, price).Some?
      ensures ok ==> Model() == Adjust(old(Model()), i, c, fee, price).value && Inv(Model()) && OwnersListed()
      ensures ok ==> Reinserted(old(sortedTroves.order), sortedTroves.order, i, Nominals(troves, L.coll, L.debt),
                                ComputeNominalCR(troves[i].coll, troves[i].debt))
      ensures ok ==> NICROf(Model(), i) == RatioAfter(old(Model()), old(troves)[i], troves[i].coll, troves[i].debt)
      ensures ok && old(InOrder(Model(), sortedTroves.order)) ==>
                (InOrder(Model(), sortedTroves.order) <==> NextNoHigher(sortedTroves.order, i, NICRs(Model())))
      ensures ok && old(Synced(Model()) && InOrder(Model(), sortedTroves.order)) ==> InOrder(Model(), sortedTroves.order)
    {
      hide Reinserted, InOrder, Synced, Inv, Registered, ComputeCR, ComputeNominalCR, ApplyPending, MakeChange, GoodTrove;
      hide NICROf, RatioAfter, NextNoHigher;
      ghost var s, order := Model(), sortedTroves.order;
      RegisteredMeans(troves, troveOwners, arrayIndex, order);
      AdjustKeeps(s, i, c, fee, price);
      AppliedStatus(s, i);
      var recovery := ComputeCR(activePool.coll + defaultPool.coll, activePool.debt + defaultPool.debt, price) < CCR;
      if c.increase && c.debt == 0 { return false; }
      if c.collIn != 0 && c.collOut != 0 { return false; }
      if c.collIn == 0 && c.collOut == 0 && c.debt == 0 { return false; }
      if troves[i].status != Active { return false; }
      ok := ApplyPendingRewards(i);
      if !ok { return; }
      ok := MakeAdjustment(i, c, if c.increase && !recovery then fee else 0, recovery, price, upperHint, lowerHint);
      if ok {
        AdjustedInOrder(s, Model(), order, sortedTroves.order, i, c, fee, price);
      }
    }

    // The adjustment itself, once the pending rewards are applied.
    method MakeAdjustment(i: nat, c: Change, charged: nat, recovery: bool, price: nat, upperHint: nat, lowerHint: nat)
      returns (ok: bool)
      requires i < |troves| && troves[i].status.Active? && OwnersListed()
      modifies this, sortedTroves
      ensures ok ==> |troves| == |old(troves)|
      ensures ok == MakeChange(old(Model()), i, c, charged, recovery, price).Some?
      ensures ok ==> Model() == MakeChange(old(Model()), i, c, charged, recovery, price).value && OwnersListed()
      ensures ok ==> Reinserted(old(sortedTroves.order), sortedTroves.order, i, Nominals(troves, L.coll, L.debt),
                                ComputeNominalCR(troves[i].coll, troves[i].debt))
    {
      hide Reinserted, Registered, ComputeNominalCR, SetTrove, AdmitsAdjustment, MoveTokens;
      var debt, coll := troves[i].debt, troves[i].coll;
      if coll < c.collOut || (!c.increase && debt < c.debt) { return false; }
      var newColl := coll + c.collIn - c.collOut;
      var newDebt := if c.increase then debt + c.debt + charged else debt - c.debt;
      ok := RequireValidAdjustment(c, coll, debt, newColl, newDebt, recovery, price);
      if !ok { return; }
      if !c.increase && c.debt > 0 && (newDebt < GAS_COMPENSATION + MIN_NET_DEBT || thusd.held < c.debt) { return false; }
      var newNICR := ComputeNominalCR(newColl, newDebt);
      if newNICR == 0 { return false; }
      ok := UpdateTroveAndList(i, newColl, newDebt, newNICR, upperHint, lowerHint);
      if !ok { return; }
      ok := MoveTokensAndCollateral(c, charged);
    }

    method UpdateTroveAndList(i: nat, newColl: nat, newDebt: nat, newNICR: nat, upperHint: nat, lowerHint: nat) returns (ok: bool)
      requires i < |troves| && troves[i].status.Active? && OwnersListed() && newNICR > 0
      modifies this`troves, this`totalStakes, sortedTroves
      ensures ok == SetTrove(old(Model()), i, newColl, newDebt).Some?
      ensures ok ==> Model() == SetTrove(old(Model()), i, newColl, newDebt).value && OwnersListed()
      ensures ok ==> |troves| == |old(troves)| && troves[i].coll == newColl && troves[i].debt == newDebt
      ensures ok ==> Reinserted(old(sortedTroves.order), sortedTroves.order, i, Nominals(troves, L.coll, L.debt), newNICR)
    {
      hide SetTrove, Registered, Reinserted;
      SetTouchesOne(Model(), i, newColl, newDebt);
      ok := SetCollDebtAndStake(i, newColl, newDebt);
      if ok {
        ReinsertTrove(i, newNICR, upperHint, lowerHint);
      }
    }

    method RequireValidAdjustment(c: Change, coll: nat, debt: nat, newColl: nat, newDebt: nat, recovery: bool, price: nat)
      returns (ok: bool)
      ensures ok == AdmitsAdjustment(Model(), c, coll, debt, newColl, newDebt, recovery, price)
    {
      hide ComputeCR;
      if !canMint { return true; }
      var newICR := ComputeCR(newColl, newDebt, price);
      if recovery {
        if c.collOut != 0 { return false; }
        return !c.increase || (newICR >= CCR && newICR >= ComputeCR(coll, debt, price));
      }
      if newICR < MCR { return false; }
      var sysColl, sysDebt := activePool.coll + defaultPool.coll + newColl, activePool.debt + defaultPool.debt + newDebt;
      if sysColl < coll || sysDebt < debt { return false; }
      return ComputeCR(sysColl - coll, sysDebt - debt, price) >= CCR;
    }

    method MoveTokensAndCollateral(c: Change, charged: nat) returns (ok: bool)
      modifies this`activePool, this`thusd, this`tally
      ensures ok == MoveTokens(old(Model()), c, charged).Some?
      ensures ok ==> Model() == MoveTokens(old(Model()), c, charged).value
    {
      if activePool.coll + c.collIn < c.collOut { return false; }
      activePool := activePool.(coll := activePool.coll + c.collIn - c.collOut);
      if c.increase {
        ok := TriggerBorrowingFee(charged);
        if !ok { return; }
        ok := MintTHUSD(c.debt, c.debt + charged);
      } else {
        if activePool.debt < c.debt || thusd.held < c.debt || thusd.supply < c.debt { return false; }
        activePool := activePool.(debt := activePool.debt - c.debt);
        thusd := thusd.(held := thusd.held - c.debt, supply := thusd.supply - c.debt);
        ok := true;
      }
    }

    method CloseOwnTrove(i: nat, price: nat) returns (ok: bool)
      requires Inv(Model()) && i < |troves| && GoodTrove(Model(), troves[i]) && OwnersListed()
      modifies this, sortedTroves
      ensures ok == Close(old(Model()), i, price).Some?
      ensures ok ==> Model() == Close(old(Model()), i, price).value && Inv(Model()) && OwnersListed()
      ensures ok ==> sortedTroves.order == Survivors(troves, old(sortedTroves.order))
      ensures ok && old(InOrder(Model(), sortedTroves.order)) ==> InOrder(Model(), sortedTroves.order)
    {
      hide InOrder, Survivors, Inv, Registered, ComputeCR, ApplyPending, CloseOut, GoodTrove;
      ghost var s, order := Model(), sortedTroves.order;
      AppliedStatus(s, i);
      if troves[i].status != Active { return false; }
      var tcr := ComputeCR(activePool.coll + defaultPool.coll, activePool.debt + defaultPool.debt, price);
      if canMint && tcr < CCR { return false; }
      ok := ApplyPendingRewards(i);
      if !ok { return; }
      var coll, debt := troves[i].coll, troves[i].debt;
      if debt < GAS_COMPENSATION || thusd.held < debt - GAS_COMPENSATION { return false; }
      var sysColl, sysDebt := activePool.coll + defaultPool.coll, activePool.debt + defaultPool.debt;
      if sysColl < coll || sysDebt < debt { return false; }
      if canMint && ComputeCR(sysColl - coll, sysDebt - debt, price) < CCR { return false; }
      ok := RemoveStakeAndClose(i, ClosedByOwner);
      if !ok { return; }
      ok := RepayClosed(debt, coll);
      if ok {
        ClosedInOrder(s, Model(), order, i, price);
      }
    }

    // The owner repays all but the reserve, the reserve is burned, and the collateral returned.
    method RepayClosed(debt: nat, coll: nat) returns (ok: bool)
      requires GAS_COMPENSATION <= debt <= thusd.held + GAS_COMPENSATION
      modifies this`activePool, this`thusd
      ensures ok == (old(activePool.debt) >= debt && old(thusd.gasPool) >= GAS_COMPENSATION && old(thusd.supply) >= debt
                     && old(activePool.coll) >= coll)
      ensures
        ok ==>
          var s := old(Model());
          Model() == s.(activeDebt := s.activeDebt - debt, held := s.held - (debt - GAS_COMPENSATION),
                        gasPool := s.gasPool - GAS_COMPENSATION, supply := s.supply - debt, activeColl := s.activeColl - coll)
    {
      if activePool.debt < debt || thusd.gasPool < GAS_COMPENSATION || thusd.supply < debt || activePool.coll < coll {
        return false;
      }
      activePool := Balance(activePool.coll - coll, activePool.debt - debt);
      thusd := Tokens(thusd.held - (debt - GAS_COMPENSATION), thusd.gasPool - GAS_COMPENSATION, thusd.supply - debt);
      ok := true;
    }

    method GetCurrentICR(i: nat, price: nat) returns (icr: nat)
      requires i < |troves| && GoodTrove(Model(), troves[i])
      ensures icr == ICR(Model(), i, price)
    {
      var pendingColl := GetPendingCollateralReward(i);
      var pendingDebt := GetPendingTHUSDDebtReward(i);
      icr := ComputeCR(troves[i].coll + pendingColl, troves[i].debt + pendingDebt, price);
    }
  }

  // What one step of a batch in Normal Mode does.
  lemma NormalStep(p: Progress, i: nat, price: nat)
    requires i < |p.s.troves| && GoodTrove(p.s, p.s.troves[i]) && |p.s.surplus| == |p.s.troves|
    ensures ICR(p.s, i, price) >= MCR ==> BatchStep(p, i, price, false) == Some(p)
    ensures ICR(p.s, i, price) < MCR ==>
      && p.s.troves[i].status.Active?
      && var v := NormalValues(EntireDebt(p.s, p.s.troves[i]), EntireColl(p.s, p.s.troves[i]), p.spLeft);
      && (v.None? ==> BatchStep(p, i, price, false).None?)
      && (v.Some? ==>
            var q := Take(p.s, i, v.value);
            BatchStep(p, i, price, false) ==
            if q.None? || p.spLeft < v.value.debtToOffset then None
            else Some(p.(s := q.value, totals := Add(p.totals, v.value), spLeft := p.spLeft - v.value.debtToOffset)))
  {
    hide Take, OffsetAndRedistribute;
  }

  lemma SkipStep(p: Progress, i: nat, price: nat)
    requires i < |p.s.troves| ==> GoodTrove(p.s, p.s.troves[i]) && |p.s.surplus| == |p.s.troves|
    ensures i < |p.s.troves| && !p.s.troves[i].status.Active? ==> BatchStep(p, i, price, true) == Some(p)
  {
    hide Take, OffsetAndRedistribute, RecoveryValues;
  }

  // What one step of a batch that started in Recovery Mode does with an active trove.
  lemma RecoveryStep(p: Progress, i: nat, price: nat)
    requires i < |p.s.troves| && GoodTrove(p.s, p.s.troves[i]) && |p.s.surplus| == |p.s.troves|
    requires p.s.troves[i].status.Active?
    ensures
      var debt, coll := EntireDebt(p.s, p.s.troves[i]), EntireColl(p.s, p.s.troves[i]);
      var icr := ICR(p.s, i, price);
      var normal := NormalValues(debt, coll, p.spLeft);
      var recovery :=
        if Count(p.s) <= 1 then Some(ZERO_VALUES)
        else RecoveryValues(debt, coll, icr, p.spLeft, ComputeCR(p.sysColl, p.sysDebt, price), price);
      BatchStep(p, i, price, true) ==
      if p.backToNormal then
        if icr >= MCR then Some(p)
        else if normal.None? || Take(p.s, i, normal.value).None? || p.spLeft < normal.value.debtToOffset then None
        else Some(p.(s := Take(p.s, i, normal.value).value, totals := Add(p.totals, normal.value),
                     spLeft := p.spLeft - normal.value.debtToOffset))
      else if icr >= MCR && p.spLeft == 0 then Some(p)
      else if recovery.None? then None
      else
        var v := recovery.value;
        var out := v.collToSP + v.collGas + v.collSurplus;
        var q := if v == ZERO_VALUES then Some(p.s) else Take(p.s, i, v);
        if q.None? || p.spLeft < v.debtToOffset || p.sysDebt < v.debtToOffset || p.sysColl < out then None
        else
          Some(Progress(q.value, Add(p.totals, v), p.spLeft - v.debtToOffset, p.sysColl - out, p.sysDebt - v.debtToOffset,
                        ComputeCR(p.sysColl - out, p.sysDebt - v.debtToOffset, price) >= CCR))
  {
    hide Take, OffsetAndRedistribute, RecoveryValues, EntireColl, EntireDebt;
  }

  // The outcome of a redemption that has come this far, given that of the rest.
  function Continued(redeemed: nat, drawn: nat, closed: nat, partial: nat, rest: Option<Outcome>): Option<Outcome> {
    match rest
    case None => None
    case Some(o) =>
      Some(Outcome(o.s, redeemed + o.redeemed, drawn + o.drawn, closed + o.closed, partial + o.partial, o.cancelled))
  }

  lemma FirstIsGood(s: Ledger, queue: seq<nat>)
    requires Visitable(s, queue) && queue != []
    ensures queue[0] < |s.troves| && GoodTrove(s, s.troves[queue[0]]) && |s.surplus| == |s.troves|
  {
  }

  // One turn of the redemption loop.
  lemma LoopNext(s: Ledger, queue: seq<nat>, remaining: nat, price: nat, hintNICR: nat)
    requires Visitable(s, queue) && Queue(s, queue) && queue != [] && remaining > 0 && price > 0
    ensures queue[0] < |s.troves| && GoodTrove(s, s.troves[queue[0]]) && |s.surplus| == |s.troves|
    ensures s.troves[queue[0]].status.Active?
    ensures
      var r := RedeemOne(s, queue[0], remaining, price, hintNICR);
      var loop := RedeemLoop(s, queue, remaining, price, hintNICR);
      && (r.None? ==> loop.None?)
      && (r.Some? && r.value.cancelled ==> loop == Some(Outcome(r.value.s, 0, 0, 0, 0, true)))
      && (r.Some? && !r.value.cancelled ==>
            var one := r.value;
            && Visitable(one.s, queue[1..]) && Queue(one.s, queue[1..]) && one.lot <= remaining
            && (if one.closed then !Survives(one.s.troves, queue[0]) else one.lot == remaining)
            && loop == Continued(one.lot, one.collLot, if one.closed then 1 else 0, if one.closed then 0 else one.lot,
                                 RedeemLoop(one.s, queue[1..], remaining - one.lot, price, hintNICR)))
  {
    hide RedeemOne, GoodTrove, Visitable, Queue;
    QueueFirst(s, queue);
    FirstIsGood(s, queue);
    FirstSparesRest(s, queue, remaining, price, hintNICR);
    QueueRest(s, queue, remaining, price, hintNICR);
    PartialTakesAll(s, queue[0], remaining, price, hintNICR);
    ClosedIsOut(s, queue[0], remaining, price, hintNICR);
  }

  lemma ClosedIsOut(s: Ledger, i: nat, max: nat, price: nat, hintNICR: nat)
    requires i < |s.troves| && GoodTrove(s, s.troves[i]) && |s.surplus| == |s.troves| && price > 0
    ensures
      var r := RedeemOne(s, i, max, price, hintNICR);
      r.Some? && r.value.closed ==> !Survives(r.value.s.troves, i)
  {
    hide GoodTrove, PendingColl, PendingDebt, NewStake, Sum, ComputeNominalCR;
  }

  // A redemption that has come to position k of the queue: `loop` is the outcome of the whole, `so` that so far.
  ghost predicate Midway(s: Ledger, loop: Option<Outcome>, queue: seq<nat>, k: nat, remaining: nat, price: nat, hintNICR: nat,
                         so: Outcome)
  {
    && price > 0 && k <= |queue| && Visitable(s, queue[k..]) && Queue(s, queue[k..])
    && (if so.partial == 0 then so.closed == k else so.closed < k && remaining == 0)
    && loop == Continued(so.redeemed, so.drawn, so.closed, so.partial,
                         RedeemLoop(s, queue[k..], remaining, price, hintNICR))
  }

  lemma MidwayStarts(s: Ledger, queue: seq<nat>, amount: nat, price: nat, hintNICR: nat)
    requires price > 0 && Visitable(s, queue) && Queue(s, queue)
    ensures Midway(s, RedeemLoop(s, queue, amount, price, hintNICR), queue, 0, amount, price, hintNICR,
                   Outcome(s, 0, 0, 0, 0, false))
  {
    hide RedeemLoop, Visitable, Queue;
    assert queue[0..] == queue;
  }

  lemma MidwayMeans(s: Ledger, loop: Option<Outcome>, queue: seq<nat>, k: nat, remaining: nat, price: nat, hintNICR: nat,
                    so: Outcome)
    requires Midway(s, loop, queue, k, remaining, price, hintNICR, so) && remaining > 0
    ensures so.partial == 0 && so.closed == k && price > 0 && k <= |queue|
    ensures k < |queue| ==> queue[k] < |s.troves| && GoodTrove(s, s.troves[queue[k]]) && |s.surplus| == |s.troves|
                            && s.troves[queue[k]].status.Active?
  {
    hide RedeemLoop, GoodTrove;
    if k < |queue| {
      assert queue[k..][0] == queue[k];
    }
  }

  lemma MidwayNext(s: Ledger, loop: Option<Outcome>, queue: seq<nat>, k: nat, remaining: nat, price: nat, hintNICR: nat,
                   so: Outcome)
    requires Midway(s, loop, queue, k, remaining, price, hintNICR, so) && remaining > 0 && k < |queue|
    requires queue[k] < |s.troves| && GoodTrove(s, s.troves[queue[k]]) && |s.surplus| == |s.troves| && price > 0
    ensures
      var r := RedeemOne(s, queue[k], remaining, price, hintNICR);
      && (r.None? ==> loop.None?)
      && (r.Some? ==>
            var one := r.value;
            && (one.cancelled ==> loop == Some(Outcome(one.s, so.redeemed, so.drawn, so.closed, 0, true)))
            && (!one.cancelled ==>
                  && one.lot <= remaining
                  && Midway(one.s, loop, queue, k + 1, remaining - one.lot, price, hintNICR,
                         so.(redeemed := so.redeemed + one.lot, drawn := so.drawn + one.collLot,
                             closed := so.closed + (if one.closed then 1 else 0),
                             partial := so.partial + if one.closed then 0 else one.lot))))
  {
    hide RedeemLoop, RedeemOne, GoodTrove, Visitable, Queue;
    var rest := queue[k..];
    assert rest[0] == queue[k] && rest[1..] == queue[k + 1..];
    LoopNext(s, rest, remaining, price, hintNICR);
  }

  lemma MidwayEnds(s: Ledger, loop: Option<Outcome>, queue: seq<nat>, k: nat, remaining: nat, price: nat, hintNICR: nat,
                   so: Outcome)
    requires Midway(s, loop, queue, k, remaining, price, hintNICR, so) && (k == |queue| || remaining == 0) && !so.cancelled
    ensures loop == Some(so.(s := s))
  {
  }

  lemma FeeIsMinted(s: Ledger, fee: nat)
    ensures s.canMint ==> PayFee(s, fee).Some?
    ensures PayFee(s, fee).Some? ==>
              var r := PayFee(s, fee).value;
              r == s.(supply := r.supply, held := r.held, unminted := r.unminted)
  {
  }

  lemma PrefixVisitable(s: Ledger, queue: seq<nat>, maxIterations: nat)
    requires Queue(s, queue) && Visitable(s, queue)
    ensures Queue(s, Visits(queue, maxIterations)) && Visitable(s, Visits(queue, maxIterations))
  {
    hide GoodTrove;
  }

  lemma SurplusOnly(s: Ledger, i: nat)
    requires i < |s.troves|
    ensures CloseOut(s, i, ClosedByRedemption).Some? ==> CloseOut(s, i, ClosedByRedemption).value.surplus == s.surplus
  {
  }

  lemma AppliedStatus(s: Ledger, i: nat)
    requires i < |s.troves| && GoodTrove(s, s.troves[i])
    ensures ApplyPending(s, i).Some? ==>
              && |ApplyPending(s, i).value.troves| == |s.troves|
              && ApplyPending(s, i).value.troves[i].status == s.troves[i].status
              && ApplyPending(s, i).value.surplus == s.surplus
  {
    hide PendingColl, PendingDebt;
  }

  lemma RoomInRegister(troves: seq<Trove>, owners: seq<nat>, index: seq<nat>, order: seq<nat>, i: nat)
    requires Registered(troves, owners, index, order) && i < |troves| && !troves[i].status.Active?
    ensures |order| < |troves| && i !in order
  {
    hide Listed;
    RoomForOneMore(troves, order, i);
  }

  lemma InsertedIf(before: seq<nat>, after: seq<nat>, i: nat, nicr: nat -> nat, x: nat, k: nat)
    requires k <= |before| && Slot(before, nicr, x, k) && after == InsertAt(before, k, i)
    ensures Inserted(before, after, i, nicr, x)
  {
  }

  lemma SetTouchesOne(s: Ledger, i: nat, coll: nat, debt: nat)
    requires i < |s.troves|
    ensures SetTrove(s, i, coll, debt).Some? ==>
              var r := SetTrove(s, i, coll, debt).value;
              && |r.troves| == |s.troves| && r.troves == s.troves[i := r.troves[i]]
              && r.troves[i] == s.troves[i].(coll := coll, debt := debt, stake := r.troves[i].stake)
              && r == s.(troves := r.troves, totalStakes := r.totalStakes)
  {
    hide NewStake;
  }

  // The other troves have the same ratios before and after trove i is changed.
  lemma ReinsertedElsewhere(before: seq<Trove>, troves: seq<Trove>, LColl: nat, LDebt: nat, order: seq<nat>, after: seq<nat>,
                            i: nat, x: nat)
    requires i < |before| && |troves| == |before| && troves == before[i := troves[i]] && Distinct(order)
    requires Reinserted(order, after, i, Nominals(before, LColl, LDebt), x)
    ensures Reinserted(order, after, i, Nominals(troves, LColl, LDebt), x)
  {
    hide Reinserted, NominalOf, Distinct;
    ReinsertedSame(order, after, i, Nominals(before, LColl, LDebt), Nominals(troves, LColl, LDebt), x);
  }

  lemma AgreeOnList(s: Ledger, order: seq<nat>)
    requires Inv(s) && forall j | j in order :: j < |s.troves|
    ensures forall j | j in order :: Nominals(s.troves, s.LColl, s.LDebt)(j) == NICROf(s, j)
  {
    hide NICROf, Nominals;
    forall j | j in order ensures Nominals(s.troves, s.LColl, s.LDebt)(j) == NICROf(s, j) {
      BooksMeanGoodTrove(s, j);
      NominalsAgree(s, j);
    }
  }

  lemma OpenedInOrder(s: Ledger, r: Ledger, order: seq<nat>, after: seq<nat>, i: nat, amount: nat, coll: nat, fee: nat, price: nat,
                      feedActive: bool)
    requires Inv(s) && i < |s.troves| && Open(s, i, amount, coll, fee, price, feedActive) == Some(r)
    requires forall j | j in order :: j < |s.troves|
    requires |r.troves| == |s.troves|
    requires Inserted(order, after, i, Nominals(r.troves, r.LColl, r.LDebt), ComputeNominalCR(r.troves[i].coll, r.troves[i].debt))
    ensures Inv(r) && Inserted(order, after, i, NICRs(r), NICROf(r, i))
    ensures InOrder(s, order) ==> InOrder(r, after)
  {
    hide Inv, NICROf, Nominals, InOrder, Inserted, ComputeNominalCR, Open;
    OpenKeeps(s, i, amount, coll, fee, price, feedActive);
    OpenTouchesOne(s, i, amount, coll, fee, price, feedActive);
    AgreeOnList(r, order);
    InvIsGood(r, i);
    StoredRatio(r, i);
    InsertedSame(order, after, i, Nominals(r.troves, r.LColl, r.LDebt), NICRs(r), NICROf(r, i));
    if InOrder(s, order) {
      InsertedKeepsOrder(s, r, order, after, i);
    }
  }

  lemma OpenTouchesOne(s: Ledger, i: nat, amount: nat, coll: nat, fee: nat, price: nat, feedActive: bool)
    requires i < |s.troves|
    ensures Open(s, i, amount, coll, fee, price, feedActive).Some? ==>
              var r := Open(s, i, amount, coll, fee, price, feedActive).value;
              && !s.troves[i].status.Active? && |r.troves| == |s.troves| && r.troves == s.troves[i := r.troves[i]]
              && r.troves[i].status.Active? && r.LColl == s.LColl && r.LDebt == s.LDebt
              && r.troves[i].collSnapshot == r.LColl && r.troves[i].debtSnapshot == r.LDebt
  {
    hide ComputeCR, NewStake, ComputeNominalCR;
  }

  lemma InvIsGood(s: Ledger, i: nat)
    requires Inv(s) && i < |s.troves|
    ensures GoodTrove(s, s.troves[i])
  {
  }

  lemma SnapshotsMeet(s: Ledger, i: nat)
    requires Synced(s) && i < |s.troves| && GoodTrove(s, s.troves[i]) && s.troves[i].status.Active?
    requires s.troves[i].collSnapshot >= s.LColl
    ensures s.troves[i].collSnapshot == s.LColl && s.troves[i].debtSnapshot == s.LDebt
  {
    assert SyncedTrove(s, s.troves[i]);
  }

  lemma AdjustedInOrder(s: Ledger, r: Ledger, order: seq<nat>, after: seq<nat>, i: nat, c: Change, fee: nat, price: nat)
    requires Inv(s) && i < |s.troves| && GoodTrove(s, s.troves[i]) && Distinct(order)
    requires Adjust(s, i, c, fee, price) == Some(r) && |r.troves| == |s.troves|
    requires forall j | j in order :: j < |s.troves|
    requires Reinserted(order, after, i, Nominals(r.troves, r.LColl, r.LDebt), ComputeNominalCR(r.troves[i].coll, r.troves[i].debt))
    ensures NICROf(r, i) == RatioAfter(s, s.troves[i], r.troves[i].coll, r.troves[i].debt)
    ensures InOrder(s, order) ==> (InOrder(r, after) <==> NextNoHigher(after, i, NICRs(r)))
    ensures Synced(s) && InOrder(s, order) ==> InOrder(r, after)
  {
    hide Inv, NICROf, Nominals, InOrder, Reinserted, ComputeNominalCR, Distinct, Adjust, Synced, RatioAfter, NextNoHigher;
    AdjustKeeps(s, i, c, fee, price);
    AdjustTouchesOne(s, i, c, fee, price);
    AdjustedRatio(s, i, c, fee, price);
    AgreeOnList(r, order);
    InvIsGood(r, i);
    StoredRatio(r, i);
    ReinsertedSame(order, after, i, Nominals(r.troves, r.LColl, r.LDebt), NICRs(r),
                   ComputeNominalCR(r.troves[i].coll, r.troves[i].debt));
    if InOrder(s, order) {
      ReinsertedOrderExactly(s, r, order, after, i, ComputeNominalCR(r.troves[i].coll, r.troves[i].debt));
      if Synced(s) {
        SnapshotsMeet(r, i);
        ReinsertedKeepsOrder(s, r, order, after, i);
      }
    }
  }

  lemma ClosedInOrder(s: Ledger, r: Ledger, order: seq<nat>, i: nat, price: nat)
    requires Inv(s) && i < |s.troves| && GoodTrove(s, s.troves[i]) && Close(s, i, price) == Some(r)
    ensures Inv(r) && (InOrder(s, order) ==> InOrder(r, Survivors(r.troves, order)))
  {
    hide NICROf, Inv, Close;
    CloseKeeps(s, i, price);
    CloseTouchesOne(s, i, price);
    if InOrder(s, order) {
      OrderMeans(s, order);
      forall j, k | 0 <= j < k < |order| && Survives(r.troves, order[j]) && Survives(r.troves, order[k])
        ensures NICRs(r)(order[j]) >= NICRs(r)(order[k])
      {
        SameRatio(s, r, order[j]);
        SameRatio(s, r, order[k]);
      }
      SurvivorsInOrder(s, r, order);
    }
  }

  // The list after a redemption from position w: without the closed troves, and with the one redeemed in part at
  // a slot for its new ratio.
  ghost predicate ListAfter(order: seq<nat>, w: int, closed: nat, partial: nat, list: seq<nat>, nicr: nat -> nat, hintNICR: nat)
    requires -1 <= w < |order|
  {
    && closed <= w + 1
    && (partial == 0 ==> list == WithoutClosed(order, w - closed, w))
    && (partial > 0 ==>
          closed <= w && Inserted(WithoutClosed(order, w - closed - 1, w), list, order[w - closed], nicr, hintNICR))
  }

  lemma NothingCut(order: seq<nat>, w: int, nicr: nat -> nat, hintNICR: nat)
    requires -1 <= w < |order|
    ensures ListAfter(order, w, 0, 0, order, nicr, hintNICR)
  {
  }

  lemma NonePartial(order: seq<nat>, w: int, closed: nat, list: seq<nat>, nicr: nat -> nat, hintNICR: nat)
    requires -1 <= w < |order| && closed <= w + 1 && list == WithoutClosed(order, w - closed, w)
    ensures ListAfter(order, w, closed, 0, list, nicr, hintNICR)
  {
  }

  lemma HintInRange(s: Ledger, order: seq<nat>, price: nat, hint: nat)
    requires AllGood(s, order) && ValidFirstHint(s, order, price, PositionOf(order, hint))
    ensures PositionOf(order, hint) < |order|
  {
  }

  lemma WalkStep(s: Ledger, order: seq<nat>, price: nat, w: nat)
    requires AllGood(s, order) && w < |order|
    ensures AllGood(s, order[..w + 1]) && AllGood(s, order[..w])
    ensures Walk(s, order[..w + 1], price) == if ICR(s, order[w], price) >= MCR then w else Walk(s, order[..w], price)
  {
    hide ICR, GoodTrove;
    assert order[..w + 1][..w] == order[..w];
  }

  // The current trove of the loop is next in the queue, and its neighbour above follows.
  lemma NextInQueue(order: seq<nat>, w: int, queue: seq<nat>, k: nat, maxIterations: nat, nodes: map<nat, Node>, list: seq<nat>,
                    nicr: nat -> nat, hintNICR: nat)
    requires -1 <= w < |order| && queue == Visits(Upwards(order, w), maxIterations) && k <= |queue|
    requires maxIterations == 0 || k < maxIterations
    requires Linked(nodes, list) && At(order, w - k) != 0 && ListAfter(order, w, k, 0, list, nicr, hintNICR)
    ensures k < |queue| && 0 <= w - k && order[w - k] == queue[k] == At(order, w - k) && list == WithoutClosed(order, w - k, w)
    ensures order[w - k] in nodes && nodes[order[w - k]].prevId == At(order, w - k - 1)
  {
    hide Linked, Distinct;
    assert list[w - k] == order[w - k];
    NodeOf(nodes, list, w - k);
  }

  lemma QueueExhausted(order: seq<nat>, w: int, queue: seq<nat>, k: nat, maxIterations: nat, current: nat, remaining: nat)
    requires -1 <= w < |order| && queue == Visits(Upwards(order, w), maxIterations) && k <= |queue|
    requires current == At(order, w - k) && 0 !in order
    requires current == 0 || remaining == 0 || (maxIterations > 0 && k >= maxIterations)
    ensures k == |queue| || remaining == 0
  {
  }

  // The list after one more visit, of the trove at position w - k.
  lemma ListAfterVisit(order: seq<nat>, w: int, k: nat, s: Ledger, max: nat, price: nat, list: seq<nat>, after: seq<nat>,
                       nicr: nat -> nat, hintNICR: nat)
    requires k <= w < |order| && list == WithoutClosed(order, w - k, w) && Distinct(list) && price > 0 && max > 0
    requires forall i :: i in list <==> Survives(s.troves, i)
    requires order[w - k] < |s.troves| && GoodTrove(s, s.troves[order[w - k]]) && |s.surplus| == |s.troves|
    requires RedeemOne(s, order[w - k], max, price, hintNICR).Some?
    requires
      var one := RedeemOne(s, order[w - k], max, price, hintNICR).value;
      && !one.cancelled
      && (one.closed ==> after == Survivors(one.s.troves, list))
      && (!one.closed ==> Reinserted(list, after, order[w - k], nicr, hintNICR))
    ensures
      var one := RedeemOne(s, order[w - k], max, price, hintNICR).value;
      ListAfter(order, w, k + (if one.closed then 1 else 0), if one.closed then 0 else one.lot, after, nicr, hintNICR)
  {
    hide Inserted, Survivors, RedeemOne, GoodTrove;
    var p := w - k;
    assert list[p] == order[p];
    assert RemoveAt(list, p) == WithoutClosed(order, p - 1, w);
    ClosedIsOut(s, order[p], max, price, hintNICR);
    OneSpares(s, order[p], max, price, hintNICR);
    PartialTakesAll(s, order[p], max, price, hintNICR);
    var one := RedeemOne(s, order[p], max, price, hintNICR).value;
    if one.closed {
      forall j | 0 <= j < |list| && j != p ensures Survives(one.s.troves, list[j]) {
        assert list[j] in list;
      }
      SurvivorsRemoveAt(one.s.troves, list, p);
    }
  }

  lemma ListIsRedeemable(s: Ledger, owners: seq<nat>, index: seq<nat>, order: seq<nat>)
    requires Inv(s) && Registered(s.troves, owners, index, order)
    ensures AllGood(s, order) && Distinct(order) && |s.surplus| == |s.troves|
  {
    hide TokensMatchDebt, GoodTrove;
    RegisteredMeans(s.troves, owners, index, order);
    forall k | 0 <= k < |order| ensures order[k] < |s.troves| && GoodTrove(s, s.troves[order[k]]) {
      assert order[k] in order;
      InvIsGood(s, order[k]);
    }
  }

  lemma QueueOfList(s: Ledger, order: seq<nat>, w: int, owners: seq<nat>, index: seq<nat>)
    requires AllGood(s, order) && Distinct(order) && |s.surplus| == |s.troves| && -1 <= w < |order|
    requires Registered(s.troves, owners, index, order)
    ensures Visitable(s, Upwards(order, w)) && Queue(s, Upwards(order, w))
  {
    hide GoodTrove, Sum, Listed;
    UpwardsVisitable(s, order, w);
    var queue := Upwards(order, w);
    forall k | 0 <= k < |queue| ensures queue[k] < |s.troves| && s.troves[queue[k]].status.Active? {
      assert queue[k] == order[w - k] && order[w - k] in order;
    }
    forall j, k | 0 <= j < k < |queue| ensures queue[j] != queue[k] {
      assert queue[j] == order[w - j] && queue[k] == order[w - k];
    }
  }

  lemma RedeemedInOrderOfList(s: Ledger, order: seq<nat>, amount: nat, price: nat, firstHint: nat, hintNICR: nat,
                              maxIterations: nat, fee: nat, feedInactive: bool, r: Ledger, list: seq<nat>)
    requires Inv(s) && AllGood(s, order) && Distinct(order) && |s.surplus| == |s.troves| && price > 0
    requires RedeemFromList(s, order, amount, price, firstHint, hintNICR, maxIterations, fee, feedInactive) == Some(r)
    requires Visitable(s, Visits(Upwards(order, Entry(s, order, price, firstHint)), maxIterations))
    requires Queue(s, Upwards(order, Entry(s, order, price, firstHint)))
    requires
      var w := Entry(s, order, price, firstHint);
      var loop := RedeemLoop(s, Visits(Upwards(order, w), maxIterations), amount, price, hintNICR);
      loop.Some? && ListAfter(order, w, loop.value.closed, loop.value.partial, list, Nominals(r.troves, r.LColl, r.LDebt), hintNICR)
    requires forall i | i in order :: i < |s.troves|
    ensures Inv(r) && (Synced(s) && InOrder(s, order) ==> InOrder(r, list))
    ensures
      var part := PartlyRedeemed(s, order, amount, price, firstHint, hintNICR, maxIterations);
      InOrder(s, order) ==> (InOrder(r, list) <==> part.None? || NextNoHigher(list, part.value, NICRs(r)))
  {
    hide Inv, Redeem, RedeemLoop, Queue, Entry, Synced, InOrder, AllGood, Distinct, Visitable, NICROf, Nominals, InsertAt;
    hide Slot, DebtClaimsCovered, NextNoHigher, PartialRatio, ICR, GoodTrove, TCR;
    UpwardsVisitable(s, order, Entry(s, order, price, firstHint));
    RedeemKeeps(s, Upwards(order, Entry(s, order, price, firstHint)), amount, price, hintNICR, maxIterations, fee, feedInactive);
    hide RedeemFromList;
    if InOrder(s, order) {
      RedeemKeepsOrder(s, order, amount, price, firstHint, hintNICR, maxIterations, fee, feedInactive);
      var w := Entry(s, order, price, firstHint);
      var o := RedeemLoop(s, Visits(Upwards(order, w), maxIterations), amount, price, hintNICR).value;
      if o.partial > 0 {
        PartInOrder(s, r, order, WithoutClosed(order, w - o.closed - 1, w), list, w - o.closed, w, hintNICR);
      }
    }
  }

  // The trove redeemed in part, at position p, has been put back.
  lemma PartInOrder(s: Ledger, r: Ledger, order: seq<nat>, rest: seq<nat>, list: seq<nat>, p: nat, w: nat, x: nat)
    requires p <= w < |order| && rest == WithoutClosed(order, p - 1, w) && Distinct(order) && Inv(r)
    requires order[p] < |s.troves| && (SyncedTrove(s, s.troves[order[p]]) ==> NICROf(r, order[p]) == x)
    requires forall i | i in order :: i < |r.troves|
    requires Inserted(rest, list, order[p], Nominals(r.troves, r.LColl, r.LDebt), x)
    requires forall k | 0 <= k < |rest| :: NICROf(r, rest[k]) == NICROf(s, rest[k])
    requires forall k | 0 <= k <= |rest| && Slot(rest, NICRs(r), x, k) ::
               InOrder(r, InsertAt(rest, k, order[p])) <==> k == |rest| || NICROf(s, rest[k]) <= NICROf(r, order[p])
    ensures InOrder(r, list) <==> NextNoHigher(list, order[p], NICRs(r))
    ensures Synced(s) ==> InOrder(r, list)
  {
    hide Inv, Synced, InOrder, Distinct, NICROf, Nominals, InsertAt, Slot, NextNoHigher;
    assert forall i | i in rest :: i in order;
    AgreeOnList(r, rest);
    InsertedSame(rest, list, order[p], Nominals(r.troves, r.LColl, r.LDebt), NICRs(r), x);
    NotInRest(order, rest, p, w + 1);
    InsertedOrderExactly(r, rest, list, order[p], x);
    if Synced(s) {
      SyncedAt(s, order[p]);
      InsertedAtRatio(r, rest, list, order[p], x);
    }
  }

  lemma NotInRest(order: seq<nat>, rest: seq<nat>, p: nat, q: nat)
    requires Distinct(order) && p < q <= |order| && rest == order[..p] + order[q..]
    ensures order[p] !in rest
  {
  }

  lemma SyncedAt(s: Ledger, i: nat)
    requires Synced(s) && i < |s.troves|
    ensures SyncedTrove(s, s.troves[i])
  {
  }

  lemma InsertedAtRatio(r: Ledger, rest: seq<nat>, list: seq<nat>, id: nat, x: nat)
    requires id !in rest && Inserted(rest, list, id, NICRs(r), x) && NICROf(r, id) == x
    ensures NextNoHigher(list, id, NICRs(r))
  {
    hide NICROf, InsertAt, NextNoHigher;
    var k: nat :| k <= |rest| && Slot(rest, NICRs(r), x, k) && list == InsertAt(rest, k, id);
    NextAfterInsertion(rest, id, k, NICRs(r));
  }

  lemma SamePosition(order: seq<nat>, j: nat, k: nat)
    requires j < |order| && k < |order| && order[j] == order[k]
    ensures Distinct(order) ==> j == k
  {
  }

  lemma NobodyLeaves(troves: seq<Trove>, owners: seq<nat>, index: seq<nat>, order: seq<nat>)
    requires Registered(troves, owners, index, order)
    ensures Survivors(troves, order) == order
  {
    hide Survivors, Sum, Listed;
    forall j | 0 <= j < |order| ensures Survives(troves, order[j]) {
      assert order[j] in order;
    }
    SurvivorsSame(troves, order);
  }

  // A step of a batch leaves the survivors of the whole batch so far.
  lemma FewerSurvive(s: Ledger, ids: seq<nat>, n: nat, price: nat, recovery: bool, p: Progress, r: Ledger, order: seq<nat>)
    requires Books(s, NOTHING) && price > 0 && n < |ids| && Batch(s, ids[..n], price, recovery) == Some(p)
    requires ids[n] < |p.s.troves| && GoodTrove(p.s, p.s.troves[ids[n]]) && |p.s.surplus| == |p.s.troves|
    requires BatchStep(p, ids[n], price, recovery).Some? && BatchStep(p, ids[n], price, recovery).value.s == r
    ensures Survivors(r.troves, Survivors(p.s.troves, order)) == Survivors(r.troves, order)
  {
    hide Books, BatchStep, Batch, Survivors, GoodTrove;
    BatchStepCloses(p, ids[n], price, recovery);
    SurvivorsTwice(p.s.troves, r.troves, order);
  }

  // No row of the tables is all zero, and only the capped offset leaves a surplus.
  lemma ReserveIsPaid(debt: nat, coll: nat, sp: nat, price: nat)
    ensures
      var v := OffsetAndRedistribute(WithGasShare(debt, coll), sp);
      v.Some? ==> v.value.thusdGas == GAS_COMPENSATION && v.value.collSurplus == 0
    ensures CappedOffset(debt, coll, price).Some? ==> CappedOffset(debt, coll, price).value.thusdGas == GAS_COMPENSATION
  {
  }

  lemma SnapshotsFixStake(s: Ledger, r: Ledger, coll: nat)
    requires r.stakesSnapshot == s.stakesSnapshot && r.collSnapshot == s.collSnapshot
    ensures NewStake(r, coll) == NewStake(s, coll)
  {
  }
}
