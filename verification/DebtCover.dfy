/** When the default pool can pay every pending debt. _applyPendingRewards looks at the collateral accumulator
    alone, so a trove can be given a new stake while debt is still pending on its old one. That is the only
    thing that can leave the pool short; here is exactly when it does. */
module DebtCover {
  import opened Common
  import opened TroveLedger
  import opened Liquidation
  import opened Borrowing
  import opened Redemption
  import opened SystemRuns
  import SP = StabilityPool

  // ---- The building blocks ----

  lemma SlackOfSame(s: Ledger, r: Ledger)
    requires r.troves == s.troves && r.LColl == s.LColl && r.LDebt == s.LDebt
    requires r.defaultDebt == s.defaultDebt && r.debtError == s.debtError
    ensures DebtSlack(r) == DebtSlack(s)
  {
    hide Sum, CollClaim, DebtClaim;
    SameClaimSums(s, r);
  }

  lemma SlackOfReplaced(s: Ledger, r: Ledger, i: nat, t: Trove, paid: nat)
    requires i < |s.troves| && r.troves == s.troves[i := t] && r.LColl == s.LColl && r.LDebt == s.LDebt
    requires r.defaultDebt == s.defaultDebt - paid && r.debtError == s.debtError
    ensures DebtSlack(r) == DebtSlack(s) - PRECISION * paid + DebtClaim(s, s.troves[i]) - DebtClaim(s, t)
  {
    hide Sum, CollClaim, DebtClaim;
    ReplaceSums(s, r, i, t);
  }

  // Applying rewards leaves what truncation withheld.
  lemma ApplySlack(s: Ledger, i: nat)
    requires i < |s.troves| && GoodTrove(s, s.troves[i])
    ensures ApplyPending(s, i).Some? ==>
              DebtSlack(ApplyPending(s, i).value) >= DebtSlack(s)
              && (HasPendingRewards(s, s.troves[i]) ==>
                    DebtSlack(ApplyPending(s, i).value)
                    == DebtSlack(s) + DebtClaim(s, s.troves[i]) - PRECISION * PendingDebt(s, s.troves[i]))
    ensures ApplyPending(s, i).Some? && !HasPendingRewards(s, s.troves[i]) ==> ApplyPending(s, i).value == s
  {
    hide DebtClaim, CollClaim, PendingDebt, PendingColl, DebtSlack;
    var t := s.troves[i];
    ClaimOfPending(s, t);
    if ApplyPending(s, i).Some? && HasPendingRewards(s, t) {
      var r := ApplyPending(s, i).value;
      SlackOfReplaced(s, r, i, r.troves[i], PendingDebt(s, t));
      UpToDateClaims(s, r.troves[i]);
    }
  }

  // What a new stake adds to the debt claims of a trove.
  function Rise(s: Ledger, i: nat, coll: nat): int
    requires i < |s.troves| && NewStake(s, coll).Some?
  {
    (NewStake(s, coll).value - s.troves[i].stake) * (s.LDebt - s.troves[i].debtSnapshot)
  }

  lemma SetTroveSlack(s: Ledger, i: nat, coll: nat, debt: nat)
    requires i < |s.troves|
    ensures SetTrove(s, i, coll, debt).Some? ==>
              NewStake(s, coll).Some? && DebtSlack(SetTrove(s, i, coll, debt).value) == DebtSlack(s) - Rise(s, i, coll)
  {
    hide Sum, DebtSlack, NewStake;
    if SetTrove(s, i, coll, debt).Some? {
      var r := SetTrove(s, i, coll, debt).value;
      SlackOfReplaced(s, r, i, r.troves[i], 0);
      ClaimsDiffer(s, s.troves[i], r.troves[i]);
    }
  }

  lemma ClaimsDiffer(s: Ledger, t: Trove, u: Trove)
    requires u.debtSnapshot == t.debtSnapshot
    ensures DebtClaim(s, u) - DebtClaim(s, t) == (u.stake - t.stake) * (s.LDebt - t.debtSnapshot)
  {
  }

  lemma CloseOutSlack(s: Ledger, i: nat, closed: Status)
    requires i < |s.troves| && GoodTrove(s, s.troves[i]) && closed != Active
    ensures CloseOut(s, i, closed).Some? ==>
              DebtSlack(CloseOut(s, i, closed).value) == DebtSlack(s) + DebtClaim(s, s.troves[i]) >= DebtSlack(s)
  {
    hide Sum, DebtSlack, DebtClaim, PendingDebt, PendingColl;
    ClaimOfPending(s, s.troves[i]);
    ClaimNonNegative(s, s.troves[i]);
    if CloseOut(s, i, closed).Some? {
      var r := CloseOut(s, i, closed).value;
      SlackOfReplaced(s, r, i, r.troves[i], 0);
      UpToDateClaims(s, r.troves[i]);
    }
  }

  lemma ClaimNonNegative(s: Ledger, t: Trove)
    requires GoodTrove(s, t)
    ensures DebtClaim(s, t) >= 0
  {
    NonNegative(t.stake, s.LColl - t.collSnapshot);
    NonNegative(t.stake, s.LDebt - t.debtSnapshot);
  }

  lemma TakeOutSlack(s: Ledger, i: nat)
    requires i < |s.troves| && GoodTrove(s, s.troves[i])
    ensures TakeOut(s, i).Some? ==> DebtSlack(TakeOut(s, i).value) >= DebtSlack(s)
  {
    hide Sum, DebtSlack, DebtClaim, CollClaim, PendingDebt, PendingColl;
    var t := s.troves[i];
    ClaimOfPending(s, t);
    if TakeOut(s, i).Some? {
      var r := TakeOut(s, i).value;
      SlackOfReplaced(s, r, i, r.troves[i], PendingDebt(s, t));
      UpToDateClaims(s, r.troves[i]);
    }
  }

  // A redistribution claims exactly what it brings, up to the error it carries over.
  lemma RedistributeSlack(s: Ledger, debt: nat, coll: nat, l: Limbo)
    requires Books(s, l)
    ensures Redistribute(s, debt, coll).Some? ==> DebtSlack(Redistribute(s, debt, coll).value) == DebtSlack(s)
  {
    hide Redistribute, Sum, SP.Valid;
    RedistributeFields(s, debt, coll);
    if debt > 0 && Redistribute(s, debt, coll).Some? {
      RedistributedClaims(s, Redistribute(s, debt, coll).value);
    }
  }

  // ---- The operations ----

  // What an adjustment of trove i adds to its debt claims: nothing when its rewards are applied first.
  function AdjustRise(s: Ledger, i: nat, c: Change): int
    requires i < |s.troves|
  {
    var t := s.troves[i];
    if HasPendingRewards(s, t) || t.coll + c.collIn < c.collOut || NewStake(s, t.coll + c.collIn - c.collOut).None? then 0
    else Rise(s, i, t.coll + c.collIn - c.collOut)
  }

  // After an adjustment the default pool covers the debt claims exactly when what the new stake adds to them
  // is within the slack.
  lemma AdjustPayableExactly(s: Ledger, i: nat, c: Change, fee: nat, price: nat)
    requires i < |s.troves| && GoodTrove(s, s.troves[i]) && DebtPayable(s)
    ensures Adjust(s, i, c, fee, price).Some? ==>
              (DebtPayable(Adjust(s, i, c, fee, price).value) <==> AdjustRise(s, i, c) <= DebtSlack(s))
  {
    hide DebtSlack, ApplyPending, SetTrove, NewStake, MoveTokens, ComputeCR, ComputeNominalCR, AdmitsAdjustment, Rise, GoodTrove;
    ApplySlack(s, i);
    if Adjust(s, i, c, fee, price).Some? {
      var a := ApplyPending(s, i).value;
      AppliedTrove(s, i);
      var t := a.troves[i];
      var charged := if c.increase && !RecoveryMode(s, price) then fee else 0;
      var newColl := t.coll + c.collIn - c.collOut;
      var newDebt := if c.increase then t.debt + c.debt + charged else t.debt - c.debt;
      SetTroveSlack(a, i, newColl, newDebt);
      TokensSlack(SetTrove(a, i, newColl, newDebt).value, c, charged);
      NoRise(a, i, newColl);
    }
  }

  lemma AppliedTrove(s: Ledger, i: nat)
    requires i < |s.troves| && GoodTrove(s, s.troves[i])
    ensures ApplyPending(s, i).Some? ==>
              var r := ApplyPending(s, i).value;
              && |r.troves| == |s.troves| && r.surplus == s.surplus
              && (HasPendingRewards(s, s.troves[i]) ==> r.troves[i].debtSnapshot == r.LDebt)
  {
    hide PendingColl, PendingDebt;
  }

  lemma NoRise(s: Ledger, i: nat, coll: nat)
    requires i < |s.troves| && NewStake(s, coll).Some?
    ensures s.troves[i].debtSnapshot == s.LDebt ==> Rise(s, i, coll) == 0
  {
  }

  lemma TokensSlack(s: Ledger, c: Change, charged: nat)
    ensures MoveTokens(s, c, charged).Some? ==> DebtSlack(MoveTokens(s, c, charged).value) == DebtSlack(s)
  {
    hide DebtSlack;
    if MoveTokens(s, c, charged).Some? {
      SlackOfSame(s, MoveTokens(s, c, charged).value);
    }
  }

  lemma OpenSlack(s: Ledger, i: nat, amount: nat, coll: nat, fee: nat, price: nat, feedActive: bool)
    requires i < |s.troves| && GoodTrove(s, s.troves[i])
    ensures Open(s, i, amount, coll, fee, price, feedActive).Some? ==>
              DebtSlack(Open(s, i, amount, coll, fee, price, feedActive).value) == DebtSlack(s)
  {
    hide DebtSlack, DebtClaim, NewStake, ComputeCR, ComputeNominalCR;
    if Open(s, i, amount, coll, fee, price, feedActive).Some? {
      var r := Open(s, i, amount, coll, fee, price, feedActive).value;
      SlackOfReplaced(s, r, i, r.troves[i], 0);
      UpToDateClaims(s, s.troves[i]);
      UpToDateClaims(s, r.troves[i]);
    }
  }

  lemma CloseSlack(s: Ledger, i: nat, price: nat)
    requires i < |s.troves| && GoodTrove(s, s.troves[i])
    ensures Close(s, i, price).Some? ==> DebtSlack(Close(s, i, price).value) >= DebtSlack(s)
  {
    hide DebtSlack, ApplyPending, CloseOut, ComputeCR, GoodTrove;
    ApplySlack(s, i);
    if Close(s, i, price).Some? {
      var a := ApplyPending(s, i).value;
      AppliedGood(s, i);
      CloseOutSlack(a, i, ClosedByOwner);
      SlackOfSame(CloseOut(a, i, ClosedByOwner).value, Close(s, i, price).value);
    }
  }

  lemma AppliedGood(s: Ledger, i: nat)
    requires i < |s.troves| && GoodTrove(s, s.troves[i])
    ensures ApplyPending(s, i).Some? ==>
              i < |ApplyPending(s, i).value.troves| && GoodTrove(ApplyPending(s, i).value, ApplyPending(s, i).value.troves[i])
  {
    hide PendingColl, PendingDebt;
  }

  // ---- Liquidations ----

  lemma TakeSlack(s: Ledger, i: nat, v: Values)
    requires i < |s.troves| && GoodTrove(s, s.troves[i]) && |s.surplus| == |s.troves|
    ensures Take(s, i, v).Some? ==> DebtSlack(Take(s, i, v).value) >= DebtSlack(s)
  {
    hide DebtSlack, TakeOut, GoodTrove;
    TakeOutSlack(s, i);
    if Take(s, i, v).Some? {
      SlackOfSame(TakeOut(s, i).value, Take(s, i, v).value);
    }
  }

  lemma BatchStepSlack(p: Progress, i: nat, price: nat, recovery: bool)
    requires i < |p.s.troves| && GoodTrove(p.s, p.s.troves[i]) && |p.s.surplus| == |p.s.troves|
    ensures BatchStep(p, i, price, recovery).Some? ==>
              DebtSlack(BatchStep(p, i, price, recovery).value.s) >= DebtSlack(p.s)
  {
    hide DebtSlack, Take, RecoveryValues, OffsetAndRedistribute, ComputeCR, GoodTrove, EntireColl, EntireDebt;
    forall v ensures Take(p.s, i, v).Some? ==> DebtSlack(Take(p.s, i, v).value) >= DebtSlack(p.s) {
      TakeSlack(p.s, i, v);
    }
  }

  lemma {:induction false} BatchSlack(s: Ledger, ids: seq<nat>, price: nat, recovery: bool)
    requires Books(s, NOTHING) && price > 0
    ensures Batch(s, ids, price, recovery).Some? ==> DebtSlack(Batch(s, ids, price, recovery).value.s) >= DebtSlack(s)
    decreases |ids|
  {
    hide Books, BatchStep, InBatch, Tracked, DebtSlack;
    if ids != [] {
      var shorter, i := ids[..|ids| - 1], ids[|ids| - 1];
      BatchSlack(s, shorter, price, recovery);
      if Batch(s, shorter, price, recovery).Some? {
        var p := Batch(s, shorter, price, recovery).value;
        if i < |p.s.troves| {
          BooksMeanGood(p, s, i);
          BatchStepSlack(p, i, price, recovery);
        }
      }
    }
  }

  lemma OffsetSlack(s: Ledger, debt: nat, coll: nat)
    ensures ApplyOffset(s, debt, coll).Some? ==> DebtSlack(ApplyOffset(s, debt, coll).value) == DebtSlack(s)
  {
    hide DebtSlack, SP.Offset;
    if ApplyOffset(s, debt, coll).Some? {
      SlackOfSame(s, ApplyOffset(s, debt, coll).value);
    }
  }

  lemma SettleSlack(s: Ledger, t: Totals)
    requires Books(s, LimboOf(t)) && TotalsConserve(t) && t.debtToOffset <= s.pool.total
    ensures Settle(s, t).Some? ==> DebtSlack(Settle(s, t).value) == DebtSlack(s)
  {
    hide Books, DebtSlack, ApplyOffset, Redistribute, DebtClaimsCovered, Synced;
    OffsetSlack(s, t.debtToOffset, t.collToSP);
    ApplyOffsetKeeps(s, t.debtToOffset, t.collToSP, LimboOf(t));
    if Settle(s, t).Some? {
      var a := ApplyOffset(s, t.debtToOffset, t.collToSP).value;
      var l := LimboOf(t);
      RedistributeSlack(a, t.debtToRedistribute, t.collToRedistribute,
                        l.(coll := l.coll - t.collToSP, debt := l.debt - t.debtToOffset));
      SlackOfSame(Redistribute(a, t.debtToRedistribute, t.collToRedistribute).value, Settle(s, t).value);
    }
  }

  // A liquidation never makes the pool fall short.
  lemma LiquidateSlack(s: Ledger, ids: seq<nat>, price: nat)
    requires Inv(s) && price > 0
    ensures Liquidate(s, ids, price).Some? ==> DebtSlack(Liquidate(s, ids, price).value) >= DebtSlack(s)
  {
    hide Books, Batch, Settle, DebtSlack, ComputeCR;
    BatchSlack(s, ids, price, RecoveryMode(s, price));
    if Liquidate(s, ids, price).Some? {
      var p := Batch(s, ids, price, RecoveryMode(s, price)).value;
      SettleSlack(p.s, p.totals);
    }
  }

  // ---- Redemptions ----

  // What a partial redemption of trove i adds to its debt claims.
  function RedeemRise(s: Ledger, i: nat, max: nat, price: nat): int
    requires i < |s.troves| && price > 0
  {
    var t := s.troves[i];
    if HasPendingRewards(s, t) || t.debt < GAS_COMPENSATION then 0
    else
      var collLot := FaceColl(Min(max, t.debt - GAS_COMPENSATION), price);
      if t.coll < collLot || NewStake(s, t.coll - collLot).None? then 0 else Rise(s, i, t.coll - collLot)
  }

  lemma CloseRedeemedSlack(s: Ledger, i: nat, rest: nat)
    requires i < |s.troves| && GoodTrove(s, s.troves[i]) && |s.surplus| == |s.troves|
    ensures CloseRedeemed(s, i, rest).Some? ==>
              DebtSlack(CloseRedeemed(s, i, rest).value) == DebtSlack(s) + DebtClaim(s, s.troves[i]) >= DebtSlack(s)
  {
    hide DebtSlack, CloseOut, GoodTrove, DebtClaim;
    CloseOutSlack(s, i, ClosedByRedemption);
    if CloseRedeemed(s, i, rest).Some? {
      SlackOfSame(CloseOut(s, i, ClosedByRedemption).value, CloseRedeemed(s, i, rest).value);
    }
  }

  // What closing a trove by redemption adds to the slack: its claims, less what its rewards take out of the pool.
  function Freed(s: Ledger, t: Trove): int
    requires GoodTrove(s, t)
  {
    DebtClaim(s, t) - if HasPendingRewards(s, t) then PRECISION * PendingDebt(s, t) else 0
  }

  function AllFreed(s: Ledger, queue: seq<nat>): (xs: seq<int>)
    requires AllGood(s, queue)
    ensures |xs| == |queue| && forall k | 0 <= k < |xs| :: xs[k] == Freed(s, s.troves[queue[k]])
  {
    seq(|queue|, k requires 0 <= k < |queue| => Freed(s, s.troves[queue[k]]))
  }

  lemma OneFrees(s: Ledger, i: nat, max: nat, price: nat, hintNICR: nat)
    requires i < |s.troves| && GoodTrove(s, s.troves[i]) && s.troves[i].status.Active? && |s.surplus| == |s.troves| && price > 0
    ensures RedeemOne(s, i, max, price, hintNICR).Some? ==>
      var r := RedeemOne(s, i, max, price, hintNICR).value;
      && (r.closed ==> DebtSlack(r.s) == DebtSlack(s) + Freed(s, s.troves[i]))
      && (!r.closed && !r.cancelled && !HasPendingRewards(s, s.troves[i]) ==>
            r.lot == max && DebtSlack(r.s) == DebtSlack(s) - RedeemRise(s, i, max, price))
      && (r.cancelled || (!r.closed && HasPendingRewards(s, s.troves[i])) ==> DebtSlack(r.s) >= DebtSlack(s))
  {
    hide DebtSlack, ApplyPending, SetTrove, CloseRedeemed, NewStake, ComputeNominalCR, Rise, GoodTrove, FaceColl;
    hide DebtClaim, PendingDebt;
    ApplySlack(s, i);
    if RedeemOne(s, i, max, price, hintNICR).Some? {
      var a := ApplyPending(s, i).value;
      AppliedTrove(s, i);
      AppliedGood(s, i);
      AppliedClaim(s, i);
      var t := a.troves[i];
      var lot := Min(max, t.debt - GAS_COMPENSATION);
      CloseRedeemedSlack(a, i, t.coll - FaceColl(lot, price));
      SetTroveSlack(a, i, t.coll - FaceColl(lot, price), t.debt - lot);
      if NewStake(a, t.coll - FaceColl(lot, price)).Some? {
        NoRise(a, i, t.coll - FaceColl(lot, price));
      }
    }
  }

  lemma AppliedClaim(s: Ledger, i: nat)
    requires i < |s.troves| && GoodTrove(s, s.troves[i])
    ensures ApplyPending(s, i).Some? && HasPendingRewards(s, s.troves[i]) ==>
              i < |ApplyPending(s, i).value.troves|
              && DebtClaim(ApplyPending(s, i).value, ApplyPending(s, i).value.troves[i]) == 0
  {
    hide PendingColl, PendingDebt;
    if ApplyPending(s, i).Some? && HasPendingRewards(s, s.troves[i]) {
      UpToDateClaims(ApplyPending(s, i).value, ApplyPending(s, i).value.troves[i]);
    }
  }

  // After a redemption: what the closed troves freed is added to the slack, and what the partly redeemed one claims with its
  // new stake is taken off, if its rewards were skipped.
  lemma {:induction false} SlackAfterRedemption(s: Ledger, queue: seq<nat>, remaining: nat, price: nat, hintNICR: nat, l: Limbo)
    requires Books(s, l) && Queue(s, queue) && price > 0
    ensures Visitable(s, queue)
    ensures RedeemLoop(s, queue, remaining, price, hintNICR).Some? ==>
      var o := RedeemLoop(s, queue, remaining, price, hintNICR).value;
      && o.closed <= |queue| && (o.partial > 0 ==> o.closed < |queue|)
      && (o.partial == 0 || HasPendingRewards(s, s.troves[queue[o.closed]]) ==>
            DebtSlack(o.s) >= DebtSlack(s) + Sum(AllFreed(s, queue[..o.closed])))
      && (o.partial > 0 && !HasPendingRewards(s, s.troves[queue[o.closed]]) ==>
            DebtSlack(o.s) == DebtSlack(s) + Sum(AllFreed(s, queue[..o.closed])) - RedeemRise(s, queue[o.closed], o.partial, price))
    decreases |queue|
  {
    hide Books, RedeemOne, DebtSlack, GoodTrove, RedeemRise, Freed, HasPendingRewards, Sum, OnlyThese, FaceValue, NetDebts;
    AllGoodInQueue(s, queue, l);
    var r := RedeemLoop(s, queue, remaining, price, hintNICR);
    if r.None? { return; }
    RedeemLoopEffect(s, queue, remaining, price, hintNICR, l);
    assert AllFreed(s, queue[..0]) == [];
    NoneFreed(s, queue);
    if queue != [] && remaining > 0 {
      FirstOfQueue(s, queue);
      OneFrees(s, queue[0], remaining, price, hintNICR);
      RedeemOneKeeps(s, queue[0], remaining, price, hintNICR, l);
      var one := RedeemOne(s, queue[0], remaining, price, hintNICR).value;
      if one.closed && !one.cancelled {
        QueueRest(s, queue, remaining, price, hintNICR);
        FirstSparesRest(s, queue, remaining, price, hintNICR);
        SlackAfterRedemption(one.s, queue[1..], remaining - one.lot, price, hintNICR,
                             l.(coll := l.coll + one.collLot, debt := l.debt + one.lot));
        FreedOfRest(s, queue, one, remaining, price, hintNICR, r.value.closed - 1, r.value.partial);
      }
    }
  }

  lemma NoneFreed(s: Ledger, queue: seq<nat>)
    requires AllGood(s, queue)
    ensures Sum(AllFreed(s, queue[..0])) == 0
  {
  }

  lemma FreedOfRest(s: Ledger, queue: seq<nat>, one: Single, remaining: nat, price: nat, hintNICR: nat, n: nat,
                    lot: nat)
    requires Visitable(s, queue) && queue != [] && price > 0 && n < |queue|
    requires RedeemOne(s, queue[0], remaining, price, hintNICR) == Some(one) && Visitable(one.s, queue[1..])
    ensures Sum(AllFreed(s, queue[..n + 1])) == Freed(s, s.troves[queue[0]]) + Sum(AllFreed(one.s, queue[1..][..n]))
    ensures n + 1 < |queue| ==>
              && queue[n + 1] < |s.troves| == |one.s.troves| && one.s.troves[queue[n + 1]] == s.troves[queue[n + 1]]
              && HasPendingRewards(one.s, s.troves[queue[n + 1]]) == HasPendingRewards(s, s.troves[queue[n + 1]])
              && RedeemRise(one.s, queue[n + 1], lot, price) == RedeemRise(s, queue[n + 1], lot, price)
  {
    hide RedeemOne, GoodTrove, RedeemRise, Freed, Sum;
    OneSpares(s, queue[0], remaining, price, hintNICR);
    var ys := AllFreed(one.s, queue[1..][..n]);
    forall k | 0 <= k < n ensures ys[k] == Freed(s, s.troves[queue[k + 1]]) {
      SameFreed(s, one.s, s.troves[queue[k + 1]]);
    }
    assert AllFreed(s, queue[..n + 1]) == [Freed(s, s.troves[queue[0]])] + ys;
    SumCons(Freed(s, s.troves[queue[0]]), ys);
    SnapshotsStay(s, queue[0], remaining, price, hintNICR);
    if n + 1 < |queue| {
      SameRise(s, one.s, queue[n + 1], lot, price);
    }
  }

  lemma SameFreed(s: Ledger, r: Ledger, t: Trove)
    requires r.LColl == s.LColl && r.LDebt == s.LDebt && GoodTrove(s, t) && GoodTrove(r, t)
    ensures Freed(r, t) == Freed(s, t)
  {
  }

  lemma SameRise(s: Ledger, r: Ledger, i: nat, lot: nat, price: nat)
    requires i < |s.troves| == |r.troves| && r.troves[i] == s.troves[i] && price > 0
    requires r.LColl == s.LColl && r.LDebt == s.LDebt && r.stakesSnapshot == s.stakesSnapshot && r.collSnapshot == s.collSnapshot
    ensures RedeemRise(r, i, lot, price) == RedeemRise(s, i, lot, price)
  {
    hide FaceColl;
  }

  // The condition of a redemption, on the state before it: the new claims of the trove that gives what is left of the amount
  // after the debts before it are within the slack and what those before it free. It is met where no trove gives a part, or
  // that trove's rewards are not skipped.
  ghost predicate PartBearable(s: Ledger, queue: seq<nat>, amount: nat, price: nat, hintNICR: nat)
    requires AllGood(s, queue) && price > 0
  {
    var n, left := FullVisits(s, queue, amount), AfterFullVisits(s, queue, amount);
    ComesToPart(s, queue, amount) && !HasPendingRewards(s, s.troves[queue[n]])
    && TakesPart(s, s.troves[queue[n]], left, price, hintNICR) ==>
      RedeemRise(s, queue[n], left, price) <= DebtSlack(s) + Sum(AllFreed(s, queue[..n]))
  }

  lemma RedeemLoopPayableExactly(s: Ledger, queue: seq<nat>, amount: nat, price: nat, hintNICR: nat, l: Limbo)
    requires Books(s, l) && Queue(s, queue) && price > 0 && DebtPayable(s)
    ensures Visitable(s, queue)
    ensures RedeemLoop(s, queue, amount, price, hintNICR).Some? ==>
              (DebtPayable(RedeemLoop(s, queue, amount, price, hintNICR).value.s)
               <==> PartBearable(s, queue, amount, price, hintNICR))
  {
    hide Books, RedeemLoop, DebtSlack, GoodTrove, RedeemRise, HasPendingRewards, Sum, AfterFullVisits, TakesPart;
    AllGoodInQueue(s, queue, l);
    OutcomeByDebts(s, queue, amount, price, hintNICR, l);
    SlackAfterRedemption(s, queue, amount, price, hintNICR, l);
    FreedNonNegative(s, queue[..FullVisits(s, queue, amount)]);
  }

  lemma FreedNonNegative(s: Ledger, queue: seq<nat>)
    requires AllGood(s, queue)
    ensures Sum(AllFreed(s, queue)) >= 0
  {
    hide Sum, DebtClaim, PendingDebt;
    forall k | 0 <= k < |queue| ensures AllFreed(s, queue)[k] >= 0 {
      ClaimOfPending(s, s.troves[queue[k]]);
      ClaimNonNegative(s, s.troves[queue[k]]);
    }
    SumNonNegative(AllFreed(s, queue));
  }

  lemma RedeemPayableExactly(s: Ledger, queue: seq<nat>, amount: nat, price: nat, hintNICR: nat, maxIterations: nat,
                             fee: nat, feedInactive: bool)
    requires Inv(s) && Queue(s, queue) && price > 0 && DebtPayable(s)
    ensures Visitable(s, queue) && Visitable(s, Visits(queue, maxIterations))
    ensures Redeem(s, queue, amount, price, hintNICR, maxIterations, fee, feedInactive).Some? ==>
              (DebtPayable(Redeem(s, queue, amount, price, hintNICR, maxIterations, fee, feedInactive).value)
               <==> PartBearable(s, Visits(queue, maxIterations), amount, price, hintNICR))
  {
    hide Books, RedeemLoop, PartBearable, DebtSlack, GoodTrove, TCR, Queue;
    var visited := Visits(queue, maxIterations);
    AllGoodInQueue(s, queue, NOTHING);
    PrefixQueue(s, queue, |visited|);
    assert visited == queue[..|visited|];
    RedeemLoopPayableExactly(s, visited, amount, price, hintNICR, NOTHING);
    if Redeem(s, queue, amount, price, hintNICR, maxIterations, fee, feedInactive).Some? {
      SlackOfSame(RedeemLoop(s, visited, amount, price, hintNICR).value.s,
                  Redeem(s, queue, amount, price, hintNICR, maxIterations, fee, feedInactive).value);
    }
  }

  // ---- Every operation ----

  // What can be checked before a call: the new stake it gives a trove whose rewards are skipped does not add
  // more debt claims than there is slack.
  ghost predicate Bearable(s: Ledger, op: Op)
    requires Inv(s) && WellFormed(s, op)
  {
    InvMeans(s, op);
    match op
    case AdjustTrove(i, change, _, _) => AdjustRise(s, i, change) <= DebtSlack(s)
    case MoveGainToTrove(i, _) =>
      i < |s.pool.deposits| ==>
      AdjustRise(s, i, Change(SP.CollateralGain(s.pool, s.pool.deposits[i]), 0, 0, false)) <= DebtSlack(s)
    case RedeemCollateral(queue, amount, price, hintNICR, maxIterations, _, _) =>
      VisitsVisitable(s, queue, maxIterations);
      PartBearable(s, Visits(queue, maxIterations), amount, price, hintNICR)
    case _ => true
  }

  lemma VisitsVisitable(s: Ledger, queue: seq<nat>, maxIterations: nat)
    requires Visitable(s, queue)
    ensures Visitable(s, Visits(queue, maxIterations))
  {
  }

  lemma GainToTrovePayableExactly(s: Ledger, i: nat, price: nat)
    requires SP.Valid(s.pool) && i < |s.troves| && GoodTrove(s, s.troves[i]) && DebtPayable(s)
    ensures GainToTrove(s, i, price).Some? ==>
      && i < |s.pool.deposits|
      && (DebtPayable(GainToTrove(s, i, price).value) <==>
            AdjustRise(s, i, Change(SP.CollateralGain(s.pool, s.pool.deposits[i]), 0, 0, false)) <= DebtSlack(s))
  {
    hide Adjust, SP.TryStep, SP.Valid, DebtSlack, GoodTrove, AdjustRise;
    if GainToTrove(s, i, price).Some? {
      var op := SP.WithdrawGainToTrove(i, s.troves[i].status.Active?);
      GainMoved(s.pool, op);
      var q := SP.TryStep(s.pool, op).value;
      var c := Change(s.pool.collateral - q.collateral, 0, 0, false);
      AdjustPayableExactly(s, i, c, 0, price);
      SlackOfSame(Adjust(s, i, c, 0, price).value, GainToTrove(s, i, price).value);
    }
  }

  // A step that succeeds leaves the debt claims covered exactly when the condition held before it.
  lemma StepPayableExactly(s: Ledger, op: Op)
    requires Inv(s) && WellFormed(s, op) && DebtPayable(s)
    ensures TryStep(s, op).Some? ==> (DebtPayable(TryStep(s, op).value) <==> Bearable(s, op))
  {
    hide Inv, DebtSlack, SP.Valid, Open, Adjust, Close, Liquidate, Redeem, ClaimSurplus, ProvideToSP, WithdrawFromSP;
    hide GainToTrove, AdjustRise, PartBearable;
    InvMeans(s, op);
    match op
    case OpenTrove(i, amount, coll, fee, price, feedActive) => OpenSlack(s, i, amount, coll, fee, price, feedActive);
    case AdjustTrove(i, change, fee, price) => AdjustPayableExactly(s, i, change, fee, price);
    case CloseTrove(i, price) => CloseSlack(s, i, price);
    case LiquidateTroves(ids, price) => LiquidateSlack(s, ids, price);
    case RedeemCollateral(queue, amount, price, hintNICR, maxIterations, fee, feedInactive) =>
      RedeemPayableExactly(s, queue, amount, price, hintNICR, maxIterations, fee, feedInactive);
    case MoveGainToTrove(i, price) => GainToTrovePayableExactly(s, i, price);
    case _ => OtherSlack(s, op);
  }

  lemma OtherSlack(s: Ledger, op: Op)
    requires Inv(s) && WellFormed(s, op)
    requires op.ClaimCollateral? || op.DepositToSP? || op.WithdrawDeposit? || op.BorrowLoan? || op.RepayLoan? || op.ChangeMintList?
    ensures TryStep(s, op).Some? ==> DebtSlack(TryStep(s, op).value) == DebtSlack(s)
  {
    hide Inv, DebtSlack, SP.Valid, SP.TryStep;
    InvMeans(s, op);
    if TryStep(s, op).Some? {
      SlackOfSame(s, TryStep(s, op).value);
    }
  }

  // ---- Every run ----

  ghost predicate PayableThroughout(s: Ledger, ops: seq<Op>)
    requires Inv(s)
    decreases |ops|
  {
    DebtPayable(s) && (ops != [] ==> PayableThroughout(Step(s, ops[0]), ops[1..]))
  }

  // Every step that goes through meets the condition before it.
  ghost predicate AllBearable(s: Ledger, ops: seq<Op>)
    requires Inv(s)
    decreases |ops|
  {
    ops != [] ==>
      && (WellFormed(s, ops[0]) && TryStep(s, ops[0]).Some? ==> Bearable(s, ops[0]))
      && AllBearable(Step(s, ops[0]), ops[1..])
  }

  // The debt claims are covered in every state of a run exactly when every step meets the condition.
  lemma {:induction false} RunPayableExactly(s: Ledger, ops: seq<Op>)
    requires Inv(s) && DebtPayable(s)
    ensures PayableThroughout(s, ops) <==> AllBearable(s, ops)
    decreases |ops|
  {
    hide Inv, DebtSlack, TryStep, Bearable, Step;
    if ops != [] {
      StepOnPayable(s, ops[0]);
      if DebtPayable(Step(s, ops[0])) {
        RunPayableExactly(Step(s, ops[0]), ops[1..]);
      }
    }
  }

  lemma StepOnPayable(s: Ledger, op: Op)
    requires Inv(s) && DebtPayable(s)
    ensures DebtPayable(Step(s, op)) <==> (WellFormed(s, op) && TryStep(s, op).Some? ==> Bearable(s, op))
  {
    hide Inv, DebtSlack, TryStep, Bearable;
    if WellFormed(s, op) {
      StepPayableExactly(s, op);
    }
  }

  // From an empty system on, and with what it buys: every pending debt can be paid.
  lemma EveryPendingDebtPayable(accounts: nat, pcvSet: bool, ops: seq<Op>)
    ensures Inv(EmptyLedger(accounts, pcvSet))
    ensures PayableThroughout(EmptyLedger(accounts, pcvSet), ops) <==> AllBearable(EmptyLedger(accounts, pcvSet), ops)
    ensures AllBearable(EmptyLedger(accounts, pcvSet), ops) ==>
      var s := Run(EmptyLedger(accounts, pcvSet), ops);
      forall i | 0 <= i < |s.troves| :: PendingDebt(s, s.troves[i]) <= s.defaultDebt
  {
    hide Inv, DebtSlack, AllBearable, PayableThroughout, Run, PendingDebt;
    var s := EmptyLedger(accounts, pcvSet);
    EmptyInv(accounts, pcvSet);
    RunPayableExactly(s, ops);
    if AllBearable(s, ops) {
      PayableAtEnd(s, ops);
      PayablePays(Run(s, ops));
    }
  }

  lemma {:induction false} PayableAtEnd(s: Ledger, ops: seq<Op>)
    requires Inv(s) && PayableThroughout(s, ops)
    ensures DebtPayable(Run(s, ops))
    decreases |ops|
  {
    hide Inv, DebtSlack, Step;
    if ops != [] {
      PayableAtEnd(Step(s, ops[0]), ops[1..]);
    }
  }

  lemma PayablePays(s: Ledger)
    requires Inv(s) && DebtPayable(s)
    ensures forall i | 0 <= i < |s.troves| :: PendingDebt(s, s.troves[i]) <= s.defaultDebt
  {
    hide Sum, SP.Valid, PendingDebt;
    forall i | 0 <= i < |s.troves| ensures PendingDebt(s, s.troves[i]) <= s.defaultDebt {
      PendingDebtInPool(s, i);
    }
  }
}
