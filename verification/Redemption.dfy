/** Redemptions: thUSD for collateral at face value, trove by trove from the lowest ratio at or above MCR
    upwards, with one partial redemption at most, guarded by the hinted NICR. */
module Redemption {
  import opened Common
  import opened TroveLedger
  import opened Liquidation
  import SP = StabilityPool

  // ---- One trove ----

  datatype Single = Single(s: Ledger, lot: nat, collLot: nat, closed: bool, cancelled: bool)

  // The collateral a lot of thUSD buys at face value.
  function FaceColl(lot: nat, price: nat): nat
    requires price > 0
  {
    lot * PRECISION / price
  }

  // _applyPendingRewards, then _redeemCollateralFromTrove
  function RedeemOne(s: Ledger, i: nat, max: nat, price: nat, hintNICR: nat): Option<Single>
    requires i < |s.troves| && GoodTrove(s, s.troves[i]) && |s.surplus| == |s.troves| && price > 0
  {
    match ApplyPending(s, i)
    case None => None
    case Some(a) => RedeemFromTrove(a, i, max, price, hintNICR)
  }

  // _redeemCollateralFromTrove
  function RedeemFromTrove(a: Ledger, i: nat, max: nat, price: nat, hintNICR: nat): Option<Single>
    requires i < |a.troves| && |a.surplus| == |a.troves| && price > 0
  {
    var t := a.troves[i];
    if t.debt < GAS_COMPENSATION then None
    else
      var lot := Min(max, t.debt - GAS_COMPENSATION);
      var collLot := FaceColl(lot, price);
      if t.coll < collLot then None
      else
        var newDebt, newColl := t.debt - lot, t.coll - collLot;
        if newDebt == GAS_COMPENSATION then
          match CloseRedeemed(a, i, newColl)
          case None => None
          case Some(b) => Some(Single(b, lot, collLot, true, false))
        else if ComputeNominalCR(newColl, newDebt) != hintNICR || newDebt - GAS_COMPENSATION < MIN_NET_DEBT then
          Some(Single(a, 0, 0, false, true))
        else if ComputeNominalCR(newColl, newDebt) == 0 then None
        else
          match SetTrove(a, i, newColl, newDebt)
          case None => None
          case Some(b) => Some(Single(b, lot, collLot, false, false))
  }

  // Close the trove, then _redeemCloseTrove.
  function CloseRedeemed(s: Ledger, i: nat, rest: nat): Option<Ledger>
    requires i < |s.troves| && |s.surplus| == |s.troves|
  {
    match CloseOut(s, i, ClosedByRedemption)
    case None => None
    case Some(b) => BurnReserve(b, i, rest)
  }

  // _redeemCloseTrove: cancel the reserve against the gas pool and set the remaining collateral aside.
  function BurnReserve(s: Ledger, i: nat, rest: nat): Option<Ledger>
    requires i < |s.surplus|
  {
    if s.gasPool < GAS_COMPENSATION || s.supply < GAS_COMPENSATION || s.activeDebt < GAS_COMPENSATION || s.activeColl < rest
    then None
    else
      Some(s.(gasPool := s.gasPool - GAS_COMPENSATION, supply := s.supply - GAS_COMPENSATION,
              activeDebt := s.activeDebt - GAS_COMPENSATION, activeColl := s.activeColl - rest,
              surplus := s.surplus[i := s.surplus[i] + rest], surplusColl := s.surplusColl + rest))
  }

  // What one visit does to the rest of the state.
  ghost predicate Visited(s: Ledger, i: nat, r: Single)
    requires i < |s.troves| && GoodTrove(s, s.troves[i]) && |s.surplus| == |s.troves|
  {
    var t := s.troves[i];
    && |r.s.troves| == |s.troves| && |r.s.surplus| == |s.troves|
    && (forall j | 0 <= j < |s.troves| && j != i :: r.s.troves[j] == s.troves[j] && r.s.surplus[j] == s.surplus[j])
    && r.s.LColl == s.LColl && r.s.LDebt == s.LDebt && r.s.held == s.held && r.s.loan == s.loan
    && r.s.pool == s.pool && r.s.pcvSet == s.pcvSet && r.s.stranded == s.stranded && r.s.canMint == s.canMint
    && (r.closed ==>
          && r.s.troves[i].status == ClosedByRedemption && r.lot == AppliedDebt(s, t) - GAS_COMPENSATION
          && r.collLot <= EntireColl(s, t)
          && r.s.surplus[i] == s.surplus[i] + EntireColl(s, t) - r.collLot
          && r.s.surplusColl == s.surplusColl + EntireColl(s, t) - r.collLot
          && r.s.supply == s.supply - GAS_COMPENSATION && r.s.gasPool == s.gasPool - GAS_COMPENSATION)
    && (!r.closed ==>
          && r.s.troves[i].status.Active? && r.s.surplus == s.surplus && r.s.surplusColl == s.surplusColl
          && r.s.troves[i].debt == AppliedDebt(s, t) - r.lot && r.s.troves[i].coll == EntireColl(s, t) - r.collLot
          && r.s.supply == s.supply && r.s.gasPool == s.gasPool)
    && (r.cancelled ==> !r.closed && r.lot == r.collLot == 0)
    && SystemColl(r.s) + r.s.surplusColl == SystemColl(s) + s.surplusColl
    && SystemDebt(r.s) == SystemDebt(s) - (if r.closed then GAS_COMPENSATION else 0)
  }

  lemma CloseRedeemedKeeps(s: Ledger, i: nat, rest: nat, l: Limbo)
    requires Books(s, l) && i < |s.troves| && s.troves[i].status.Active? && s.troves[i].collSnapshot == s.LColl
    ensures CloseRedeemed(s, i, rest).Some? ==>
      var r := CloseRedeemed(s, i, rest).value;
      var t := s.troves[i];
      && Books(r, l.(coll := l.coll + t.coll - rest, debt := l.debt + t.debt - GAS_COMPENSATION))
      && (TokensMatchDebt(s) ==> TokensMatchDebt(r))
      && (t.debtSnapshot == s.LDebt && DebtClaimsCovered(s) ==> DebtClaimsCovered(r)) && (Synced(s) ==> Synced(r))
      && r == s.(troves := s.troves[i := Trove(ClosedByRedemption, 0, 0, 0, 0, 0)], totalStakes := r.totalStakes,
                 gasPool := s.gasPool - GAS_COMPENSATION, supply := s.supply - GAS_COMPENSATION,
                 activeDebt := s.activeDebt - GAS_COMPENSATION, activeColl := s.activeColl - rest,
                 surplus := s.surplus[i := s.surplus[i] + rest], surplusColl := s.surplusColl + rest)
  {
    hide CloseOut, Sum, CollClaim, DebtClaim, SP.Valid, GoodTrove, CollClaims, DebtClaims, Stakes, Colls, Debts;
    CloseOutKeeps(s, i, ClosedByRedemption, l);
    if CloseRedeemed(s, i, rest).Some? {
      SameBooks(CloseOut(s, i, ClosedByRedemption).value, CloseRedeemed(s, i, rest).value);
      SumUpdate(s.surplus, i, s.surplus[i] + rest);
    }
  }

  lemma NoLot(price: nat)
    requires price > 0
    ensures FaceColl(0, price) == 0
  {
  }

  lemma RedeemOneKeeps(s: Ledger, i: nat, max: nat, price: nat, hintNICR: nat, l: Limbo)
    requires Books(s, l) && i < |s.troves| && s.troves[i].status.Active? && price > 0
    ensures GoodTrove(s, s.troves[i]) && |s.surplus| == |s.troves|
    ensures RedeemOne(s, i, max, price, hintNICR).Some? ==>
      var r := RedeemOne(s, i, max, price, hintNICR).value;
      && Books(r.s, l.(coll := l.coll + r.collLot, debt := l.debt + r.lot))
      && (TokensMatchDebt(s) ==> TokensMatchDebt(r.s))
      && (Synced(s) ==> Synced(r.s) && (DebtClaimsCovered(s) ==> DebtClaimsCovered(r.s)))
      && r.lot <= max && (!r.closed && !r.cancelled ==> r.lot == max) && (r.cancelled ==> r.lot == r.collLot == 0)
      && r.collLot == FaceColl(r.lot, price)
      && r.s.held == s.held && r.s.pcvSet == s.pcvSet && r.s.stranded == s.stranded && |r.s.surplus| == |r.s.troves|
  {
    hide ApplyPending, SetTrove, CloseRedeemed, DebtClaimsCovered, Synced, TokensMatchDebt, FaceColl;
    hide PendingColl, PendingDebt, ComputeNominalCR, Books, GoodTrove;
    GoodOf(s, l, i);
    ApplyPendingKeeps(s, i, l);
    if RedeemOne(s, i, max, price, hintNICR).Some? {
      var a := ApplyPending(s, i).value;
      var t := a.troves[i];
      GoodOf(a, l, i);
      AppliedOnly(s, i);
      var lot := Min(max, t.debt - GAS_COMPENSATION);
      var collLot := FaceColl(lot, price);
      NoLot(price);
      CloseRedeemedKeeps(a, i, t.coll - collLot, l);
      if t.debt - lot >= GAS_COMPENSATION + MIN_NET_DEBT {
        SetTroveKeeps(a, i, t.coll - collLot, t.debt - lot, l);
      }
    }
  }

  lemma RedeemOneVisits(s: Ledger, i: nat, max: nat, price: nat, hintNICR: nat, l: Limbo)
    requires Books(s, l) && i < |s.troves| && s.troves[i].status.Active? && price > 0
    ensures GoodTrove(s, s.troves[i]) && |s.surplus| == |s.troves|
    ensures RedeemOne(s, i, max, price, hintNICR).Some? ==> Visited(s, i, RedeemOne(s, i, max, price, hintNICR).value)
  {
    hide ApplyPending, SetTrove, CloseRedeemed, DebtClaimsCovered, Synced, PendingColl, PendingDebt, ComputeNominalCR, Books;
    hide TokensMatchDebt, FaceColl;
    GoodOf(s, l, i);
    ApplyPendingKeeps(s, i, l);
    if RedeemOne(s, i, max, price, hintNICR).Some? {
      var a := ApplyPending(s, i).value;
      var t := a.troves[i];
      GoodOf(a, l, i);
      AppliedOnly(s, i);
      var lot := Min(max, t.debt - GAS_COMPENSATION);
      CloseRedeemedKeeps(a, i, t.coll - FaceColl(lot, price), l);
      if t.debt - lot >= GAS_COMPENSATION + MIN_NET_DEBT {
        SetTroveKeeps(a, i, t.coll - FaceColl(lot, price), t.debt - lot, l);
      }
    }
  }

  lemma PartialTakesAll(s: Ledger, i: nat, max: nat, price: nat, hintNICR: nat)
    requires i < |s.troves| && GoodTrove(s, s.troves[i]) && |s.surplus| == |s.troves| && price > 0
    ensures
      var r := RedeemOne(s, i, max, price, hintNICR);
      r.Some? ==>
        && (!r.value.closed && !r.value.cancelled ==> r.value.lot == max)
        && (r.value.cancelled ==> r.value.lot == r.value.collLot == 0 && !r.value.closed)
  {
    hide ApplyPending, SetTrove, CloseRedeemed, ComputeNominalCR, FaceColl;
  }

  lemma GoodOf(s: Ledger, l: Limbo, i: nat)
    requires Books(s, l) && i < |s.troves|
    ensures GoodTrove(s, s.troves[i]) && |s.surplus| == |s.troves|
  {
  }

  lemma AppliedOnly(s: Ledger, i: nat)
    requires i < |s.troves| && GoodTrove(s, s.troves[i]) && ApplyPending(s, i).Some?
    ensures
      var r := ApplyPending(s, i).value;
      |r.troves| == |s.troves| && forall j | 0 <= j < |s.troves| && j != i :: r.troves[j] == s.troves[j]
  {
    hide PendingColl, PendingDebt;
  }

  // ---- The sequence ----

  // closed: how many troves, from the front of the queue, were redeemed in full.
  datatype Outcome = Outcome(s: Ledger, redeemed: nat, drawn: nat, closed: nat, partial: nat, cancelled: bool)

  predicate Queue(s: Ledger, queue: seq<nat>) {
    && (forall k | 0 <= k < |queue| :: queue[k] < |s.troves| && s.troves[queue[k]].status.Active?)
    && (forall j, k | 0 <= j < k < |queue| :: queue[j] != queue[k])
  }

  // The loop of redeemCollateral; `queue` lists the troves from the starting one upwards.
  function RedeemLoop(s: Ledger, queue: seq<nat>, remaining: nat, price: nat, hintNICR: nat): Option<Outcome>
    requires Visitable(s, queue) && price > 0
    decreases |queue|
  {
    if queue == [] || remaining == 0 then Some(Outcome(s, 0, 0, 0, 0, false))
    else
      FirstSparesRest(s, queue, remaining, price, hintNICR);
      match RedeemOne(s, queue[0], remaining, price, hintNICR)
      case None => None
      case Some(one) =>
        if one.cancelled then Some(Outcome(one.s, 0, 0, 0, 0, true))
        else
          match RedeemLoop(one.s, queue[1..], remaining - one.lot, price, hintNICR)
          case None => None
          case Some(o) =>
            Some(Outcome(o.s, one.lot + o.redeemed, one.collLot + o.drawn,
                         if one.closed then 1 + o.closed else o.closed,
                         if one.closed then o.partial else one.lot, o.cancelled))
  }

  ghost predicate AllGood(s: Ledger, queue: seq<nat>) {
    forall k | 0 <= k < |queue| :: queue[k] < |s.troves| && GoodTrove(s, s.troves[queue[k]])
  }

  ghost predicate Visitable(s: Ledger, queue: seq<nat>) {
    && AllGood(s, queue) && |s.surplus| == |s.troves|
    && (forall j, k | 0 <= j < k < |queue| :: queue[j] != queue[k])
  }

  lemma FirstSparesRest(s: Ledger, queue: seq<nat>, max: nat, price: nat, hintNICR: nat)
    requires Visitable(s, queue) && queue != [] && price > 0
    ensures
      var r := RedeemOne(s, queue[0], max, price, hintNICR);
      r.Some? ==> Visitable(r.value.s, queue[1..]) && r.value.lot <= max
  {
    hide GoodTrove, PendingColl, PendingDebt, NewStake, Sum;
    var r := RedeemOne(s, queue[0], max, price, hintNICR);
    if r.Some? {
      OneSpares(s, queue[0], max, price, hintNICR);
      assert forall k | 0 <= k < |queue[1..]| :: queue[1..][k] == queue[k + 1];
      forall k | 0 <= k < |queue[1..]| ensures GoodTrove(r.value.s, r.value.s.troves[queue[1..][k]]) {
        assert GoodTrove(s, s.troves[queue[k + 1]]);
        StillGood(s, r.value.s, s.troves[queue[k + 1]]);
      }
    }
  }

  lemma StillGood(s: Ledger, q: Ledger, t: Trove)
    requires GoodTrove(s, t) && q.LColl == s.LColl && q.LDebt == s.LDebt
    ensures GoodTrove(q, t)
  {
  }

  lemma OneSpares(s: Ledger, i: nat, max: nat, price: nat, hintNICR: nat)
    requires i < |s.troves| && GoodTrove(s, s.troves[i]) && |s.surplus| == |s.troves| && price > 0
    ensures
      var r := RedeemOne(s, i, max, price, hintNICR);
      r.Some? ==>
        && r.value.lot <= max && |r.value.s.troves| == |s.troves| && |r.value.s.surplus| == |s.troves|
        && r.value.s.LColl == s.LColl && r.value.s.LDebt == s.LDebt
        && forall j | 0 <= j < |s.troves| && j != i :: r.value.s.troves[j] == s.troves[j]
  {
    hide GoodTrove, PendingColl, PendingDebt, NewStake, Sum, ComputeNominalCR;
  }

  lemma SnapshotsStay(s: Ledger, i: nat, max: nat, price: nat, hintNICR: nat)
    requires i < |s.troves| && GoodTrove(s, s.troves[i]) && |s.surplus| == |s.troves| && price > 0
    ensures RedeemOne(s, i, max, price, hintNICR).Some? ==>
              var r := RedeemOne(s, i, max, price, hintNICR).value.s;
              r.stakesSnapshot == s.stakesSnapshot && r.collSnapshot == s.collSnapshot
  {
    hide PendingColl, PendingDebt, NewStake, Sum, ComputeNominalCR, GoodTrove;
  }

  lemma QueueFirst(s: Ledger, queue: seq<nat>)
    requires Queue(s, queue)
    ensures queue != [] ==> queue[0] < |s.troves| && s.troves[queue[0]].status.Active?
  {
  }

  lemma QueueRest(s: Ledger, queue: seq<nat>, max: nat, price: nat, hintNICR: nat)
    requires Queue(s, queue) && queue != [] && price > 0 && Visitable(s, queue)
    ensures
      var r := RedeemOne(s, queue[0], max, price, hintNICR);
      r.Some? ==> Queue(r.value.s, queue[1..])
  {
    hide GoodTrove, RedeemOne;
    OneSpares(s, queue[0], max, price, hintNICR);
    assert forall k | 0 <= k < |queue[1..]| :: queue[1..][k] == queue[k + 1];
  }

  // The loop keeps the books with what is drawn and redeemed in limbo.
  lemma {:induction false} RedeemLoopKeeps(s: Ledger, queue: seq<nat>, remaining: nat, price: nat, hintNICR: nat, l: Limbo)
    requires Books(s, l) && Queue(s, queue) && price > 0
    ensures Visitable(s, queue)
    ensures RedeemLoop(s, queue, remaining, price, hintNICR).Some? ==>
      var o := RedeemLoop(s, queue, remaining, price, hintNICR).value;
      && Books(o.s, l.(coll := l.coll + o.drawn, debt := l.debt + o.redeemed))
      && (TokensMatchDebt(s) ==> TokensMatchDebt(o.s))
      && (Synced(s) ==> Synced(o.s) && (DebtClaimsCovered(s) ==> DebtClaimsCovered(o.s)))
      && o.s.held == s.held && o.s.pcvSet == s.pcvSet && o.s.stranded == s.stranded
    decreases |queue|
  {
    hide Books, Synced, RedeemOne, TokensMatchDebt, DebtClaimsCovered, Visited;
    AllGoodInQueue(s, queue, l);
    if queue != [] && remaining > 0 && RedeemLoop(s, queue, remaining, price, hintNICR).Some? {
      RedeemOneKeeps(s, queue[0], remaining, price, hintNICR, l);
      var one := RedeemOne(s, queue[0], remaining, price, hintNICR).value;
      if one.cancelled {
        assert l.(coll := l.coll + one.collLot, debt := l.debt + one.lot) == l;
      } else {
        QueueRest(s, queue, remaining, price, hintNICR);
        FirstSparesRest(s, queue, remaining, price, hintNICR);
        RedeemLoopKeeps(one.s, queue[1..], remaining - one.lot, price, hintNICR,
                        l.(coll := l.coll + one.collLot, debt := l.debt + one.lot));
      }
    }
  }

  // The debts of the troves in the queue, as their visits find them, above their reserves.
  function NetDebts(s: Ledger, queue: seq<nat>): (xs: seq<int>)
    requires AllGood(s, queue)
    ensures |xs| == |queue|
    ensures forall k | 0 <= k < |xs| :: xs[k] == AppliedDebt(s, s.troves[queue[k]]) - GAS_COMPENSATION
  {
    seq(|queue|, k requires 0 <= k < |queue| => AppliedDebt(s, s.troves[queue[k]]) - GAS_COMPENSATION)
  }

  // A prefix of the queue is closed, and what is burned is exactly its debt above the reserves; only the
  // next trove can be partly redeemed, and then the whole amount is used up. The redemption comes to that trove
  // exactly when something is left, and does not close it exactly when that is less than its debt.
  ghost predicate RedeemedInOrder(s: Ledger, queue: seq<nat>, remaining: nat, o: Outcome)
    requires AllGood(s, queue)
  {
    && o.closed <= |queue|
    && o.redeemed == Sum(NetDebts(s, queue[..o.closed])) + o.partial <= remaining
    && (o.partial > 0 ==> o.closed < |queue| && o.redeemed == remaining && !o.cancelled)
    && (o.cancelled ==> o.closed < |queue| && o.partial == 0 && o.redeemed < remaining)
    && (o.partial == 0 && !o.cancelled ==> o.closed == |queue| || o.redeemed == remaining)
    && (o.partial > 0 || o.cancelled ==> remaining < Sum(NetDebts(s, queue[..o.closed + 1])))
  }

  // The closed troves are closed, everything beyond the next one is untouched, and so is every trove
  // outside the queue.
  ghost predicate OnlyThese(s: Ledger, queue: seq<nat>, o: Outcome) {
    && o.closed <= |queue| && |o.s.troves| == |s.troves| && o.s.LColl == s.LColl && o.s.LDebt == s.LDebt
    && (forall k | 0 <= k < |queue| :: queue[k] < |s.troves|)
    && (forall k | 0 <= k < o.closed :: o.s.troves[queue[k]].status == ClosedByRedemption)
    && (forall k | o.closed <= k < |queue| :: o.s.troves[queue[k]].status.Active?)
    && (forall k | o.closed < k < |queue| :: o.s.troves[queue[k]] == s.troves[queue[k]])
    && (forall j | 0 <= j < |s.troves| && j !in queue :: o.s.troves[j] == s.troves[j])
  }

  // Collateral goes at face value, each trove's share rounded down; it is drawn, set aside for the owners
  // or still in the troves. The reserves of the closed troves are burned with as much of their debt.
  ghost predicate FaceValue(s: Ledger, price: nat, o: Outcome) {
    && 0 <= o.redeemed * PRECISION - o.drawn * price <= (o.closed + 1) * price
    && (o.partial == 0 ==> o.redeemed * PRECISION - o.drawn * price <= o.closed * price)
    && SystemColl(o.s) + o.s.surplusColl == SystemColl(s) + s.surplusColl
    && SystemDebt(o.s) == SystemDebt(s) - GAS_COMPENSATION * o.closed
    && o.s.supply == s.supply - GAS_COMPENSATION * o.closed && o.s.gasPool == s.gasPool - GAS_COMPENSATION * o.closed
    && o.s.held == s.held && o.s.pool == s.pool && o.s.stranded == s.stranded && o.s.pcvSet == s.pcvSet
  }

  lemma FaceValueStep(lot: nat, collLot: nat, price: nat, redeemed: nat, drawn: nat)
    requires price > 0 && collLot == FaceColl(lot, price)
    ensures 0 <= lot * PRECISION - collLot * price < price
    ensures (collLot + drawn) * price == collLot * price + drawn * price
    ensures (lot + redeemed) * PRECISION == lot * PRECISION + redeemed * PRECISION
  {
    FloorDivision(lot * PRECISION, price);
  }

  lemma {:induction false} RedeemLoopEffect(s: Ledger, queue: seq<nat>, remaining: nat, price: nat, hintNICR: nat, l: Limbo)
    requires Books(s, l) && Queue(s, queue) && price > 0
    ensures Visitable(s, queue)
    ensures RedeemLoop(s, queue, remaining, price, hintNICR).Some? ==>
      var o := RedeemLoop(s, queue, remaining, price, hintNICR).value;
      RedeemedInOrder(s, queue, remaining, o) && OnlyThese(s, queue, o) && FaceValue(s, price, o)
    decreases |queue|
  {
    hide Books, Synced, RedeemOne, TokensMatchDebt, DebtClaimsCovered, RedeemedInOrder, OnlyThese, FaceValue, Visited;
    AllGoodInQueue(s, queue, l);
    var r := RedeemLoop(s, queue, remaining, price, hintNICR);
    if queue == [] || remaining == 0 {
      NothingRedeemed(s, queue, remaining, price);
    } else if r.Some? {
      RedeemOneKeeps(s, queue[0], remaining, price, hintNICR, l);
      RedeemOneVisits(s, queue[0], remaining, price, hintNICR, l);
      RedeemOneDecides(s, queue[0], remaining, price, hintNICR, l);
      PartialTakesAll(s, queue[0], remaining, price, hintNICR);
      var one := RedeemOne(s, queue[0], remaining, price, hintNICR).value;
      if one.cancelled {
        CancelledAtFirst(s, queue, remaining, price, one);
      } else {
        QueueRest(s, queue, remaining, price, hintNICR);
        FirstSparesRest(s, queue, remaining, price, hintNICR);
        RedeemLoopEffect(one.s, queue[1..], remaining - one.lot, price, hintNICR,
                         l.(coll := l.coll + one.collLot, debt := l.debt + one.lot));
        var o := RedeemLoop(one.s, queue[1..], remaining - one.lot, price, hintNICR).value;
        FirstThenRest(s, queue, remaining, price, one, o, r.value);
      }
    }
  }

  // A redemption comes to a trove of the queue exactly when it is for more than the debts of the troves before it.
  lemma ReachedExactly(s: Ledger, queue: seq<nat>, remaining: nat, price: nat, hintNICR: nat, k: nat, l: Limbo)
    requires Books(s, l) && Queue(s, queue) && price > 0 && k < |queue|
    ensures Visitable(s, queue)
    ensures RedeemLoop(s, queue, remaining, price, hintNICR).Some? ==>
      (Reaches(RedeemLoop(s, queue, remaining, price, hintNICR).value, k) <==> Sum(NetDebts(s, queue[..k])) < remaining)
  {
    hide Books, RedeemLoop, OnlyThese, FaceValue, Sum, Queue;
    AllGoodInQueue(s, queue, l);
    RedeemLoopEffect(s, queue, remaining, price, hintNICR, l);
    if RedeemLoop(s, queue, remaining, price, hintNICR).Some? {
      var o := RedeemLoop(s, queue, remaining, price, hintNICR).value;
      NetDebtsRise(s, queue, k, o.closed, l);
      NetDebtsRise(s, queue, o.closed, k, l);
      if o.closed < |queue| {
        NetDebtsRise(s, queue, o.closed + 1, k, l);
      }
      assert queue[..|queue|] == queue;
    }
  }

  // The trove at position k was visited: closed, redeemed in part, or the visit was cancelled.
  predicate Reaches(o: Outcome, k: nat) {
    k < o.closed || (k == o.closed && (o.partial > 0 || o.cancelled))
  }

  lemma {:induction false} NetDebtsRise(s: Ledger, queue: seq<nat>, k: nat, n: nat, l: Limbo)
    requires Books(s, l) && Queue(s, queue) && AllGood(s, queue) && k <= |queue| && n <= |queue|
    ensures k < n ==> Sum(NetDebts(s, queue[..k])) < Sum(NetDebts(s, queue[..n]))
    ensures k == n ==> Sum(NetDebts(s, queue[..k])) == Sum(NetDebts(s, queue[..n]))
    decreases n
  {
    hide Books, GoodTrove, AppliedDebt;
    if k < n {
      NetDebtsRise(s, queue, k, n - 1, l);
      var xs := NetDebts(s, queue[..n]);
      assert xs[..n - 1] == NetDebts(s, queue[..n - 1]);
      NetDebtPositive(s, queue, n - 1);
    }
  }

  lemma NetDebtPositive(s: Ledger, queue: seq<nat>, k: nat)
    requires Queue(s, queue) && AllGood(s, queue) && k < |queue|
    ensures AppliedDebt(s, s.troves[queue[k]]) - GAS_COMPENSATION >= MIN_NET_DEBT
  {
    hide PendingDebt;
  }

  lemma AllGoodInQueue(s: Ledger, queue: seq<nat>, l: Limbo)
    requires Books(s, l) && Queue(s, queue)
    ensures Visitable(s, queue)
  {
  }

  lemma NothingRedeemed(s: Ledger, queue: seq<nat>, remaining: nat, price: nat)
    requires Queue(s, queue) && AllGood(s, queue) && (queue == [] || remaining == 0)
    ensures
      var o := Outcome(s, 0, 0, 0, 0, false);
      RedeemedInOrder(s, queue, remaining, o) && OnlyThese(s, queue, o) && FaceValue(s, price, o)
  {
    assert NetDebts(s, queue[..0]) == [];
  }

  lemma CancelledAtFirst(s: Ledger, queue: seq<nat>, remaining: nat, price: nat, one: Single)
    requires Queue(s, queue) && AllGood(s, queue) && queue != [] && |s.surplus| == |s.troves|
    requires Visited(s, queue[0], one) && one.cancelled
    requires 0 < remaining < AppliedDebt(s, s.troves[queue[0]]) - GAS_COMPENSATION
    ensures
      var o := Outcome(one.s, 0, 0, 0, 0, true);
      RedeemedInOrder(s, queue, remaining, o) && OnlyThese(s, queue, o) && FaceValue(s, price, o)
  {
    hide GoodTrove, EntireColl, EntireDebt, AppliedDebt;
    assert NetDebts(s, queue[..0]) == [];
    FirstDebt(s, queue);
  }

  lemma FirstDebt(s: Ledger, queue: seq<nat>)
    requires AllGood(s, queue) && queue != []
    ensures queue[0] < |s.troves| && GoodTrove(s, s.troves[queue[0]])
    ensures Sum(NetDebts(s, queue[..1])) == AppliedDebt(s, s.troves[queue[0]]) - GAS_COMPENSATION
  {
    hide GoodTrove, AppliedDebt;
    var xs := NetDebts(s, queue[..1]);
    assert xs[..0] == [];
    assert Sum(xs) == Sum(xs[..0]) + xs[0];
  }

  // Putting the first trove and the rest of the sequence together.
  lemma FirstThenRest(s: Ledger, queue: seq<nat>, remaining: nat, price: nat, one: Single, rest: Outcome, o: Outcome)
    requires Queue(s, queue) && AllGood(s, queue) && queue != [] && |s.surplus| == |s.troves| && price > 0
    requires Visited(s, queue[0], one) && !one.cancelled && one.collLot == FaceColl(one.lot, price)
    requires one.lot <= remaining && (!one.closed ==> one.lot == remaining) && remaining > 0
    requires !one.closed ==> remaining < AppliedDebt(s, s.troves[queue[0]]) - GAS_COMPENSATION
    requires AllGood(one.s, queue[1..]) && RedeemedInOrder(one.s, queue[1..], remaining - one.lot, rest)
    requires OnlyThese(one.s, queue[1..], rest) && FaceValue(one.s, price, rest)
    requires !one.closed ==> rest == Outcome(one.s, 0, 0, 0, 0, false)
    requires o == Outcome(rest.s, one.lot + rest.redeemed, one.collLot + rest.drawn,
                          if one.closed then 1 + rest.closed else rest.closed,
                          if one.closed then rest.partial else one.lot, rest.cancelled)
    ensures RedeemedInOrder(s, queue, remaining, o) && OnlyThese(s, queue, o) && FaceValue(s, price, o)
  {
    hide RedeemedInOrder, OnlyThese, FaceValue, Visited, GoodTrove, Queue, FaceColl;
    OrderOfRest(s, queue, remaining, one, rest, o);
    OthersOfRest(s, queue, one, rest, o);
    FirstOfQueue(s, queue);
    FaceValueOfRest(s, queue[0], price, one, rest, o);
  }

  lemma FirstOfQueue(s: Ledger, queue: seq<nat>)
    requires AllGood(s, queue) && queue != []
    ensures queue[0] < |s.troves| && GoodTrove(s, s.troves[queue[0]])
  {
    hide GoodTrove;
  }

  lemma FaceValueOfRest(s: Ledger, i: nat, price: nat, one: Single, rest: Outcome, o: Outcome)
    requires i < |s.troves| && GoodTrove(s, s.troves[i]) && |s.surplus| == |s.troves| && price > 0
    requires Visited(s, i, one) && one.collLot == FaceColl(one.lot, price) && FaceValue(one.s, price, rest)
    requires !one.closed ==> rest == Outcome(one.s, 0, 0, 0, 0, false)
    requires o == Outcome(rest.s, one.lot + rest.redeemed, one.collLot + rest.drawn,
                          if one.closed then 1 + rest.closed else rest.closed,
                          if one.closed then rest.partial else one.lot, rest.cancelled)
    requires one.lot == 0 ==> one.closed || one.collLot == 0
    ensures FaceValue(s, price, o)
  {
    hide GoodTrove, EntireColl, EntireDebt, FaceColl;
    FaceValueStep(one.lot, one.collLot, price, rest.redeemed, rest.drawn);
    OneMore(rest.closed, price);
  }

  lemma OneMore(n: nat, price: nat)
    ensures (1 + n + 1) * price == price + (n + 1) * price
    ensures (1 + n) * price == price + n * price
  {
  }

  lemma OrderOfRest(s: Ledger, queue: seq<nat>, remaining: nat, one: Single, rest: Outcome, o: Outcome)
    requires Queue(s, queue) && AllGood(s, queue) && queue != [] && |s.surplus| == |s.troves|
    requires Visited(s, queue[0], one)
    requires one.lot <= remaining && (!one.closed ==> one.lot == remaining) && remaining > 0
    requires !one.closed ==> remaining < AppliedDebt(s, s.troves[queue[0]]) - GAS_COMPENSATION
    requires AllGood(one.s, queue[1..]) && RedeemedInOrder(one.s, queue[1..], remaining - one.lot, rest)
    requires !one.closed ==> rest == Outcome(one.s, 0, 0, 0, 0, false)
    requires o.redeemed == one.lot + rest.redeemed && o.cancelled == rest.cancelled
    requires o.closed == (if one.closed then 1 + rest.closed else rest.closed)
    requires o.partial == if one.closed then rest.partial else one.lot
    ensures RedeemedInOrder(s, queue, remaining, o)
  {
    hide Sum, GoodTrove, PendingDebt;
    if one.closed {
      DebtsOfRest(s, queue, one, rest.closed);
      if rest.closed < |queue[1..]| {
        DebtsOfRest(s, queue, one, rest.closed + 1);
      }
    } else {
      assert NetDebts(s, queue[..0]) == [] == NetDebts(one.s, queue[1..][..0]);
      FirstDebt(s, queue);
    }
  }

  lemma DebtsOfRest(s: Ledger, queue: seq<nat>, one: Single, n: nat)
    requires Queue(s, queue) && AllGood(s, queue) && queue != [] && |s.surplus| == |s.troves| && n < |queue|
    requires Visited(s, queue[0], one) && one.closed && AllGood(one.s, queue[1..])
    ensures AllGood(s, queue[..n + 1]) && AllGood(one.s, queue[1..][..n])
    ensures Sum(NetDebts(s, queue[..n + 1])) == one.lot + Sum(NetDebts(one.s, queue[1..][..n]))
  {
    hide Sum, GoodTrove, PendingDebt;
    SameDebts(s, queue, one, n);
    var ys := NetDebts(one.s, queue[1..][..n]);
    assert NetDebts(s, queue[..n + 1]) == [one.lot] + ys;
    SumCons(one.lot, ys);
  }

  lemma SameDebts(s: Ledger, queue: seq<nat>, one: Single, n: nat)
    requires Queue(s, queue) && AllGood(s, queue) && queue != [] && |s.surplus| == |s.troves| && n < |queue|
    requires Visited(s, queue[0], one) && AllGood(one.s, queue[1..])
    ensures forall k | 0 <= k < n ::
              AppliedDebt(one.s, one.s.troves[queue[1..][k]]) == AppliedDebt(s, s.troves[queue[k + 1]])
              && EntireDebt(one.s, one.s.troves[queue[1..][k]]) == EntireDebt(s, s.troves[queue[k + 1]])
  {
  }

  lemma OthersOfRest(s: Ledger, queue: seq<nat>, one: Single, rest: Outcome, o: Outcome)
    requires Queue(s, queue) && AllGood(s, queue) && queue != [] && |s.surplus| == |s.troves|
    requires Visited(s, queue[0], one) && OnlyThese(one.s, queue[1..], rest)
    requires !one.closed ==> rest == Outcome(one.s, 0, 0, 0, 0, false)
    requires o.s == rest.s && o.closed == if one.closed then 1 + rest.closed else rest.closed
    ensures OnlyThese(s, queue, o)
  {
    hide GoodTrove, EntireColl, EntireDebt;
    assert forall k | 1 <= k < |queue| :: queue[k] == queue[1..][k - 1];
    assert queue[0] !in queue[1..];
  }

  // ---- Cancelled partial redemptions ----

  // When a visit closes the trove, when it redeems in part, and when the hint makes it stop.
  lemma RedeemOneDecides(s: Ledger, i: nat, max: nat, price: nat, hintNICR: nat, l: Limbo)
    requires Books(s, l) && i < |s.troves| && s.troves[i].status.Active? && price > 0
    ensures GoodTrove(s, s.troves[i]) && |s.surplus| == |s.troves|
    ensures RedeemOne(s, i, max, price, hintNICR).Some? ==>
      var t := s.troves[i];
      var r := RedeemOne(s, i, max, price, hintNICR).value;
      && (r.closed <==> max >= AppliedDebt(s, t) - GAS_COMPENSATION)
      && (!r.closed ==>
            && FaceColl(max, price) <= EntireColl(s, t)
            && (r.cancelled <==>
                || ComputeNominalCR(EntireColl(s, t) - FaceColl(max, price), AppliedDebt(s, t) - max) != hintNICR
                || AppliedDebt(s, t) - max < GAS_COMPENSATION + MIN_NET_DEBT))
  {
    hide ApplyPending, SetTrove, CloseRedeemed, DebtClaimsCovered, Synced, TokensMatchDebt, FaceColl;
    hide PendingColl, PendingDebt, ComputeNominalCR, Books, GoodTrove;
    GoodOf(s, l, i);
    ApplyPendingKeeps(s, i, l);
  }

  // ---- The outcome, read off the state before ----

  // How many troves from the front of the queue the amount pays off.
  function FullVisits(s: Ledger, queue: seq<nat>, amount: nat): (n: nat)
    requires AllGood(s, queue)
    ensures n <= |queue|
    decreases |queue|
  {
    if queue == [] || amount == 0 || AppliedDebt(s, s.troves[queue[0]]) - GAS_COMPENSATION > amount then 0
    else
      assert forall k | 0 <= k < |queue[1..]| :: queue[1..][k] == queue[k + 1];
      1 + FullVisits(s, queue[1..], amount - (AppliedDebt(s, s.troves[queue[0]]) - GAS_COMPENSATION))
  }

  // What is left of the amount after them, for a part of the next trove.
  function AfterFullVisits(s: Ledger, queue: seq<nat>, amount: nat): int
    requires AllGood(s, queue)
  {
    amount - Sum(NetDebts(s, queue[..FullVisits(s, queue, amount)]))
  }

  // The trove can give that part: its collateral covers it, the hint is right, and enough debt remains.
  predicate TakesPart(s: Ledger, t: Trove, lot: nat, price: nat, hintNICR: nat)
    requires GoodTrove(s, t) && price > 0
  {
    && FaceColl(lot, price) <= EntireColl(s, t) && AppliedDebt(s, t) - lot >= GAS_COMPENSATION + MIN_NET_DEBT
    && ComputeNominalCR(EntireColl(s, t) - FaceColl(lot, price), AppliedDebt(s, t) - lot) == hintNICR
  }

  // Whether anything is left for a trove after those paid off.
  predicate ComesToPart(s: Ledger, queue: seq<nat>, amount: nat)
    requires AllGood(s, queue)
  {
    FullVisits(s, queue, amount) < |queue| && AfterFullVisits(s, queue, amount) > 0
  }

  // The debts in the queue decide what a redemption that goes through does: how many troves it closes, and what it takes of
  // the next one, if anything is left and the hint is right.
  lemma OutcomeByDebts(s: Ledger, queue: seq<nat>, amount: nat, price: nat, hintNICR: nat, l: Limbo)
    requires Books(s, l) && Queue(s, queue) && price > 0
    ensures Visitable(s, queue)
    ensures RedeemLoop(s, queue, amount, price, hintNICR).Some? ==>
      var o := RedeemLoop(s, queue, amount, price, hintNICR).value;
      var n, left := FullVisits(s, queue, amount), AfterFullVisits(s, queue, amount);
      && o.closed == n && left >= 0
      && (!ComesToPart(s, queue, amount) ==> o.partial == 0 && !o.cancelled)
      && (ComesToPart(s, queue, amount) ==>
            var taken := TakesPart(s, s.troves[queue[n]], left, price, hintNICR);
            o.partial == (if taken then left else 0) && o.cancelled == !taken)
  {
    hide Books, RedeemLoop, OnlyThese, FaceValue, Sum, Queue, GoodTrove, FullVisits;
    AllGoodInQueue(s, queue, l);
    if RedeemLoop(s, queue, amount, price, hintNICR).Some? {
      RedeemLoopEffect(s, queue, amount, price, hintNICR, l);
      ClosedByDebts(s, queue, amount, price, hintNICR, l);
      PartByHint(s, queue, amount, price, hintNICR, l);
    }
  }

  lemma {:induction false} ClosedByDebts(s: Ledger, queue: seq<nat>, amount: nat, price: nat, hintNICR: nat, l: Limbo)
    requires Books(s, l) && Queue(s, queue) && price > 0 && Visitable(s, queue)
    ensures RedeemLoop(s, queue, amount, price, hintNICR).Some? ==>
              RedeemLoop(s, queue, amount, price, hintNICR).value.closed == FullVisits(s, queue, amount)
    decreases |queue|
  {
    hide Books, RedeemOne, Visited, GoodTrove, AppliedDebt, Queue;
    if queue != [] && amount > 0 && RedeemLoop(s, queue, amount, price, hintNICR).Some? {
      QueueFirst(s, queue);
      RedeemOneKeeps(s, queue[0], amount, price, hintNICR, l);
      RedeemOneVisits(s, queue[0], amount, price, hintNICR, l);
      RedeemOneDecides(s, queue[0], amount, price, hintNICR, l);
      var one := RedeemOne(s, queue[0], amount, price, hintNICR).value;
      if one.closed {
        ClosedLot(s, queue[0], one);
        QueueRest(s, queue, amount, price, hintNICR);
        FirstSparesRest(s, queue, amount, price, hintNICR);
        ClosedByDebts(one.s, queue[1..], amount - one.lot, price, hintNICR,
                      l.(coll := l.coll + one.collLot, debt := l.debt + one.lot));
        FullVisitsUnchanged(s, queue, one, amount - one.lot);
      } else if !one.cancelled {
        PartialTakesAll(s, queue[0], amount, price, hintNICR);
        assert one.lot == amount;
      }
    }
  }

  lemma FullVisitsUnchanged(s: Ledger, queue: seq<nat>, one: Single, left: nat)
    requires Queue(s, queue) && AllGood(s, queue) && queue != [] && |s.surplus| == |s.troves|
    requires Visited(s, queue[0], one) && AllGood(one.s, queue[1..])
    ensures AllGood(s, queue[1..])
    ensures FullVisits(one.s, queue[1..], left) == FullVisits(s, queue[1..], left)
  {
    hide FullVisits, GoodTrove, EntireColl, EntireDebt, AppliedDebt;
    assert forall k | 0 <= k < |queue[1..]| :: queue[1..][k] == queue[k + 1];
    FullVisitsSame(s, one.s, queue[1..], left);
  }

  lemma {:induction false} FullVisitsSame(s: Ledger, q: Ledger, queue: seq<nat>, amount: nat)
    requires AllGood(s, queue) && AllGood(q, queue) && q.LColl == s.LColl && q.LDebt == s.LDebt
    requires forall k | 0 <= k < |queue| :: q.troves[queue[k]] == s.troves[queue[k]]
    ensures FullVisits(q, queue, amount) == FullVisits(s, queue, amount)
    decreases |queue|
  {
    hide GoodTrove;
    if queue != [] && amount > 0 && AppliedDebt(s, s.troves[queue[0]]) - GAS_COMPENSATION <= amount {
      assert forall k | 0 <= k < |queue[1..]| :: queue[1..][k] == queue[k + 1];
      FullVisitsSame(s, q, queue[1..], amount - (AppliedDebt(s, s.troves[queue[0]]) - GAS_COMPENSATION));
    }
  }

  // The visit after the closed troves is cancelled exactly when the trove cannot give what is left.
  lemma {:induction false} PartByHint(s: Ledger, queue: seq<nat>, amount: nat, price: nat, hintNICR: nat, l: Limbo)
    requires Books(s, l) && Queue(s, queue) && price > 0 && Visitable(s, queue)
    ensures RedeemLoop(s, queue, amount, price, hintNICR).Some? ==>
      var o := RedeemLoop(s, queue, amount, price, hintNICR).value;
      && (o.partial > 0 ==> o.closed < |queue| && TakesPart(s, s.troves[queue[o.closed]], o.partial, price, hintNICR))
      && (o.cancelled ==> o.closed < |queue| && o.redeemed <= amount
                          && !TakesPart(s, s.troves[queue[o.closed]], amount - o.redeemed, price, hintNICR))
    decreases |queue|
  {
    hide Books, RedeemOne, Visited, GoodTrove, AppliedDebt, EntireColl, ComputeNominalCR, FaceColl, Queue;
    if queue != [] && amount > 0 && RedeemLoop(s, queue, amount, price, hintNICR).Some? {
      QueueFirst(s, queue);
      RedeemOneKeeps(s, queue[0], amount, price, hintNICR, l);
      RedeemOneVisits(s, queue[0], amount, price, hintNICR, l);
      RedeemOneDecides(s, queue[0], amount, price, hintNICR, l);
      PartialTakesAll(s, queue[0], amount, price, hintNICR);
      var one := RedeemOne(s, queue[0], amount, price, hintNICR).value;
      if one.closed {
        QueueRest(s, queue, amount, price, hintNICR);
        FirstSparesRest(s, queue, amount, price, hintNICR);
        PartByHint(one.s, queue[1..], amount - one.lot, price, hintNICR,
                   l.(coll := l.coll + one.collLot, debt := l.debt + one.lot));
        SameParts(s, queue, one, price, hintNICR);
      }
    }
  }

  lemma SameParts(s: Ledger, queue: seq<nat>, one: Single, price: nat, hintNICR: nat)
    requires Queue(s, queue) && AllGood(s, queue) && queue != [] && |s.surplus| == |s.troves| && price > 0
    requires Visited(s, queue[0], one) && AllGood(one.s, queue[1..])
    ensures forall k: nat, lot: nat | k < |queue[1..]| ::
              TakesPart(one.s, one.s.troves[queue[1..][k]], lot, price, hintNICR)
              <==> TakesPart(s, s.troves[queue[k + 1]], lot, price, hintNICR)
  {
    hide ComputeNominalCR, FaceColl;
    SameDebts(s, queue, one, |queue| - 1);
  }

  // A mismatch with the hinted NICR stops the sequence with all earlier steps intact: the outcome is that of
  // the shorter queue, with the rewards of the trove it stopped at applied.
  lemma {:induction false} CancelKeepsEarlierSteps(s: Ledger, queue: seq<nat>, remaining: nat, price: nat, hintNICR: nat, l: Limbo)
    requires Books(s, l) && Queue(s, queue) && price > 0
    ensures Visitable(s, queue)
    ensures
      var loop := RedeemLoop(s, queue, remaining, price, hintNICR);
      loop.Some? && loop.value.cancelled ==>
      var o := loop.value;
      && o.closed < |queue| && Visitable(s, queue[..o.closed])
      && var short := RedeemLoop(s, queue[..o.closed], remaining, price, hintNICR);
      && short.Some? && !short.value.cancelled
      && short.value == Outcome(short.value.s, o.redeemed, o.drawn, o.closed, 0, false)
      && queue[o.closed] < |short.value.s.troves|
      && GoodTrove(short.value.s, short.value.s.troves[queue[o.closed]])
      && ApplyPending(short.value.s, queue[o.closed]) == Some(o.s)
    decreases |queue|
  {
    hide Books, Synced, RedeemOne, Visited, TokensMatchDebt, DebtClaimsCovered, GoodTrove, ApplyPending;
    hide RedeemedInOrder, OnlyThese, FaceValue;
    AllGoodInQueue(s, queue, l);
    var loop := RedeemLoop(s, queue, remaining, price, hintNICR);
    if loop.None? || !loop.value.cancelled { return; }
    RedeemLoopEffect(s, queue, remaining, price, hintNICR, l);
    RedeemOneKeeps(s, queue[0], remaining, price, hintNICR, l);
    RedeemOneVisits(s, queue[0], remaining, price, hintNICR, l);
    ClosedWithin(s, queue, remaining, price, hintNICR, l);
    var o := RedeemLoop(s, queue, remaining, price, hintNICR).value;
    var one := RedeemOne(s, queue[0], remaining, price, hintNICR).value;
    if one.cancelled {
      assert queue[..0] == [];
      CancelledIsApplied(s, queue[0], remaining, price, hintNICR);
    } else {
      QueueRest(s, queue, remaining, price, hintNICR);
      FirstSparesRest(s, queue, remaining, price, hintNICR);
      var l1 := l.(coll := l.coll + one.collLot, debt := l.debt + one.lot);
      if one.closed {
        CancelKeepsEarlierSteps(one.s, queue[1..], remaining - one.lot, price, hintNICR, l1);
        assert queue[..o.closed][1..] == queue[1..][..o.closed - 1];
        assert queue[1..][o.closed - 1] == queue[o.closed];
      }
    }
  }

  lemma ClosedWithin(s: Ledger, queue: seq<nat>, remaining: nat, price: nat, hintNICR: nat, l: Limbo)
    requires Books(s, l) && Queue(s, queue) && price > 0 && Visitable(s, queue)
    requires RedeemLoop(s, queue, remaining, price, hintNICR).Some?
    requires RedeemLoop(s, queue, remaining, price, hintNICR).value.cancelled
    ensures RedeemLoop(s, queue, remaining, price, hintNICR).value.closed < |queue|
    ensures RedeemLoop(s, queue, remaining, price, hintNICR).value.partial == 0
    ensures Visitable(s, queue[..RedeemLoop(s, queue, remaining, price, hintNICR).value.closed])
  {
    hide RedeemLoop, Books, Synced;
    RedeemLoopEffect(s, queue, remaining, price, hintNICR, l);
  }

  lemma CancelledIsApplied(s: Ledger, i: nat, max: nat, price: nat, hintNICR: nat)
    requires i < |s.troves| && GoodTrove(s, s.troves[i]) && |s.surplus| == |s.troves| && price > 0
    requires RedeemOne(s, i, max, price, hintNICR).Some? && RedeemOne(s, i, max, price, hintNICR).value.cancelled
    ensures ApplyPending(s, i) == Some(RedeemOne(s, i, max, price, hintNICR).value.s)
  {
    hide ApplyPending, SetTrove, CloseRedeemed, ComputeNominalCR;
  }

  // ---- The off-chain hints ----

  // HintHelpers.getRedemptionHints on the same queue: the hinted NICR and the part of the amount that cannot
  // be redeemed. None is an underflow, which the iteration count runs into where it is used up before queue and amount.
  function HintLoop(s: Ledger, queue: seq<nat>, remaining: nat, price: nat, iterations: nat): (r: Option<(nat, nat)>)
    requires AllGood(s, queue) && price > 0
    ensures r.Some? ==> r.value.1 <= remaining
    decreases |queue|
  {
    if queue == [] || remaining == 0 then Some((0, remaining))
    else if iterations == 0 || s.troves[queue[0]].debt < GAS_COMPENSATION then None
    else
      var t := s.troves[queue[0]];
      var net, coll := EntireDebt(s, t) - GAS_COMPENSATION, EntireColl(s, t);
      if net <= remaining then
        assert forall k | 0 <= k < |queue[1..]| :: queue[1..][k] == queue[k + 1];
        HintLoop(s, queue[1..], remaining - net, price, iterations - 1)
      else if net > MIN_NET_DEBT then
        var redeemable := Min(remaining, net - MIN_NET_DEBT);
        if coll < FaceColl(redeemable, price) then None
        else
          Some((ComputeNominalCR(coll - FaceColl(redeemable, price), net - redeemable + GAS_COMPENSATION),
                remaining - redeemable))
      else Some((0, remaining))
  }

  lemma {:induction false} HintLoopSame(s: Ledger, q: Ledger, queue: seq<nat>, remaining: nat, price: nat, iterations: nat)
    requires AllGood(s, queue) && AllGood(q, queue) && price > 0 && q.LColl == s.LColl && q.LDebt == s.LDebt
    requires forall k | 0 <= k < |queue| :: q.troves[queue[k]] == s.troves[queue[k]]
    ensures HintLoop(q, queue, remaining, price, iterations) == HintLoop(s, queue, remaining, price, iterations)
    decreases |queue|
  {
    hide ComputeNominalCR;
    if queue != [] && remaining > 0 && iterations > 0 {
      var net := EntireDebt(s, s.troves[queue[0]]) - GAS_COMPENSATION;
      if 0 <= net <= remaining {
        assert forall k | 0 <= k < |queue[1..]| :: queue[1..][k] == queue[k + 1];
        HintLoopSame(s, q, queue[1..], remaining - net, price, iterations - 1);
      }
    }
  }

  // The hints count all debt pending on the troves they reach, and a visit that skips rewards does not: no trove that the
  // amount reaches has rewards that its visit skips.
  ghost predicate ReachedUnskipped(s: Ledger, queue: seq<nat>, amount: int)
    requires AllGood(s, queue)
    decreases |queue|
  {
    queue == [] || amount <= 0
    || (&& AppliedDebt(s, s.troves[queue[0]]) == EntireDebt(s, s.troves[queue[0]])
        && var net := EntireDebt(s, s.troves[queue[0]]) - GAS_COMPENSATION;
        net <= amount ==>
          assert forall k | 0 <= k < |queue[1..]| :: queue[1..][k] == queue[k + 1];
          ReachedUnskipped(s, queue[1..], amount - net))
  }

  lemma {:induction false} SyncedSkipsNone(s: Ledger, queue: seq<nat>, amount: int)
    requires AllGood(s, queue) && Synced(s)
    ensures ReachedUnskipped(s, queue, amount)
    decreases |queue|
  {
    if queue != [] && amount > 0 {
      SyncedAppliesAll(s, s.troves[queue[0]]);
      assert forall k | 0 <= k < |queue[1..]| :: queue[1..][k] == queue[k + 1];
      SyncedSkipsNone(s, queue[1..], amount - (EntireDebt(s, s.troves[queue[0]]) - GAS_COMPENSATION));
    }
  }

  lemma {:induction false} ReachedUnskippedSame(s: Ledger, q: Ledger, queue: seq<nat>, amount: int)
    requires AllGood(s, queue) && AllGood(q, queue) && q.LColl == s.LColl && q.LDebt == s.LDebt
    requires forall k | 0 <= k < |queue| :: q.troves[queue[k]] == s.troves[queue[k]]
    ensures ReachedUnskipped(q, queue, amount) == ReachedUnskipped(s, queue, amount)
    decreases |queue|
  {
    if queue != [] && amount > 0 {
      assert forall k | 0 <= k < |queue[1..]| :: queue[1..][k] == queue[k + 1];
      ReachedUnskippedSame(s, q, queue[1..], amount - (EntireDebt(s, s.troves[queue[0]]) - GAS_COMPENSATION));
    }
  }

  // A redemption of the truncated amount with the hinted NICR, on the state the hints were computed from,
  // is never cancelled and redeems the truncated amount to the last unit, where no trove it reaches has rewards to skip.
  lemma {:induction false} HintsAreHonoured(s: Ledger, queue: seq<nat>, amount: nat, price: nat, iterations: nat, l: Limbo)
    requires Books(s, l) && Queue(s, queue) && price > 0
    ensures Visitable(s, queue)
    ensures ReachedUnskipped(s, queue, amount) && HintLoop(s, queue, amount, price, iterations).Some? ==>
      var (hintNICR, left) := HintLoop(s, queue, amount, price, iterations).value;
      var r := RedeemLoop(s, queue, amount - left, price, hintNICR);
      r.Some? ==> !r.value.cancelled && r.value.redeemed == amount - left
    decreases |queue|
  {
    hide Books, Synced, RedeemOne, TokensMatchDebt, DebtClaimsCovered, Visited, ComputeNominalCR, PendingColl, PendingDebt;
    AllGoodInQueue(s, queue, l);
    if ReachedUnskipped(s, queue, amount) && queue != [] && amount > 0 && HintLoop(s, queue, amount, price, iterations).Some? {
      var (hintNICR, left) := HintLoop(s, queue, amount, price, iterations).value;
      var truncated := amount - left;
      if truncated > 0 && RedeemLoop(s, queue, truncated, price, hintNICR).Some? {
        RedeemOneKeeps(s, queue[0], truncated, price, hintNICR, l);
        RedeemOneDecides(s, queue[0], truncated, price, hintNICR, l);
        var one := RedeemOne(s, queue[0], truncated, price, hintNICR).value;
        var net := EntireDebt(s, s.troves[queue[0]]) - GAS_COMPENSATION;
        if net <= amount {
          HintsForRest(s, queue, amount, truncated, price, iterations, hintNICR, left, one, l);
        } else {
          assert !one.cancelled && one.lot == truncated;
        }
      }
    }
  }

  lemma ClosedLot(s: Ledger, i: nat, one: Single)
    requires i < |s.troves| && GoodTrove(s, s.troves[i]) && |s.surplus| == |s.troves| && Visited(s, i, one) && one.closed
    ensures one.lot == AppliedDebt(s, s.troves[i]) - GAS_COMPENSATION && !one.cancelled
  {
  }

  // Visiting the first trove does not change the hints for the rest, nor the rewards to skip there.
  lemma HintsUnchanged(s: Ledger, queue: seq<nat>, one: Single, left: nat, price: nat, iterations: nat)
    requires Queue(s, queue) && AllGood(s, queue) && queue != [] && |s.surplus| == |s.troves| && price > 0
    requires Visited(s, queue[0], one) && AllGood(one.s, queue[1..])
    ensures AllGood(s, queue[1..])
    ensures HintLoop(one.s, queue[1..], left, price, iterations) == HintLoop(s, queue[1..], left, price, iterations)
    ensures ReachedUnskipped(one.s, queue[1..], left) == ReachedUnskipped(s, queue[1..], left)
  {
    hide HintLoop, GoodTrove, EntireColl, EntireDebt, ReachedUnskipped;
    assert forall k | 0 <= k < |queue[1..]| :: queue[1..][k] == queue[k + 1];
    HintLoopSame(s, one.s, queue[1..], left, price, iterations);
    ReachedUnskippedSame(s, one.s, queue[1..], left);
  }

  lemma HintsForRest(s: Ledger, queue: seq<nat>, amount: nat, truncated: nat, price: nat, iterations: nat, hintNICR: nat,
                     left: nat, one: Single, l: Limbo)
    requires Books(s, l) && Queue(s, queue) && Visitable(s, queue) && queue != [] && price > 0
    requires ReachedUnskipped(s, queue, amount)
    requires 0 <= EntireDebt(s, s.troves[queue[0]]) - GAS_COMPENSATION <= amount
    requires HintLoop(s, queue, amount, price, iterations) == Some((hintNICR, left)) && truncated == amount - left > 0
    requires RedeemOne(s, queue[0], truncated, price, hintNICR) == Some(one)
    requires RedeemLoop(s, queue, truncated, price, hintNICR).Some?
    ensures
      var r := RedeemLoop(s, queue, truncated, price, hintNICR);
      !r.value.cancelled && r.value.redeemed == truncated
    decreases |queue|, 0
  {
    hide Books, RedeemOne, HintLoop, Queue, AllGood, GoodTrove, Visited, EntireDebt, ReachedUnskipped;
    HintsAfterFirst(s, queue, amount, truncated, price, iterations, hintNICR, left, one, l);
    HintsAreHonoured(one.s, queue[1..], amount - one.lot, price, iterations - 1,
                     l.(coll := l.coll + one.collLot, debt := l.debt + one.lot));
  }

  // The first trove is closed, and the hints for the rest are those of what is left to redeem.
  lemma HintsAfterFirst(s: Ledger, queue: seq<nat>, amount: nat, truncated: nat, price: nat, iterations: nat, hintNICR: nat,
                        left: nat, one: Single, l: Limbo)
    requires Books(s, l) && Queue(s, queue) && Visitable(s, queue) && queue != [] && price > 0
    requires ReachedUnskipped(s, queue, amount)
    requires 0 <= EntireDebt(s, s.troves[queue[0]]) - GAS_COMPENSATION <= amount
    requires HintLoop(s, queue, amount, price, iterations) == Some((hintNICR, left)) && truncated == amount - left > 0
    requires RedeemOne(s, queue[0], truncated, price, hintNICR) == Some(one)
    ensures one.closed && !one.cancelled && one.lot <= truncated
    ensures Books(one.s, l.(coll := l.coll + one.collLot, debt := l.debt + one.lot))
    ensures Queue(one.s, queue[1..]) && Visitable(one.s, queue[1..]) && ReachedUnskipped(one.s, queue[1..], amount - one.lot)
    ensures iterations > 0 && HintLoop(one.s, queue[1..], amount - one.lot, price, iterations - 1) == Some((hintNICR, left))
  {
    hide Books, Synced, RedeemOne, TokensMatchDebt, DebtClaimsCovered, ComputeNominalCR, PendingColl, PendingDebt, FaceColl;
    hide GoodTrove, Visited, EntireColl, RedeemLoop;
    RedeemOneKeeps(s, queue[0], truncated, price, hintNICR, l);
    RedeemOneVisits(s, queue[0], truncated, price, hintNICR, l);
    RedeemOneDecides(s, queue[0], truncated, price, hintNICR, l);
    FirstSparesRest(s, queue, truncated, price, hintNICR);
    QueueRest(s, queue, truncated, price, hintNICR);
    ClosedLot(s, queue[0], one);
    HintsUnchanged(s, queue, one, amount - one.lot, price, iterations - 1);
  }

  // Hints computed with an iteration count look at no more troves than that.
  lemma {:induction false} HintsOfPrefix(s: Ledger, queue: seq<nat>, amount: nat, price: nat, iterations: nat, n: nat)
    requires AllGood(s, queue) && price > 0 && iterations <= n <= |queue|
    requires HintLoop(s, queue, amount, price, iterations).Some? && ReachedUnskipped(s, queue, amount)
    ensures HintLoop(s, queue[..n], amount, price, iterations) == HintLoop(s, queue, amount, price, iterations)
    ensures ReachedUnskipped(s, queue[..n], amount)
    decreases |queue|
  {
    hide GoodTrove, EntireColl, ComputeNominalCR, AppliedDebt;
    if queue != [] && amount > 0 {
      var net := EntireDebt(s, s.troves[queue[0]]) - GAS_COMPENSATION;
      assert queue[..n][1..] == queue[1..][..n - 1];
      if net <= amount {
        assert forall k | 0 <= k < |queue[1..]| :: queue[1..][k] == queue[k + 1];
        HintsOfPrefix(s, queue[1..], amount - net, price, iterations - 1, n - 1);
      }
    }
  }

  // What the hints keep back: nothing but what the queue cannot take. Where the debts before it leave something for a trove,
  // that is as much as leaves the trove the least debt.
  function PartLeft(s: Ledger, queue: seq<nat>, amount: nat): int
    requires AllGood(s, queue)
  {
    var n, left := FullVisits(s, queue, amount), AfterFullVisits(s, queue, amount);
    if n == |queue| then left
    else
      var room := AppliedDebt(s, s.troves[queue[n]]) - GAS_COMPENSATION - MIN_NET_DEBT;
      if room <= 0 then left else if left <= room then 0 else left - room
  }

  lemma {:induction false} HintsKeepBack(s: Ledger, queue: seq<nat>, amount: nat, price: nat, iterations: nat)
    requires AllGood(s, queue) && price > 0 && ReachedUnskipped(s, queue, amount)
    ensures HintLoop(s, queue, amount, price, iterations).Some? ==>
              HintLoop(s, queue, amount, price, iterations).value.1 == PartLeft(s, queue, amount)
    decreases |queue|
  {
    hide GoodTrove, EntireColl, AppliedDebt, EntireDebt, ComputeNominalCR, FaceColl, Sum;
    NoDebts(s, queue);
    if queue != [] && amount > 0 && HintLoop(s, queue, amount, price, iterations).Some? {
      var net := EntireDebt(s, s.troves[queue[0]]) - GAS_COMPENSATION;
      if net <= amount {
        assert forall k | 0 <= k < |queue[1..]| :: queue[1..][k] == queue[k + 1];
        HintsKeepBack(s, queue[1..], amount - net, price, iterations - 1);
        PartOfRest(s, queue, amount);
      }
    }
  }

  lemma NoDebts(s: Ledger, queue: seq<nat>)
    requires AllGood(s, queue)
    ensures Sum(NetDebts(s, queue[..0])) == 0
  {
    hide GoodTrove, AppliedDebt;
  }

  lemma PartOfRest(s: Ledger, queue: seq<nat>, amount: nat)
    requires AllGood(s, queue) && queue != [] && amount > 0
    requires AppliedDebt(s, s.troves[queue[0]]) - GAS_COMPENSATION <= amount
    ensures AllGood(s, queue[1..])
    ensures
      var net := AppliedDebt(s, s.troves[queue[0]]) - GAS_COMPENSATION;
      && FullVisits(s, queue, amount) == 1 + FullVisits(s, queue[1..], amount - net)
      && AfterFullVisits(s, queue, amount) == AfterFullVisits(s, queue[1..], amount - net)
      && PartLeft(s, queue, amount) == PartLeft(s, queue[1..], amount - net)
  {
    hide GoodTrove, AppliedDebt, Sum;
    assert forall k | 0 <= k < |queue[1..]| :: queue[1..][k] == queue[k + 1];
    var net := AppliedDebt(s, s.troves[queue[0]]) - GAS_COMPENSATION;
    var n := FullVisits(s, queue[1..], amount - net);
    var ys := NetDebts(s, queue[1..][..n]);
    assert NetDebts(s, queue[..n + 1]) == [net] + ys;
    SumCons(net, ys);
  }

  // The truncated amount is the most that can be redeemed: no amount above it, up to the one asked for, is redeemed in full
  // on the same queue, whatever its hint.
  lemma HintsTakeAll(s: Ledger, queue: seq<nat>, amount: nat, price: nat, iterations: nat, more: nat, hintNICR: nat, l: Limbo)
    requires Books(s, l) && Queue(s, queue) && price > 0 && more <= amount
    ensures Visitable(s, queue)
    ensures ReachedUnskipped(s, queue, amount) && HintLoop(s, queue, amount, price, iterations).Some?
            && more > amount - HintLoop(s, queue, amount, price, iterations).value.1 ==>
      RedeemLoop(s, queue, more, price, hintNICR).Some? ==> RedeemLoop(s, queue, more, price, hintNICR).value.redeemed < more
  {
    hide Books, RedeemLoop, OnlyThese, FaceValue, Sum, GoodTrove, FullVisits, HintLoop, ReachedUnskipped, Queue, EntireColl;
    hide AppliedDebt, ComputeNominalCR, FaceColl;
    AllGoodInQueue(s, queue, l);
    if ReachedUnskipped(s, queue, amount) && HintLoop(s, queue, amount, price, iterations).Some?
       && more > amount - HintLoop(s, queue, amount, price, iterations).value.1
       && RedeemLoop(s, queue, more, price, hintNICR).Some? {
      HintsKeepBack(s, queue, amount, price, iterations);
      SameVisits(s, queue, amount, more);
      OutcomeByDebts(s, queue, more, price, hintNICR, l);
      RedeemLoopEffect(s, queue, more, price, hintNICR, l);
    }
  }

  // Between what the debts paid off come to and the whole amount, the same troves are paid off.
  lemma {:induction false} SameVisits(s: Ledger, queue: seq<nat>, amount: nat, more: nat)
    requires Queue(s, queue) && AllGood(s, queue) && amount - AfterFullVisits(s, queue, amount) <= more <= amount
    ensures FullVisits(s, queue, more) == FullVisits(s, queue, amount)
    decreases |queue|
  {
    hide GoodTrove, AppliedDebt, AfterFullVisits;
    if queue != [] && amount > 0 {
      var net := AppliedDebt(s, s.troves[queue[0]]) - GAS_COMPENSATION;
      NetDebtPositive(s, queue, 0);
      if net <= amount {
        assert forall k | 0 <= k < |queue[1..]| :: queue[1..][k] == queue[k + 1];
        PartOfRest(s, queue, amount);
        AfterWithin(s, queue[1..], amount - net);
        SameVisits(s, queue[1..], amount - net, more - net);
      }
    }
  }

  lemma AfterWithin(s: Ledger, queue: seq<nat>, amount: nat)
    requires Queue(s, queue) && AllGood(s, queue)
    ensures AfterFullVisits(s, queue, amount) <= amount
  {
    hide GoodTrove, AppliedDebt, FullVisits, Sum;
    var xs := NetDebts(s, queue[..FullVisits(s, queue, amount)]);
    forall k | 0 <= k < |xs| ensures xs[k] >= 0 {
      NetDebtPositive(s, queue, k);
    }
    SumNonNegative(xs);
  }

  // ---- redeemCollateral ----

  // The troves a redemption visits at most; 0 iterations stand for no limit.
  function Visits(queue: seq<nat>, maxIterations: nat): (visited: seq<nat>)
    ensures |visited| <= |queue| && visited == queue[..|visited|] && (maxIterations > 0 ==> |visited| <= maxIterations)
    ensures |visited| < |queue| ==> |visited| == maxIterations > 0
  {
    if maxIterations == 0 || maxIterations > |queue| then queue else queue[..maxIterations]
  }

  // The fee on the drawn collateral goes to the PCV; with no PCV it stays in the active pool.
  function Redeem(s: Ledger, queue: seq<nat>, amount: nat, price: nat, hintNICR: nat, maxIterations: nat, fee: nat,
                  feedInactive: bool): Option<Ledger>
    requires Visitable(s, queue) && price > 0
  {
    var visited := Visits(queue, maxIterations);
    if !feedInactive || TCR(s, price) < MCR || amount == 0 || s.held < amount then None
    else
      match RedeemLoop(s, visited, amount, price, hintNICR)
      case None => None
      case Some(o) =>
        if o.drawn == 0 || fee >= o.drawn then None
        else if o.s.held < o.redeemed || o.s.supply < o.redeemed || o.s.activeDebt < o.redeemed || o.s.activeColl < o.drawn
        then None
        else
          Some(o.s.(held := o.s.held - o.redeemed, supply := o.s.supply - o.redeemed, activeDebt := o.s.activeDebt - o.redeemed,
                    activeColl := o.s.activeColl - (if s.pcvSet then o.drawn else o.drawn - fee),
                    stranded := o.s.stranded + if s.pcvSet then 0 else fee))
  }

  lemma RedeemKeeps(s: Ledger, queue: seq<nat>, amount: nat, price: nat, hintNICR: nat, maxIterations: nat, fee: nat,
                    feedInactive: bool)
    requires Inv(s) && Queue(s, queue) && Visitable(s, queue) && price > 0
    ensures Redeem(s, queue, amount, price, hintNICR, maxIterations, fee, feedInactive).Some? ==>
      var r := Redeem(s, queue, amount, price, hintNICR, maxIterations, fee, feedInactive).value;
      && Inv(r) && r.pcvSet == s.pcvSet && (Synced(s) ==> Synced(r) && (DebtClaimsCovered(s) ==> DebtClaimsCovered(r)))
  {
    hide RedeemLoop, Queue, Visitable, TCR, Synced, DebtClaimsCovered, Books;
    var visited := Visits(queue, maxIterations);
    PrefixQueue(s, queue, |visited|);
    assert visited == queue[..|visited|];
    RedeemLoopKeeps(s, visited, amount, price, hintNICR, NOTHING);
    if Redeem(s, queue, amount, price, hintNICR, maxIterations, fee, feedInactive).Some? {
      var o := RedeemLoop(s, visited, amount, price, hintNICR).value;
      PayRedeemer(o.s, o.drawn, o.redeemed, if s.pcvSet then 0 else fee);
    }
  }

  // Burn the redeemed thUSD against the active debt, send the drawn collateral out but for what is stranded.
  lemma PayRedeemer(s: Ledger, drawn: nat, redeemed: nat, strand: nat)
    requires Books(s, NOTHING.(coll := drawn, debt := redeemed)) && TokensMatchDebt(s)
    requires strand <= drawn <= s.activeColl && redeemed <= s.held && redeemed <= s.supply && redeemed <= s.activeDebt
    requires s.pcvSet ==> strand == 0
    ensures
      var r := s.(held := s.held - redeemed, supply := s.supply - redeemed, activeDebt := s.activeDebt - redeemed,
                  activeColl := s.activeColl - (drawn - strand), stranded := s.stranded + strand);
      Inv(r) && (DebtClaimsCovered(s) ==> DebtClaimsCovered(r)) && (Synced(s) ==> Synced(r))
  {
    hide Sum, SP.Valid, GoodTrove;
    var r := s.(held := s.held - redeemed, supply := s.supply - redeemed, activeDebt := s.activeDebt - redeemed,
                activeColl := s.activeColl - (drawn - strand), stranded := s.stranded + strand);
    SameBooks(s, r);
  }

  lemma PrefixQueue(s: Ledger, queue: seq<nat>, n: nat)
    requires Queue(s, queue) && n <= |queue|
    ensures Queue(s, queue[..n])
  {
  }
}
