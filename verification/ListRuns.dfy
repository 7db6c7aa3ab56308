/** The sorted list over whole runs: how every operation moves ids in the list, what has to hold before it for the list to be
    in order after it, and when the list is in order all along. */
module ListRuns {
  import opened Common
  import opened TroveLedger
  import opened Liquidation
  import opened Borrowing
  import opened Redemption
  import opened SystemRuns
  import opened SortedTroves
  import opened SortedLedger
  import opened RunSteps
  import SP = StabilityPool

  // An operation with what the list is given: the trove a redemption is to start at, and the place where the search from the
  // caller's hints ends.
  datatype Call = Call(op: Op, firstHint: nat, place: nat)

  // The operation changes the collateral or debt of trove op.i.
  predicate Changes(op: Op) { op.AdjustTrove? || op.MoveGainToTrove? }

  // moveCollateralGainToTrove adds the gain to the trove.
  function ChangeMade(s: Ledger, op: Op): Change
    requires Inv(s) && Changes(op)
  {
    match op
    case AdjustTrove(_, change, _, _) => change
    case MoveGainToTrove(i, _) =>
      InvPools(s);
      Change(if i < |s.pool.deposits| then SP.CollateralGain(s.pool, s.pool.deposits[i]) else 0, 0, 0, false)
  }

  lemma InvPools(s: Ledger)
    requires Inv(s)
    ensures SP.Valid(s.pool) && forall i | 0 <= i < |s.troves| :: GoodTrove(s, s.troves[i])
  {
    hide SP.Valid, GoodTrove;
  }

  // The trove's collateral and debt after the change.
  function Changed(s: Ledger, op: Op): (int, int)
    requires Inv(s) && Changes(op) && WellFormed(s, op)
  {
    InvPools(s);
    var t, c, fee := s.troves[op.i], ChangeMade(s, op), if op.AdjustTrove? then op.fee else 0;
    (AdjustedColl(s, t, c), AdjustedDebt(s, t, c, fee, op.price))
  }

  // The ratio the list is told, and the one the trove has after the change.
  ghost function ToldRatio(s: Ledger, op: Op): nat
    requires Inv(s) && Changes(op) && WellFormed(s, op)
  {
    var (coll, debt) := Changed(s, op);
    if coll >= 0 && debt > 0 then ComputeNominalCR(coll, debt) else 0
  }

  ghost function TrueRatio(s: Ledger, op: Op): nat
    requires Inv(s) && Changes(op) && WellFormed(s, op)
  {
    InvPools(s);
    var (coll, debt) := Changed(s, op);
    if coll >= 0 && debt > 0 then RatioAfter(s, s.troves[op.i], coll, debt) else 0
  }

  // ---- The list after an operation ----

  function Without(order: seq<nat>, id: nat): seq<nat> {
    if PositionOf(order, id) < |order| then RemoveAt(order, PositionOf(order, id)) else order
  }

  function With(order: seq<nat>, k: nat, id: nat): seq<nat> {
    if k <= |order| then InsertAt(order, k, id) else order
  }

  // The visits of a redemption from the start of position w.
  function VisitsFrom(order: seq<nat>, w: int, op: Op): seq<nat>
    requires op.RedeemCollateral? && -1 <= w < |order|
  {
    Visits(Upwards(order, w), op.maxIterations)
  }

  // The position of the trove that gives a part of itself; -1 if there is none.
  ghost function PartAt(s: Ledger, order: seq<nat>, w: int, op: Op): (p: int)
    requires op.RedeemCollateral? && -1 <= w < |order|
    ensures -1 <= p <= w
  {
    var visited := VisitsFrom(order, w, op);
    if op.price == 0 || !AllGood(s, visited) || !ComesToPart(s, visited, op.amount) then -1
    else
      var n, left := FullVisits(s, visited, op.amount), AfterFullVisits(s, visited, op.amount);
      VisitedPart(order, w, op.maxIterations);
      if TakesPart(s, s.troves[visited[n]], left, op.price, op.hintNICR) then w - n else -1
  }

  // And that part.
  ghost function PartTaken(s: Ledger, order: seq<nat>, w: int, op: Op): nat
    requires op.RedeemCollateral? && -1 <= w < |order|
  {
    var visited := VisitsFrom(order, w, op);
    if PartAt(s, order, w, op) >= 0 then AfterFullVisits(s, visited, op.amount) else 0
  }

  // The troves closed go, and so does the one that gives a part, to be put back.
  ghost function Unvisited(s: Ledger, order: seq<nat>, w: int, op: Op): seq<nat>
    requires op.RedeemCollateral? && -1 <= w < |order|
  {
    var visited := VisitsFrom(order, w, op);
    VisitedPart(order, w, op.maxIterations);
    if PartAt(s, order, w, op) >= 0 then WithoutClosed(order, PartAt(s, order, w, op) - 1, w)
    else if AllGood(s, visited) then WithoutClosed(order, w - FullVisits(s, visited, op.amount), w)
    else order
  }

  ghost function FirstVisited(s: Ledger, order: seq<nat>, c: Call): (w: int)
    requires c.op.RedeemCollateral?
    ensures -1 <= w < |order|
  {
    if AllGood(s, order) then Entry(s, order, c.op.price, c.firstHint) else -1
  }

  ghost function ListAfter(s: Ledger, order: seq<nat>, c: Call): seq<nat>
    requires Inv(s)
  {
    if !WellFormed(s, c.op) || TryStep(s, c.op).None? then order
    else
      match c.op
      case OpenTrove(i, _, _, _, _, _) => With(order, c.place, i)
      case AdjustTrove(i, _, _, _) => With(Without(order, i), c.place, i)
      case MoveGainToTrove(i, _) => With(Without(order, i), c.place, i)
      case CloseTrove(i, _) => Without(order, i)
      case LiquidateTroves(_, _) => Survivors(TryStep(s, c.op).value.troves, order)
      case RedeemCollateral(_, _, _, _, _, _, _) =>
        var w := FirstVisited(s, order, c);
        var p, rest := PartAt(s, order, w, c.op), Unvisited(s, order, w, c.op);
        if p >= 0 then With(rest, c.place, order[p]) else rest
      case _ => order
  }

  // A call that can happen with this list: the place is a slot for the ratio the list is told, and a redemption goes
  // up the list from where its first hint or the walk leads.
  ghost predicate OnList(s: Ledger, order: seq<nat>, c: Call)
    requires Inv(s)
  {
    WellFormed(s, c.op) && TryStep(s, c.op).Some? ==>
      match c.op
      case OpenTrove(i, _, _, _, _, _) =>
        var r := TryStep(s, c.op).value;
        Slot(order, NICRs(r), NICROf(r, i), c.place)
      case AdjustTrove(i, _, _, _) => Slot(Without(order, i), NICRs(s), ToldRatio(s, c.op), c.place)
      case MoveGainToTrove(i, _) => Slot(Without(order, i), NICRs(s), ToldRatio(s, c.op), c.place)
      case RedeemCollateral(queue, _, _, _, _, _, _) =>
        var w := FirstVisited(s, order, c);
        && queue == Upwards(order, w)
        && (PartAt(s, order, w, c.op) >= 0 ==>
              Slot(Unvisited(s, order, w, c.op), NICRs(TryStep(s, c.op).value), c.op.hintNICR, c.place))
      case _ => true
  }

  // ---- What has to hold before it ----

  // The trove put back is not below the neighbour it is put above, and no survivor of a liquidation, with its share of the
  // redistribution, is above the survivor before it.
  ghost predicate Orderly(s: Ledger, order: seq<nat>, c: Call)
    requires Inv(s)
  {
    WellFormed(s, c.op) && TryStep(s, c.op).Some? ==>
      match c.op
      case AdjustTrove(i, _, _, _) => NotBelow(s, Without(order, i), c.place, TrueRatio(s, c.op))
      case MoveGainToTrove(i, _) => NotBelow(s, Without(order, i), c.place, TrueRatio(s, c.op))
      case LiquidateTroves(ids, price) =>
        InvBooks(s);
        Liquidate(s, ids, price).Some? ==>
          var p := Batch(s, ids, price, RecoveryMode(s, price)).value;
          NeighboursSorted(Survivors(p.s.troves, order), SharedRatios(s, p))
      case RedeemCollateral(_, _, price, _, _, _, _) =>
        var w := FirstVisited(s, order, c);
        var p := PartAt(s, order, w, c.op);
        p >= 0 ==>
          NotBelow(s, Unvisited(s, order, w, c.op), c.place, PartialRatio(s, order[p], PartTaken(s, order, w, c.op), price))
      case _ => true
  }

  ghost predicate NotBelow(s: Ledger, rest: seq<nat>, k: nat, ratio: nat) {
    k < |rest| ==> NICROf(s, rest[k]) <= ratio
  }

  // ---- Every operation ----

  lemma ActiveIsListed(s: Ledger, order: seq<nat>, i: nat)
    requires InOrder(s, order) && i < |s.troves| && s.troves[i].status.Active?
    ensures PositionOf(order, i) < |order| && order[PositionOf(order, i)] == i
    ensures Without(order, i) == RemoveAt(order, PositionOf(order, i)) && |Without(order, i)| == |order| - 1
  {
    hide Sorted, PositionOf;
  }

  lemma ChangedIsActive(s: Ledger, op: Op)
    requires Inv(s) && WellFormed(s, op) && TryStep(s, op).Some? && (Changes(op) || op.CloseTrove?)
    ensures s.troves[op.i].status.Active?
  {
    hide Inv, SP.TryStep, SP.Valid, ApplyPending, SetTrove, AdmitsAdjustment, MoveTokens, CloseOut, ComputeCR, GoodTrove;
    InvPools(s);
  }

  lemma AdjustOrdered(s: Ledger, order: seq<nat>, c: Call, r: Ledger)
    requires Inv(s) && InOrder(s, order) && c.op.AdjustTrove? && WellFormed(s, c.op) && TryStep(s, c.op) == Some(r)
    requires Slot(Without(order, c.op.i), NICRs(s), ToldRatio(s, c.op), c.place)
    ensures InOrder(r, With(Without(order, c.op.i), c.place, c.op.i))
            <==> NotBelow(s, Without(order, c.op.i), c.place, TrueRatio(s, c.op))
  {
    hide Inv, InOrder, Adjust, NICROf, InsertAt, RemoveAt, PositionOf, ComputeNominalCR, RatioAfter, AdjustedColl, AdjustedDebt;
    hide Without;
    ChangedIsActive(s, c.op);
    ActiveIsListed(s, order, c.op.i);
    InvPools(s);
    AdjustOrderExactly(s, order, PositionOf(order, c.op.i), c.op.change, c.op.fee, c.op.price, c.place);
  }

  lemma GainOrdered(s: Ledger, order: seq<nat>, c: Call, r: Ledger)
    requires Inv(s) && InOrder(s, order) && c.op.MoveGainToTrove? && WellFormed(s, c.op) && TryStep(s, c.op) == Some(r)
    requires Slot(Without(order, c.op.i), NICRs(s), ToldRatio(s, c.op), c.place)
    ensures InOrder(r, With(Without(order, c.op.i), c.place, c.op.i))
            <==> NotBelow(s, Without(order, c.op.i), c.place, TrueRatio(s, c.op))
  {
    hide Inv, InOrder, GainToTrove, NICROf, InsertAt, RemoveAt, PositionOf, ComputeNominalCR, RatioAfter, SP.CollateralGain;
    hide Without, EntireColl, AppliedDebt, SP.Valid, SP.GoodDeposit, GoodTrove;
    ChangedIsActive(s, c.op);
    ActiveIsListed(s, order, c.op.i);
    InvPools(s);
    AppliedAmounts(s, c.op.i);
    GainOrderExactly(s, order, PositionOf(order, c.op.i), c.op.price, c.place);
  }

  lemma OthersLeaveTroves(s: Ledger, op: Op)
    requires Inv(s) && WellFormed(s, op) && TryStep(s, op).Some?
    requires !Changes(op) && !op.OpenTrove? && !op.CloseTrove? && !op.LiquidateTroves? && !op.RedeemCollateral?
    ensures
      var r := TryStep(s, op).value;
      r.troves == s.troves && r.LColl == s.LColl && r.LDebt == s.LDebt
  {
    hide Inv, SP.Valid, SP.TryStep;
    InvMeans(s, op);
  }

  // What the debts in the queue say about the outcome: how many troves are closed, and the part taken of the next one.
  ghost predicate Foreseen(s: Ledger, order: seq<nat>, w: int, op: Op, o: Outcome)
    requires op.RedeemCollateral? && -1 <= w < |order|
  {
    && o.closed <= w + 1 && (o.partial > 0 ==> o.closed <= w) && (o.partial > 0 <==> PartAt(s, order, w, op) >= 0)
    && Unvisited(s, order, w, op) == WithoutClosed(order, if o.partial > 0 then w - o.closed - 1 else w - o.closed, w)
    && (o.partial > 0 ==> PartAt(s, order, w, op) == w - o.closed && PartTaken(s, order, w, op) == o.partial)
  }

  lemma OutcomeForeseen(s: Ledger, order: seq<nat>, w: int, op: Op)
    requires Inv(s) && InOrder(s, order) && op.RedeemCollateral? && op.price > 0 && -1 <= w < |order|
    requires Visitable(s, VisitsFrom(order, w, op))
    ensures
      var loop := RedeemLoop(s, VisitsFrom(order, w, op), op.amount, op.price, op.hintNICR);
      loop.Some? ==> loop.value.closed <= w + 1 && Foreseen(s, order, w, op, loop.value)
  {
    hide Inv, InOrder, RedeemLoop, GoodTrove, FullVisits, AfterFullVisits, TakesPart, WithoutClosed, Queue;
    InvBooks(s);
    var visited := VisitsFrom(order, w, op);
    VisitedPart(order, w, op.maxIterations);
    QueuePrefix(s, order, w, |visited|);
    OutcomeByDebts(s, visited, op.amount, op.price, op.hintNICR, NOTHING);
  }

  // A redemption that goes through, and the list it leaves behind.
  lemma RedemptionOrdered(s: Ledger, order: seq<nat>, c: Call, r: Ledger)
    requires Inv(s) && InOrder(s, order) && c.op.RedeemCollateral? && WellFormed(s, c.op) && TryStep(s, c.op) == Some(r)
    requires c.op.queue == Upwards(order, FirstVisited(s, order, c))
    ensures
      var w := FirstVisited(s, order, c);
      var p, rest := PartAt(s, order, w, c.op), Unvisited(s, order, w, c.op);
      && (p < 0 ==> InOrder(r, rest))
      && (p >= 0 && Slot(rest, NICRs(r), c.op.hintNICR, c.place) ==>
            (InOrder(r, With(rest, c.place, order[p])) <==>
             NotBelow(s, rest, c.place, PartialRatio(s, order[p], PartTaken(s, order, w, c.op), c.op.price))))
  {
    hide Inv, InOrder, NICROf, InsertAt, PartialRatio, RedeemLoop, GoodTrove, PartTaken, PartAt, Unvisited, Redeem;
    hide WithoutClosed, Queue, Visitable, AllGood, Entry;
    var op, w := c.op, FirstVisited(s, order, c);
    InOrderGood(s, order);
    RedeemedLoop(s, op);
    RedeemKeepsOrder(s, order, op.amount, op.price, c.firstHint, op.hintNICR, op.maxIterations, op.fee, op.feedInactive);
    OutcomeForeseen(s, order, w, op);
  }

  lemma RedeemedLoop(s: Ledger, op: Op)
    requires Inv(s) && op.RedeemCollateral? && WellFormed(s, op) && TryStep(s, op).Some?
    ensures Visitable(s, Visits(op.queue, op.maxIterations))
    ensures RedeemLoop(s, Visits(op.queue, op.maxIterations), op.amount, op.price, op.hintNICR).Some?
  {
    hide Inv, RedeemLoop, GoodTrove, TCR;
    InvMeans(s, op);
  }

  lemma InOrderGood(s: Ledger, order: seq<nat>)
    requires Inv(s) && InOrder(s, order)
    ensures AllGood(s, order) && |s.surplus| == |s.troves|
  {
    hide Books, Sorted, GoodTrove;
    ListedGood(s, order, NOTHING);
  }

  // A call on a list in order leaves it in order exactly when the condition held before it.
  lemma StepOrderExactly(s: Ledger, order: seq<nat>, c: Call)
    requires Inv(s) && InOrder(s, order) && OnList(s, order, c)
    ensures InOrder(Step(s, c.op), ListAfter(s, order, c)) <==> Orderly(s, order, c)
  {
    hide Inv, InOrder, Open, Adjust, Close, Liquidate, Redeem, GainToTrove, ClaimSurplus, ProvideToSP, WithdrawFromSP, NICROf;
    hide Without, InsertAt, ToldRatio, TrueRatio, Survivors, SharedRatio, PartialRatio, NotBelow, PositionOf;
    hide FirstVisited, PartAt, PartTaken, Unvisited, Batch, NeighboursSorted, GoodTrove, SP.Valid;
    if WellFormed(s, c.op) && TryStep(s, c.op).Some? {
      var r := TryStep(s, c.op).value;
      match c.op
      case OpenTrove(i, amount, coll, fee, price, feedActive) =>
        OpenKeepsOrder(s, order, i, amount, coll, fee, price, feedActive, c.place);
      case AdjustTrove(_, _, _, _) => AdjustOrdered(s, order, c, r);
      case MoveGainToTrove(_, _) => GainOrdered(s, order, c, r);
      case CloseTrove(i, price) =>
        ChangedIsActive(s, c.op);
        ActiveIsListed(s, order, i);
        CloseKeepsOrder(s, order, PositionOf(order, i), price);
      case LiquidateTroves(ids, price) =>
        InvBooks(s);
        LiquidateOrderExactly(s, order, ids, price);
      case RedeemCollateral(_, _, _, _, _, _, _) => RedemptionOrdered(s, order, c, r);
      case _ =>
        OthersLeaveTroves(s, c.op);
        SameTrovesInOrder(s, r, order);
    }
  }

  // ---- Every run ----

  ghost predicate AllOnList(s: Ledger, order: seq<nat>, calls: seq<Call>)
    requires Inv(s)
    decreases |calls|
  {
    calls != [] ==>
      OnList(s, order, calls[0]) && AllOnList(Step(s, calls[0].op), ListAfter(s, order, calls[0]), calls[1..])
  }

  ghost predicate InOrderThroughout(s: Ledger, order: seq<nat>, calls: seq<Call>)
    requires Inv(s)
    decreases |calls|
  {
    && InOrder(s, order)
    && (calls != [] ==> InOrderThroughout(Step(s, calls[0].op), ListAfter(s, order, calls[0]), calls[1..]))
  }

  ghost predicate AllOrderly(s: Ledger, order: seq<nat>, calls: seq<Call>)
    requires Inv(s)
    decreases |calls|
  {
    calls != [] ==>
      Orderly(s, order, calls[0]) && AllOrderly(Step(s, calls[0].op), ListAfter(s, order, calls[0]), calls[1..])
  }

  // The list is in order in every state of a run exactly when every call meets its condition.
  lemma {:induction false} RunInOrderExactly(s: Ledger, order: seq<nat>, calls: seq<Call>)
    requires Inv(s) && InOrder(s, order) && AllOnList(s, order, calls)
    ensures InOrderThroughout(s, order, calls) <==> AllOrderly(s, order, calls)
    decreases |calls|
  {
    hide Inv, InOrder, Step, OnList, ListAfter, Orderly;
    if calls != [] {
      StepOrderExactly(s, order, calls[0]);
      var r, next := Step(s, calls[0].op), ListAfter(s, order, calls[0]);
      if InOrder(r, next) {
        RunInOrderExactly(r, next, calls[1..]);
      } else {
        NotThroughout(r, next, calls[1..]);
      }
    }
  }

  lemma NotThroughout(s: Ledger, order: seq<nat>, calls: seq<Call>)
    requires Inv(s) && !InOrder(s, order)
    ensures !InOrderThroughout(s, order, calls)
  {
    hide Inv, InOrder, Step, ListAfter;
  }

  // From an empty system and an empty list on.
  lemma FromEmptyList(accounts: nat, pcvSet: bool, calls: seq<Call>)
    ensures Inv(EmptyLedger(accounts, pcvSet)) && InOrder(EmptyLedger(accounts, pcvSet), [])
    ensures
      var s := EmptyLedger(accounts, pcvSet);
      AllOnList(s, [], calls) ==> (InOrderThroughout(s, [], calls) <==> AllOrderly(s, [], calls))
  {
    hide Inv, NICROf, AllOnList, InOrderThroughout, AllOrderly;
    EmptyInv(accounts, pcvSet);
    var s := EmptyLedger(accounts, pcvSet);
    if AllOnList(s, [], calls) {
      RunInOrderExactly(s, [], calls);
    }
  }

  // ---- Where the condition is met ----

  // A change that leaves no debt pending on its trove.
  lemma RewardsAppliedOrderly(s: Ledger, order: seq<nat>, c: Call)
    requires Inv(s) && InOrder(s, order) && Changes(c.op) && WellFormed(s, c.op) && OnList(s, order, c)
    requires HasPendingRewards(s, s.troves[c.op.i]) || SyncedTrove(s, s.troves[c.op.i])
    ensures Orderly(s, order, c)
  {
    hide Inv, InOrder, NICROf, Without, GoodTrove, TryStep, ComputeNominalCR, SkippedDebt;
    InvPools(s);
    if TryStep(s, c.op).Some? {
      ChangedIsActive(s, c.op);
      var t := s.troves[c.op.i];
      var (coll, debt) := Changed(s, c.op);
      if coll >= 0 && debt > 0 {
        NothingSkipped(s, t, coll);
        RatioAfterIsBelow(s, t, coll, debt);
      }
    }
  }

  // A liquidation with enough margin between its survivors, or nothing to redistribute.
  lemma MarginOrderly(s: Ledger, order: seq<nat>, c: Call)
    requires Inv(s) && InOrder(s, order) && c.op.LiquidateTroves? && WellFormed(s, c.op)
    ensures Books(s, NOTHING)
    ensures Liquidate(s, c.op.ids, c.op.price).Some? ==>
      var p := Batch(s, c.op.ids, c.op.price, RecoveryMode(s, c.op.price)).value;
      var rest := Survivors(p.s.troves, order);
      (forall k | 0 < k < |rest| :: PairKept(s, p, rest[k - 1], rest[k])) ==> Orderly(s, order, c)
  {
    hide Inv, InOrder, Liquidate, Batch, Survivors, SharedRatio, NeighboursSorted, PairKept;
    InvBooks(s);
    LiquidateKeepsOrder(s, order, c.op.ids, c.op.price);
    LiquidateOrderExactly(s, order, c.op.ids, c.op.price);
  }
}
