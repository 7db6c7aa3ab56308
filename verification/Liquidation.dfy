/** Liquidations: what happens to one trove in Normal and in Recovery Mode, the sequence over a batch,
    and the settlement of its totals. */
module Liquidation {
  import opened Common
  import opened TroveLedger
  import SP = StabilityPool

  datatype Values = Values(
    debt: nat, coll: nat, collGas: nat, thusdGas: nat, debtToOffset: nat, collToSP: nat,
    debtToRedistribute: nat, collToRedistribute: nat, collSurplus: nat)

  const ZERO_VALUES := Values(0, 0, 0, 0, 0, 0, 0, 0, 0)

  // ---- The liquidation tables ----

  // _getOffsetAndRedistributionVals on the collateral that is left after the gas share.
  function OffsetAndRedistribute(v: Values, sp: nat): Option<Values>
    requires v.collGas <= v.coll
  {
    var coll := v.coll - v.collGas;
    if sp == 0 then
      Some(v.(debtToOffset := 0, collToSP := 0, debtToRedistribute := v.debt, collToRedistribute := coll))
    else if v.debt == 0 then None
    else
      var offset := Min(v.debt, sp);
      var share := coll * offset / v.debt;
      SP.QuotientBound(coll, offset, v.debt);
      Some(v.(debtToOffset := offset, collToSP := share,
              debtToRedistribute := v.debt - offset, collToRedistribute := coll - share))
  }

  function WithGasShare(debt: nat, coll: nat): (v: Values)
    ensures v.collGas <= v.coll
  {
    ZERO_VALUES.(debt := debt, coll := coll, collGas := coll / PERCENT_DIVISOR, thusdGas := GAS_COMPENSATION)
  }

  // _getCappedOffsetVals; None is a zero price or an underflow.
  function CappedOffset(debt: nat, coll: nat, price: nat): Option<Values> {
    if price == 0 then None
    else
      var capped := debt * MCR / price;
      if coll < capped then None
      else
        Some(Values(debt, coll, capped / PERCENT_DIVISOR, GAS_COMPENSATION, debt, capped - capped / PERCENT_DIVISOR,
                    0, 0, coll - capped))
  }

  function NormalValues(debt: nat, coll: nat, sp: nat): Option<Values> {
    OffsetAndRedistribute(WithGasShare(debt, coll), sp)
  }

  function RecoveryValues(debt: nat, coll: nat, icr: nat, sp: nat, tcr: nat, price: nat): Option<Values> {
    if icr <= ONE_HUNDRED_PERCENT then OffsetAndRedistribute(WithGasShare(debt, coll), 0)
    else if icr < MCR then OffsetAndRedistribute(WithGasShare(debt, coll), sp)
    else if icr < tcr && debt <= sp then (if sp == 0 then None else CappedOffset(debt, coll, price))
    else Some(ZERO_VALUES)
  }

  // No debt and no collateral is created or lost in any row of either table.
  ghost predicate Conserves(v: Values, debt: nat, coll: nat, sp: nat) {
    && v.debt == debt && v.coll == coll && v.thusdGas == GAS_COMPENSATION
    && v.debt == v.debtToOffset + v.debtToRedistribute
    && v.coll == v.collGas + v.collToSP + v.collToRedistribute + v.collSurplus
    && v.debtToOffset <= sp
    && (v.debtToOffset == 0 ==> v.collToSP == 0)
    && (v.debtToRedistribute == 0 ==> v.collToRedistribute == 0)
  }

  lemma OffsetConserves(debt: nat, coll: nat, sp: nat)
    requires debt > 0
    ensures
      var r := OffsetAndRedistribute(WithGasShare(debt, coll), sp);
      && r.Some? && Conserves(r.value, debt, coll, sp)
      && r.value.debtToOffset == Min(debt, sp) && r.value.collSurplus == 0
  {
    FullShare(coll - coll / PERCENT_DIVISOR, debt);
  }

  lemma CappedOffsetConserves(debt: nat, coll: nat, price: nat, sp: nat)
    requires price > 0 && 0 < debt <= sp && ComputeCR(coll, debt, price) >= MCR
    ensures CappedOffset(debt, coll, price).Some?
    ensures
      var v := CappedOffset(debt, coll, price).value;
      Conserves(v, debt, coll, sp) && v.debtToOffset == debt && v.collGas + v.collToSP == debt * MCR / price
  {
    QuotientAtLeast(coll * price, debt, MCR);
    QuotientAtLeast(debt * MCR, price, coll + 1);
    assert (coll + 1) * price == coll * price + price;
    SP.QuotientBound(debt * MCR / price, 1, PERCENT_DIVISOR);
  }

  lemma RecoveryConserves(debt: nat, coll: nat, icr: nat, sp: nat, tcr: nat, price: nat)
    requires price > 0 && debt > 0 && icr == ComputeCR(coll, debt, price)
    ensures
      var r := RecoveryValues(debt, coll, icr, sp, tcr, price);
      && r.Some?
      && (r.value == ZERO_VALUES <==> icr >= MCR && (icr >= tcr || debt > sp))
      && (r.value != ZERO_VALUES ==> Conserves(r.value, debt, coll, sp))
  {
    hide OffsetAndRedistribute, CappedOffset;
    OffsetConserves(debt, coll, 0);
    OffsetConserves(debt, coll, sp);
    if icr >= MCR && debt <= sp {
      CappedOffsetConserves(debt, coll, price, sp);
    }
  }

  // The offset part carries the trove's own ratio, short of it by less than one unit of collateral, and the
  // redistributed part exceeds it by as much.
  lemma OffsetKeepsRatio(debt: nat, coll: nat, sp: nat)
    requires debt > 0 && sp > 0
    ensures
      var v := OffsetAndRedistribute(WithGasShare(debt, coll), sp).value;
      var liquidated := coll - v.collGas;
      && 0 <= liquidated * v.debtToOffset - v.collToSP * debt < debt
      && 0 <= v.collToRedistribute * debt - liquidated * v.debtToRedistribute < debt
  {
    var v := OffsetAndRedistribute(WithGasShare(debt, coll), sp).value;
    var liquidated := coll - v.collGas;
    FloorDivision(liquidated * v.debtToOffset, debt);
    assert v.collToRedistribute * debt == liquidated * debt - v.collToSP * debt;
    assert liquidated * v.debtToRedistribute == liquidated * debt - liquidated * v.debtToOffset;
  }

  // At SP = debt the pure and the mixed offset are the same row; the Recovery Mode table leaves it out.
  lemma RowsMeet(debt: nat, coll: nat)
    requires debt > 0
    ensures
      var v := OffsetAndRedistribute(WithGasShare(debt, coll), debt).value;
      && v.debtToOffset == debt && v.debtToRedistribute == 0
      && v.collToSP == coll - v.collGas && v.collToRedistribute == 0
  {
    FullShare(coll - coll / PERCENT_DIVISOR, debt);
  }

  // ---- One step of a batch ----

  datatype Totals = Totals(
    coll: nat, debt: nat, collGas: nat, thusdGas: nat, debtToOffset: nat, collToSP: nat,
    debtToRedistribute: nat, collToRedistribute: nat, collSurplus: nat)

  const NO_TOTALS := Totals(0, 0, 0, 0, 0, 0, 0, 0, 0)

  function Add(t: Totals, v: Values): Totals {
    Totals(t.coll + v.coll, t.debt + v.debt, t.collGas + v.collGas, t.thusdGas + v.thusdGas,
           t.debtToOffset + v.debtToOffset, t.collToSP + v.collToSP,
           t.debtToRedistribute + v.debtToRedistribute, t.collToRedistribute + v.collToRedistribute,
           t.collSurplus + v.collSurplus)
  }

  // The loop variables of a liquidation sequence.
  datatype Progress = Progress(
    s: Ledger, totals: Totals, spLeft: nat, sysColl: nat, sysDebt: nat, backToNormal: bool)

  function ICR(s: Ledger, i: nat, price: nat): nat
    requires i < |s.troves| && GoodTrove(s, s.troves[i])
  {
    ComputeCR(EntireColl(s, s.troves[i]), EntireDebt(s, s.troves[i]), price)
  }

  // Take trove i out with the given values, crediting a surplus to its owner.
  function Take(s: Ledger, i: nat, v: Values): Option<Ledger>
    requires i < |s.troves| && GoodTrove(s, s.troves[i]) && |s.surplus| == |s.troves|
  {
    match TakeOut(s, i)
    case None => None
    case Some(q) => Some(q.(surplus := s.surplus[i := s.surplus[i] + v.collSurplus]))
  }

  // Book one liquidated trove; the system trackers only move while the batch is in Recovery Mode.
  function Book(p: Progress, i: nat, v: Values, price: nat, tracked: bool): Option<Progress>
    requires i < |p.s.troves| && GoodTrove(p.s, p.s.troves[i]) && |p.s.surplus| == |p.s.troves|
  {
    match Take(p.s, i, v)
    case None => None
    case Some(q) =>
      var out := v.collToSP + v.collGas + v.collSurplus;
      if p.spLeft < v.debtToOffset || (tracked && (p.sysDebt < v.debtToOffset || p.sysColl < out)) then None
      else
        var r := p.(s := q, totals := Add(p.totals, v), spLeft := p.spLeft - v.debtToOffset);
        if !tracked then Some(r)
        else
          var coll, debt := p.sysColl - out, p.sysDebt - v.debtToOffset;
          Some(r.(sysColl := coll, sysDebt := debt, backToNormal := ComputeCR(coll, debt, price) >= CCR))
  }

  // The body of _getTotalFromBatchLiquidate_RecoveryMode (recovery) and _NormalMode.
  function BatchStep(p: Progress, i: nat, price: nat, recovery: bool): Option<Progress>
    requires i < |p.s.troves| && GoodTrove(p.s, p.s.troves[i]) && |p.s.surplus| == |p.s.troves|
  {
    var t := p.s.troves[i];
    var icr := ICR(p.s, i, price);
    if !t.status.Active? then Some(p)
    else if recovery && !p.backToNormal then
      if icr >= MCR && p.spLeft == 0 then Some(p)
      else if Count(p.s) <= 1 then Some(p.(backToNormal := ComputeCR(p.sysColl, p.sysDebt, price) >= CCR))
      else
        var tcr := ComputeCR(p.sysColl, p.sysDebt, price);
        match RecoveryValues(EntireDebt(p.s, t), EntireColl(p.s, t), icr, p.spLeft, tcr, price)
        case None => None
        case Some(v) =>
          if v == ZERO_VALUES then Some(p.(backToNormal := ComputeCR(p.sysColl, p.sysDebt, price) >= CCR))
          else Book(p, i, v, price, true)
    else if icr < MCR then
      match NormalValues(EntireDebt(p.s, t), EntireColl(p.s, t), p.spLeft)
      case None => None
      case Some(v) => Book(p, i, v, price, false)
    else Some(p)
  }

  // ---- What every step keeps ----

  // The limbo of a ledger in the middle of a batch.
  function LimboOf(t: Totals): Limbo {
    Limbo(t.coll, t.debt, t.thusdGas / GAS_COMPENSATION, t.collSurplus)
  }

  ghost predicate TotalsConserve(t: Totals) {
    && t.coll == t.collGas + t.collToSP + t.collToRedistribute + t.collSurplus
    && t.debt == t.debtToOffset + t.debtToRedistribute
    && t.thusdGas % GAS_COMPENSATION == 0
    && (t.debtToOffset == 0 ==> t.collToSP == 0)
    && (t.debtToRedistribute == 0 ==> t.collToRedistribute == 0)
  }

  // start: the ledger the batch began with.
  ghost predicate InBatch(p: Progress, start: Ledger) {
    && Books(p.s, LimboOf(p.totals)) && TotalsConserve(p.totals)
    && SystemColl(p.s) == SystemColl(start) && SystemDebt(p.s) == SystemDebt(start)
    && p.s == start.(troves := p.s.troves, totalStakes := p.s.totalStakes, surplus := p.s.surplus,
                     activeColl := p.s.activeColl, defaultColl := p.s.defaultColl,
                     activeDebt := p.s.activeDebt, defaultDebt := p.s.defaultDebt, applications := p.s.applications)
    && |p.s.troves| == |start.troves|
    && p.spLeft + p.totals.debtToOffset == start.pool.total
    && (DebtClaimsCovered(start) ==> DebtClaimsCovered(p.s))
    && (Synced(start) ==> Synced(p.s))
  }

  // The trackers are the system totals less what the batch has assigned so far to leave the troves: the
  // ratio used inside the loop is the true one, with nothing forgotten.
  ghost predicate Tracked(p: Progress) {
    && p.sysColl == SystemColl(p.s) - p.totals.collToSP - p.totals.collGas - p.totals.collSurplus
    && p.sysDebt == SystemDebt(p.s) - p.totals.debtToOffset
  }

  lemma TakeKeeps(s: Ledger, i: nat, v: Values, l: Limbo)
    requires Books(s, l) && i < |s.troves| && s.troves[i].status.Active?
    ensures Take(s, i, v).Some? ==>
      var r := Take(s, i, v).value;
      var t := s.troves[i];
      && Books(r, Limbo(l.coll + EntireColl(s, t), l.debt + EntireDebt(s, t), l.count + 1, l.surplus + v.collSurplus))
      && SystemColl(r) == SystemColl(s) && SystemDebt(r) == SystemDebt(s)
      && r == s.(troves := r.troves, totalStakes := r.totalStakes, surplus := r.surplus,
                 activeColl := r.activeColl, defaultColl := r.defaultColl,
                 activeDebt := r.activeDebt, defaultDebt := r.defaultDebt, applications := r.applications)
      && |r.troves| == |s.troves|
      && (DebtClaimsCovered(s) ==> DebtClaimsCovered(r)) && (Synced(s) ==> Synced(r))
  {
    hide TakeOut, Sum, CollClaim, DebtClaim, PendingColl, PendingDebt, SP.Valid, GoodTrove;
    assert GoodTrove(s, s.troves[i]);
    TakeOutKeeps(s, i, l);
    if Take(s, i, v).Some? {
      var q, r := TakeOut(s, i).value, Take(s, i, v).value;
      SumUpdate(s.surplus, i, s.surplus[i] + v.collSurplus);
      SameBooks(q, r);
    }
  }

  lemma SameClaimSums(q: Ledger, r: Ledger)
    requires r.troves == q.troves && r.LColl == q.LColl && r.LDebt == q.LDebt
    ensures Sum(CollClaims(r)) == Sum(CollClaims(q)) && Sum(DebtClaims(r)) == Sum(DebtClaims(q))
  {
    hide Sum, CollClaim, DebtClaim;
    SameClaims(q, r);
    assert CollClaims(r) == CollClaims(q) && DebtClaims(r) == DebtClaims(q);
  }

  lemma BookKeeps(p: Progress, i: nat, v: Values, price: nat, tracked: bool, start: Ledger)
    requires InBatch(p, start) && i < |p.s.troves| && p.s.troves[i].status.Active?
    requires Conserves(v, EntireDebt(p.s, p.s.troves[i]), EntireColl(p.s, p.s.troves[i]), p.spLeft)
    ensures Book(p, i, v, price, tracked).Some? ==>
      var r := Book(p, i, v, price, tracked).value;
      && InBatch(r, start)
      && (tracked && Tracked(p) ==> Tracked(r))
      && (!tracked ==> r.backToNormal == p.backToNormal)
  {
    hide Take, Books, PendingColl, PendingDebt, DebtClaimsCovered, Synced;
    TakeKeeps(p.s, i, v, LimboOf(p.totals));
    CountOneMore(p.totals.thusdGas);
  }

  lemma CountOneMore(x: nat)
    requires x % GAS_COMPENSATION == 0
    ensures (x + GAS_COMPENSATION) % GAS_COMPENSATION == 0
    ensures (x + GAS_COMPENSATION) / GAS_COMPENSATION == x / GAS_COMPENSATION + 1
  {
  }

  // Every step of a batch, in either mode, keeps the books with the batch's totals in limbo, and in
  // Recovery Mode the trackers exact.
  lemma BatchStepKeeps(p: Progress, i: nat, price: nat, recovery: bool, start: Ledger)
    requires InBatch(p, start) && i < |p.s.troves| && price > 0
    ensures BatchStep(p, i, price, recovery).Some? ==>
      var r := BatchStep(p, i, price, recovery).value;
      && InBatch(r, start)
      && (recovery && !p.backToNormal && Tracked(p) ==> Tracked(r))
  {
    hide Book, RecoveryValues, OffsetAndRedistribute, PendingColl, PendingDebt, DebtClaimsCovered, Synced, Sum;
    hide Conserves;
    var t := p.s.troves[i];
    assert GoodTrove(p.s, t);
    if t.status.Active? {
      var debt, coll := EntireDebt(p.s, t), EntireColl(p.s, t);
      var icr, tcr := ICR(p.s, i, price), ComputeCR(p.sysColl, p.sysDebt, price);
      if recovery && !p.backToNormal {
        RecoveryConserves(debt, coll, icr, p.spLeft, tcr, price);
        var v := RecoveryValues(debt, coll, icr, p.spLeft, tcr, price).value;
        if v != ZERO_VALUES {
          BookKeeps(p, i, v, price, true, start);
        }
      } else {
        OffsetConserves(debt, coll, p.spLeft);
        BookKeeps(p, i, NormalValues(debt, coll, p.spLeft).value, price, false, start);
      }
    }
  }

  // ---- A whole liquidation ----

  function Start(s: Ledger): Progress {
    Progress(s, NO_TOTALS, s.pool.total, SystemColl(s), SystemDebt(s), false)
  }

  // Ids beyond the accounts stand for addresses without a trove.
  function Batch(s: Ledger, ids: seq<nat>, price: nat, recovery: bool): (r: Option<Progress>)
    requires Books(s, NOTHING) && price > 0
    ensures r.Some? ==> InBatch(r.value, s) && (recovery && !r.value.backToNormal ==> Tracked(r.value))
  {
    hide BatchStep, Books, InBatch, Tracked;
    if ids == [] then StartInBatch(s); Some(Start(s))
    else
      match Batch(s, ids[..|ids| - 1], price, recovery)
      case None => None
      case Some(p) =>
        var i := ids[|ids| - 1];
        if i >= |p.s.troves| then Some(p)
        else
          BooksMeanGood(p, s, i);
          BatchStepKeeps(p, i, price, recovery, s);
          NeverBackToRecovery(p, i, price, recovery);
          BatchStep(p, i, price, recovery)
  }

  lemma StartInBatch(s: Ledger)
    requires Books(s, NOTHING)
    ensures InBatch(Start(s), s) && Tracked(Start(s))
  {
    assert LimboOf(NO_TOTALS) == NOTHING;
  }

  lemma BooksMeanGood(p: Progress, start: Ledger, i: nat)
    requires InBatch(p, start) && i < |p.s.troves|
    ensures GoodTrove(p.s, p.s.troves[i]) && |p.s.surplus| == |p.s.troves|
  {
  }

  lemma NeverBackToRecovery(p: Progress, i: nat, price: nat, recovery: bool)
    requires i < |p.s.troves| && GoodTrove(p.s, p.s.troves[i]) && |p.s.surplus| == |p.s.troves|
    ensures p.backToNormal && BatchStep(p, i, price, recovery).Some? ==>
              BatchStep(p, i, price, recovery).value.backToNormal
  {
    hide OffsetAndRedistribute, RecoveryValues, Take, PendingColl, PendingDebt, Sum;
  }

  // StabilityPool.offset with the pool movements it triggers.
  function ApplyOffset(s: Ledger, debt: nat, coll: nat): Option<Ledger> {
    if s.pool.total == 0 || debt == 0 then Some(s)
    else
      match SP.Offset(s.pool, debt, coll)
      case None => None
      case Some(q) =>
        if s.activeDebt < debt || s.supply < debt || s.activeColl < coll then None
        else
          Some(s.(pool := q, activeDebt := s.activeDebt - debt, supply := s.supply - debt, activeColl := s.activeColl - coll))
  }

  // The end of batchLiquidateTroves: place the totals, snapshot the system, pay the caller.
  function Settle(s: Ledger, t: Totals): Option<Ledger> {
    if t.debt == 0 then None
    else
      match ApplyOffset(s, t.debtToOffset, t.collToSP)
      case None => None
      case Some(a) =>
        match Redistribute(a, t.debtToRedistribute, t.collToRedistribute)
        case None => None
        case Some(b) =>
          if b.activeColl < t.collSurplus + t.collGas || b.gasPool < t.thusdGas then None
          else
            var c := b.(activeColl := b.activeColl - t.collSurplus, surplusColl := b.surplusColl + t.collSurplus);
            Some(c.(stakesSnapshot := c.totalStakes, collSnapshot := c.activeColl - t.collGas + c.defaultColl,
                    gasPool := c.gasPool - t.thusdGas, held := c.held + t.thusdGas, activeColl := c.activeColl - t.collGas))
  }

  // batchLiquidateTroves
  function Liquidate(s: Ledger, ids: seq<nat>, price: nat): Option<Ledger>
    requires Books(s, NOTHING) && price > 0
  {
    if ids == [] then None
    else
      match Batch(s, ids, price, RecoveryMode(s, price))
      case None => None
      case Some(p) => Settle(p.s, p.totals)
  }

  lemma ApplyOffsetKeeps(s: Ledger, debt: nat, coll: nat, l: Limbo)
    requires Books(s, l) && debt <= s.pool.total && (debt == 0 ==> coll == 0)
    ensures ApplyOffset(s, debt, coll).Some? ==>
      var r := ApplyOffset(s, debt, coll).value;
      && Books(r, l.(coll := l.coll - coll, debt := l.debt - debt))
      && r == s.(pool := r.pool, activeDebt := s.activeDebt - debt, supply := s.supply - debt, activeColl := s.activeColl - coll)
      && r.pool.total == s.pool.total - debt && r.pool.collateral == s.pool.collateral + coll
      && (DebtClaimsCovered(s) ==> DebtClaimsCovered(r)) && (Synced(s) ==> Synced(r))
  {
    hide SP.Valid, Sum, CollClaim, DebtClaim;
    SP.OffsetKeepsValid(s.pool, debt, coll);
    OffsetFields(s.pool, debt, coll);
    hide SP.Offset;
    if ApplyOffset(s, debt, coll).Some? {
      SameBooks(s, ApplyOffset(s, debt, coll).value);
    }
  }

  lemma OffsetFields(p: SP.Pool, debt: nat, coll: nat)
    ensures SP.Offset(p, debt, coll).Some? && p.total > 0 && debt > 0 ==>
      var q := SP.Offset(p, debt, coll).value;
      && debt <= p.total && q.deposits == p.deposits
      && q.total == p.total - debt && q.collateral == p.collateral + coll
  {
    hide SP.SumAt;
  }

  // Sums and claims depend on the troves and the accumulators alone.
  lemma SameBooks(s: Ledger, r: Ledger)
    requires r.troves == s.troves && r.LColl == s.LColl && r.LDebt == s.LDebt
    ensures Sum(Stakes(r)) == Sum(Stakes(s)) && Sum(Colls(r)) == Sum(Colls(s)) && Sum(Debts(r)) == Sum(Debts(s))
    ensures Count(r) == Count(s)
    ensures Sum(CollClaims(r)) == Sum(CollClaims(s)) && Sum(DebtClaims(r)) == Sum(DebtClaims(s))
    ensures (forall i | 0 <= i < |s.troves| :: GoodTrove(s, s.troves[i])) ==>
              forall i | 0 <= i < |r.troves| :: GoodTrove(r, r.troves[i])
    ensures Synced(s) ==> Synced(r)
  {
    hide Sum, CollClaim, DebtClaim;
    SameTroves(s, r);
    SameClaimSums(s, r);
    if forall i | 0 <= i < |s.troves| :: GoodTrove(s, s.troves[i]) {
      forall i | 0 <= i < |r.troves| ensures GoodTrove(r, r.troves[i]) {
        assert GoodTrove(s, s.troves[i]);
      }
    }
    if Synced(s) {
      forall i | 0 <= i < |r.troves| ensures SyncedTrove(r, r.troves[i]) {
        assert SyncedTrove(s, s.troves[i]);
      }
    }
  }

  ghost predicate Settled(s: Ledger, t: Totals, r: Ledger) {
    && Inv(r) && r.pcvSet == s.pcvSet
    && SystemColl(r) == SystemColl(s) - t.collToSP - t.collGas - t.collSurplus
    && SystemDebt(r) == SystemDebt(s) - t.debtToOffset
    && r.pool.total == s.pool.total - t.debtToOffset && r.pool.collateral == s.pool.collateral + t.collToSP
    && r.surplusColl == s.surplusColl + t.collSurplus && r.held == s.held + t.thusdGas
    && r.stakesSnapshot == r.totalStakes && r.collSnapshot == SystemColl(r)
  }

  // Offset and redistribution place their parts of the totals; the gas share and the surplus remain.
  lemma PlacementKeeps(s: Ledger, t: Totals)
    requires Books(s, LimboOf(t)) && TotalsConserve(t) && t.debtToOffset <= s.pool.total
    ensures ApplyOffset(s, t.debtToOffset, t.collToSP).Some? ==>
      var a := ApplyOffset(s, t.debtToOffset, t.collToSP).value;
      && a.pool.total == s.pool.total - t.debtToOffset && a.pool.collateral == s.pool.collateral + t.collToSP
      && a.supply == s.supply - t.debtToOffset
      && (Redistribute(a, t.debtToRedistribute, t.collToRedistribute).Some? ==>
            var b := Redistribute(a, t.debtToRedistribute, t.collToRedistribute).value;
            && Books(b, Limbo(t.collGas + t.collSurplus, 0, LimboOf(t).count, t.collSurplus))
            && SystemColl(b) == SystemColl(s) - t.collToSP && SystemDebt(b) == SystemDebt(s) - t.debtToOffset
            && b == s.(LColl := b.LColl, LDebt := b.LDebt, collError := b.collError, debtError := b.debtError,
                       lastStakes := b.lastStakes,
                       activeDebt := b.activeDebt, defaultDebt := b.defaultDebt,
                       activeColl := b.activeColl, defaultColl := b.defaultColl, pool := a.pool, supply := a.supply)
            && (DebtClaimsCovered(s) ==> DebtClaimsCovered(b)))
  {
    hide ApplyOffset, Redistribute, Books, DebtClaimsCovered, Synced;
    var l := LimboOf(t);
    ApplyOffsetKeeps(s, t.debtToOffset, t.collToSP, l);
    if ApplyOffset(s, t.debtToOffset, t.collToSP).Some? {
      var a := ApplyOffset(s, t.debtToOffset, t.collToSP).value;
      var l1 := l.(coll := l.coll - t.collToSP, debt := l.debt - t.debtToOffset);
      RedistributeKeeps(a, t.debtToRedistribute, t.collToRedistribute, l1);
      assert l1.(coll := l1.coll - t.collToRedistribute, debt := l1.debt - t.debtToRedistribute)
          == Limbo(t.collGas + t.collSurplus, 0, l.count, t.collSurplus);
    }
  }

  lemma SettleKeeps(s: Ledger, t: Totals)
    requires Books(s, LimboOf(t)) && TokensMatchDebt(s) && TotalsConserve(t) && t.debtToOffset <= s.pool.total
    ensures Settle(s, t).Some? ==>
      && Settled(s, t, Settle(s, t).value)
      && (DebtClaimsCovered(s) ==> DebtClaimsCovered(Settle(s, t).value))
  {
    hide ApplyOffset, Redistribute, Sum, SP.Valid;
    PlacementKeeps(s, t);
    if Settle(s, t).Some? {
      var a := ApplyOffset(s, t.debtToOffset, t.collToSP).value;
      SameBooks(Redistribute(a, t.debtToRedistribute, t.collToRedistribute).value, Settle(s, t).value);
    }
  }

  // A liquidation of any batch, in either mode, keeps all books. What the troves lose is what the Stability
  // Pool, the caller, the surplus pool and the other troves get; the ratio the loop tracked in Recovery
  // Mode is the ratio the system has afterwards.
  lemma LiquidateKeepsInv(s: Ledger, ids: seq<nat>, price: nat)
    requires Inv(s) && price > 0
    ensures Liquidate(s, ids, price).Some? ==>
      var p := Batch(s, ids, price, RecoveryMode(s, price)).value;
      var r := Liquidate(s, ids, price).value;
      && Settled(s, p.totals, r) && TotalsConserve(p.totals)
      && p.totals.debtToOffset <= s.pool.total
      && (DebtClaimsCovered(s) ==> DebtClaimsCovered(r))
      && (RecoveryMode(s, price) && !p.backToNormal ==>
            SystemColl(r) == p.sysColl && SystemDebt(r) == p.sysDebt && TCR(r, price) == ComputeCR(p.sysColl, p.sysDebt, price))
  {
    hide Batch, Settle, Books, DebtClaimsCovered, Synced, ComputeCR;
    if Liquidate(s, ids, price).Some? {
      var p := Batch(s, ids, price, RecoveryMode(s, price)).value;
      SettleKeeps(p.s, p.totals);
    }
  }

  // A liquidation keeps the two accumulators in step exactly when the collateral it redistributes, with the
  // carried error, comes to at least 1e-18 per stake, or the debt does not either, or nothing is
  // redistributed, or every trove left already lags behind.
  lemma LiquidateSyncedExactly(s: Ledger, ids: seq<nat>, price: nat)
    requires Inv(s) && Synced(s) && price > 0
    ensures
      Liquidate(s, ids, price).Some? ==>
        var p := Batch(s, ids, price, RecoveryMode(s, price)).value;
        Synced(Liquidate(s, ids, price).value) <==> StaysInStep(p.s, p.totals)
  {
    hide Batch, Books, Synced, DebtClaimsCovered, ComputeCR, StaysInStep;
    if Liquidate(s, ids, price).Some? {
      var p := Batch(s, ids, price, RecoveryMode(s, price)).value;
      SettleSyncedExactly(p.s, p.totals);
    }
  }

  // s: the ledger without the liquidated troves, before the totals are placed.
  predicate StaysInStep(s: Ledger, t: Totals) {
    || t.debtToRedistribute == 0
    || t.collToRedistribute * PRECISION + s.collError >= s.totalStakes
    || t.debtToRedistribute * PRECISION + s.debtError < s.totalStakes
    || forall j | 0 <= j < |s.troves| :: !s.troves[j].status.Active? || s.troves[j].collSnapshot < s.LColl
  }

  lemma SettleSyncedExactly(s: Ledger, t: Totals)
    requires Books(s, LimboOf(t)) && TotalsConserve(t) && t.debtToOffset <= s.pool.total
    requires Synced(s)
    ensures Settle(s, t).Some? ==> (Synced(Settle(s, t).value) <==> StaysInStep(s, t))
  {
    hide Books, ApplyOffset, Redistribute, Synced, DebtClaimsCovered;
    ApplyOffsetKeeps(s, t.debtToOffset, t.collToSP, LimboOf(t));
    if Settle(s, t).None? { return; }
    var a := ApplyOffset(s, t.debtToOffset, t.collToSP).value;
    var b := Redistribute(a, t.debtToRedistribute, t.collToRedistribute).value;
    SyncedSame(b, Settle(s, t).value);
    RedistributeFields(a, t.debtToRedistribute, t.collToRedistribute);
    if t.debtToRedistribute > 0 {
      BooksAllGood(a, LimboOf(t).(coll := LimboOf(t).coll - t.collToSP, debt := LimboOf(t).debt - t.debtToOffset));
      RedistributeSyncedExactly(a, t.debtToRedistribute, t.collToRedistribute);
      PerUnitPositive(t.collToRedistribute * PRECISION + s.collError, s.totalStakes);
      PerUnitPositive(t.debtToRedistribute * PRECISION + s.debtError, s.totalStakes);
    }
  }

  lemma PerUnitPositive(numerator: nat, stakes: nat)
    requires stakes > 0
    ensures PerUnit(numerator, stakes) > 0 <==> numerator >= stakes
  {
    QuotientAtLeast(numerator, stakes, 1);
  }

  lemma BooksAllGood(s: Ledger, l: Limbo)
    requires Books(s, l)
    ensures forall i | 0 <= i < |s.troves| :: GoodTrove(s, s.troves[i])
  {
  }

  lemma SyncedSame(s: Ledger, r: Ledger)
    requires r.troves == s.troves && r.LColl == s.LColl && r.LDebt == s.LDebt
    ensures Synced(r) <==> Synced(s)
  {
    if Synced(s) {
      SameBooks(s, r);
    }
    if Synced(r) {
      SameBooks(r, s);
    }
  }

  // ---- The effect on the total ratio ----

  // Taking out a whole trove whose ratio is at most the system's never lowers the system's.
  lemma FullOffsetNeverLowersTCR(sysColl: nat, sysDebt: nat, coll: nat, debt: nat, price: nat)
    requires coll <= sysColl && debt < sysDebt && coll * sysDebt <= sysColl * debt
    ensures ComputeCR(sysColl - coll, sysDebt - debt, price) >= ComputeCR(sysColl, sysDebt, price)
  {
    var q := sysColl * price / sysDebt;
    QuotientAtLeast(sysColl * price, sysDebt, q);
    OffsetAlgebra(sysColl, sysDebt, coll, debt, price, q);
    QuotientAtLeast((sysColl - coll) * price, sysDebt - debt, q);
  }

  lemma OffsetAlgebra(C: nat, D: nat, c: nat, d: nat, price: nat, q: nat)
    requires c <= C && d < D && c * D <= C * d && C * price >= q * D
    ensures (C - c) * price >= q * (D - d)
  {
    // (C - c) * D >= C * (D - d), so (C - c) * price * D >= C * price * (D - d) >= q * D * (D - d)
    assert (C - c) * D == C * D - c * D && C * (D - d) == C * D - C * d;
    ScaleUp(C * (D - d), (C - c) * D, price);
    ScaleUp(q * D, C * price, D - d);
    Swap(C - c, D, price);
    Swap(C, D - d, price);
    Swap(q, D, D - d);
    CancelPositive(q * (D - d), (C - c) * price, D);
  }

  lemma Swap(a: nat, b: nat, c: nat)
    ensures a * b * c == a * c * b
  {
  }

  // A comparison of the truncated ratios decides the exact one.
  lemma RatioBelow(coll: nat, debt: nat, sysColl: nat, sysDebt: nat, price: nat)
    requires debt > 0 && sysDebt > 0 && price > 0
    requires ComputeCR(coll, debt, price) < ComputeCR(sysColl, sysDebt, price)
    ensures coll * sysDebt <= sysColl * debt
  {
    var q := sysColl * price / sysDebt;
    QuotientAtLeast(sysColl * price, sysDebt, q);
    QuotientAtLeast(coll * price, debt, q);
    RatioAlgebra(coll, debt, sysColl, sysDebt, price, q);
  }

  lemma RatioAlgebra(c: nat, d: nat, C: nat, D: nat, price: nat, q: nat)
    requires d > 0 && D > 0 && price > 0 && C * price >= q * D && c * price < q * d
    ensures c * D <= C * d
  {
    ScaleUp(c * price, q * d, D);
    ScaleUp(q * D, C * price, d);
    Swap(c, D, price);
    Swap(C, d, price);
    Swap(q, d, D);
    CancelPositive(c * D, C * d, price);
  }

  // An offset of part of a trove below the system's ratio, in proportion, lowers that ratio through the gas share only.
  lemma PartialOffsetOnTCR(sysColl: nat, sysDebt: nat, coll: nat, debt: nat, gas: nat, part: nat, price: nat)
    requires 0 < debt < sysDebt && part <= debt && gas <= coll <= sysColl && coll * sysDebt <= sysColl * debt
    ensures
      var share := (coll - gas) * part / debt;
      gas + share <= sysColl
      && ComputeCR(sysColl - gas - share, sysDebt - part, price) >= ComputeCR(sysColl - gas, sysDebt, price)
  {
    var share := (coll - gas) * part / debt;
    FloorDivision((coll - gas) * part, debt);
    ShareWithin(share, coll - gas, part, debt);
    PartialAlgebra(sysColl, sysDebt, coll, debt, gas);
    ShareAlgebra(sysColl - gas, sysDebt, coll - gas, debt, part, share);
    FullOffsetNeverLowersTCR(sysColl - gas, sysDebt, share, part, price);
  }

  lemma ShareWithin(share: nat, coll: nat, part: nat, debt: nat)
    requires debt > 0 && part <= debt && share * debt <= coll * part
    ensures share <= coll
  {
    ScaleUp(part, debt, coll);
    CancelPositive(share, coll, debt);
  }

  lemma PartialAlgebra(C: nat, D: nat, c: nat, d: nat, gas: nat)
    requires d <= D && gas <= c <= C && c * D <= C * d
    ensures (c - gas) * D <= (C - gas) * d
  {
    ScaleUp(d, D, gas);
    assert (c - gas) * D == c * D - gas * D && (C - gas) * d == C * d - gas * d;
  }

  lemma ShareAlgebra(C: nat, D: nat, c: nat, d: nat, part: nat, share: nat)
    requires d > 0 && c * D <= C * d && share * d <= c * part
    ensures share * D <= C * part
  {
    ScaleUp(share * d, c * part, D);
    ScaleUp(c * D, C * d, part);
    Swap(share, d, D);
    Swap(c, part, D);
    Swap(C, d, part);
    CancelPositive(share * D, C * part, d);
  }

  // In Recovery Mode a trove between MCR and the TCR is offset in full, surplus included, and the TCR does
  // not fall; one between 100% and MCR but below the TCR lowers it through the gas share at most, and not at all if it
  // is offset in full; a redistribution moves the TCR through the gas share only.
  lemma RecoveryStepOnTCR(p: Progress, i: nat, price: nat, start: Ledger)
    requires InBatch(p, start) && Tracked(p) && !p.backToNormal && i < |p.s.troves| && price > 0
    requires p.s.troves[i].status.Active? && BatchStep(p, i, price, true).Some?
    ensures
      var t := p.s.troves[i];
      var icr, tcr := ICR(p.s, i, price), ComputeCR(p.sysColl, p.sysDebt, price);
      var r := BatchStep(p, i, price, true).value;
      && (MCR <= icr < tcr && EntireDebt(p.s, t) < p.sysDebt ==> ComputeCR(r.sysColl, r.sysDebt, price) >= tcr)
      && (icr <= ONE_HUNDRED_PERCENT && Count(p.s) > 1 ==>
            r.sysDebt == p.sysDebt && r.sysColl == p.sysColl - EntireColl(p.s, t) / PERCENT_DIVISOR)
      && (ONE_HUNDRED_PERCENT < icr < MCR && icr < tcr && Count(p.s) > 1 && EntireDebt(p.s, t) < p.sysDebt ==>
            && p.sysColl >= EntireColl(p.s, t) / PERCENT_DIVISOR
            && ComputeCR(r.sysColl, r.sysDebt, price) >=
                 ComputeCR(p.sysColl - EntireColl(p.s, t) / PERCENT_DIVISOR, p.sysDebt, price)
            && (EntireDebt(p.s, t) <= p.spLeft ==> ComputeCR(r.sysColl, r.sysDebt, price) >= tcr))
      && (icr >= MCR && icr >= tcr ==> r.sysColl == p.sysColl && r.sysDebt == p.sysDebt && r.s == p.s)
  {
    hide Books, PendingColl, PendingDebt, Sum, Take, CappedOffset, ComputeCR, InBatch, Tracked;
    hide SP.Valid, DebtClaimsCovered, Synced;
    StepFacts(p, i, start);
    var t := p.s.troves[i];
    var debt, coll := EntireDebt(p.s, t), EntireColl(p.s, t);
    var icr, tcr := ICR(p.s, i, price), ComputeCR(p.sysColl, p.sysDebt, price);
    if ONE_HUNDRED_PERCENT < icr < MCR && icr < tcr && Count(p.s) > 1 && debt < p.sysDebt {
      MixedStepOnTCR(p, i, price, start);
      return;
    }
    if MCR <= icr < tcr && debt < p.sysDebt {
      RatioBelow(coll, debt, p.sysColl, p.sysDebt, price);
      var v := RecoveryValues(debt, coll, icr, p.spLeft, tcr, price);
      if debt <= p.spLeft {
        CappedOffsetConserves(debt, coll, price, p.spLeft);
        if coll <= p.sysColl {
          FullOffsetNeverLowersTCR(p.sysColl, p.sysDebt, coll, debt, price);
        }
      }
    }
  }

  lemma MixedStepOnTCR(p: Progress, i: nat, price: nat, start: Ledger)
    requires InBatch(p, start) && Tracked(p) && !p.backToNormal && i < |p.s.troves| && price > 0
    requires p.s.troves[i].status.Active? && GoodTrove(p.s, p.s.troves[i]) && |p.s.surplus| == |p.s.troves|
    requires BatchStep(p, i, price, true).Some? && Count(p.s) > 1
    requires ONE_HUNDRED_PERCENT < ICR(p.s, i, price) < MCR && EntireDebt(p.s, p.s.troves[i]) < p.sysDebt
    requires ICR(p.s, i, price) < ComputeCR(p.sysColl, p.sysDebt, price)
    ensures
      var t := p.s.troves[i];
      var gas, r := EntireColl(p.s, t) / PERCENT_DIVISOR, BatchStep(p, i, price, true).value;
      && p.sysColl >= gas
      && ComputeCR(r.sysColl, r.sysDebt, price) >= ComputeCR(p.sysColl - gas, p.sysDebt, price)
      && (EntireDebt(p.s, t) <= p.spLeft ==>
            ComputeCR(r.sysColl, r.sysDebt, price) >= ComputeCR(p.sysColl, p.sysDebt, price))
  {
    hide Books, PendingColl, PendingDebt, Sum, Take, CappedOffset, ComputeCR, InBatch, Tracked;
    hide SP.Valid, DebtClaimsCovered, Synced, OffsetAndRedistribute;
    StepFacts(p, i, start);
    CollWithinTracker(p, i, start);
    var debt, coll := EntireDebt(p.s, p.s.troves[i]), EntireColl(p.s, p.s.troves[i]);
    RatioBelow(coll, debt, p.sysColl, p.sysDebt, price);
    PartialOffsetOnTCR(p.sysColl, p.sysDebt, coll, debt, coll / PERCENT_DIVISOR, Min(debt, p.spLeft), price);
    OffsetShares(debt, coll, p.spLeft);
    if debt <= p.spLeft {
      FullOffsetNeverLowersTCR(p.sysColl, p.sysDebt, coll, debt, price);
    }
  }

  lemma OffsetShares(debt: nat, coll: nat, sp: nat)
    requires debt > 0
    ensures
      var r := OffsetAndRedistribute(WithGasShare(debt, coll), sp);
      && r.Some? && r.value.debtToOffset == Min(debt, sp) && r.value.collSurplus == 0
      && r.value.collGas == coll / PERCENT_DIVISOR
      && r.value.collToSP == (coll - coll / PERCENT_DIVISOR) * Min(debt, sp) / debt
      && (debt <= sp ==> r.value.collToSP == coll - coll / PERCENT_DIVISOR)
  {
    FullShare(coll - coll / PERCENT_DIVISOR, debt);
  }

  // The trove's collateral is still in the system the trackers describe.
  lemma CollWithinTracker(p: Progress, i: nat, start: Ledger)
    requires InBatch(p, start) && Tracked(p) && i < |p.s.troves| && p.s.troves[i].status.Active?
    requires GoodTrove(p.s, p.s.troves[i])
    ensures EntireColl(p.s, p.s.troves[i]) <= p.sysColl
  {
    hide Sum, CollClaimsCovered, DebtClaimsCovered, PendingColl, GoodTrove, Synced, SP.Valid;
    PendingCollInPool(p.s, i);
    SumNonNegative(Colls(p.s));
    assert Colls(p.s)[i] == p.s.troves[i].coll;
  }

  lemma StepFacts(p: Progress, i: nat, start: Ledger)
    requires InBatch(p, start) && i < |p.s.troves| && p.s.troves[i].status.Active?
    ensures GoodTrove(p.s, p.s.troves[i]) && EntireDebt(p.s, p.s.troves[i]) > 0 && |p.s.surplus| == |p.s.troves|
  {
  }
}
