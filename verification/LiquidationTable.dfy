/** The two liquidation tables row by row: who gets what of a liquidated trove, which troves a batch takes, and how the rows
    add up to what the whole liquidation moves. */
module LiquidationTable {
  import opened Common
  import opened TroveLedger
  import opened Liquidation
  import SP = StabilityPool

  // ---- The rows ----

  // The caller's share of the collateral: a two-hundredth, rounded down.
  predicate IsGasShare(gas: nat, coll: nat) { gas * PERCENT_DIVISOR <= coll < (gas + 1) * PERCENT_DIVISOR }

  // As much debt as the Stability Pool covers is offset, with its share of the collateral after the caller's, rounded down.
  // The rest of both goes to the other troves, and nothing to the owner.
  predicate OffsetRow(v: Values, debt: nat, coll: nat, sp: nat) {
    && v.debt == debt && v.coll == coll && v.thusdGas == GAS_COMPENSATION && v.collSurplus == 0
    && IsGasShare(v.collGas, coll)
    && v.debtToOffset == (if debt <= sp then debt else sp) && v.debtToOffset + v.debtToRedistribute == debt
    && v.collToSP * debt <= (coll - v.collGas) * v.debtToOffset < (v.collToSP + 1) * debt
    && v.collGas + v.collToSP + v.collToRedistribute == coll
  }

  // All debt is offset, for collateral worth 110% of it, rounded down. Of this the caller gets its share and the Stability
  // Pool the rest; the owner keeps what is above it.
  predicate CappedRow(v: Values, debt: nat, coll: nat, price: nat) {
    var cap := v.collGas + v.collToSP;
    && v.debt == debt && v.coll == coll && v.thusdGas == GAS_COMPENSATION
    && cap * price <= debt * MCR < (cap + 1) * price && IsGasShare(v.collGas, cap)
    && v.debtToOffset == debt && v.debtToRedistribute == 0 == v.collToRedistribute && cap + v.collSurplus == coll
  }

  // The row that applies: below MCR in Normal Mode, and in Recovery Mode redistribution up to 100%, both up to MCR, and above
  // it the capped offset up to the TCR.
  predicate InTable(v: Values, debt: nat, coll: nat, sp: nat, recovery: bool, tcr: nat, price: nat) {
    var icr := ComputeCR(coll, debt, price);
    if !recovery then icr < MCR && OffsetRow(v, debt, coll, sp)
    else if icr <= ONE_HUNDRED_PERCENT then OffsetRow(v, debt, coll, 0)
    else if icr < MCR then OffsetRow(v, debt, coll, sp)
    else icr < tcr && debt <= sp && CappedRow(v, debt, coll, price)
  }

  // The troves that can be liquidated at all.
  predicate Liquidable(debt: nat, coll: nat, sp: nat, recovery: bool, tcr: nat, price: nat) {
    var icr := ComputeCR(coll, debt, price);
    icr < MCR || (recovery && icr < tcr && debt <= sp)
  }

  lemma OffsetIsRow(debt: nat, coll: nat, sp: nat)
    requires debt > 0
    ensures
      var r := OffsetAndRedistribute(WithGasShare(debt, coll), sp);
      r.Some? && OffsetRow(r.value, debt, coll, sp)
  {
    FullShare(coll - coll / PERCENT_DIVISOR, debt);
    FloorDivision(coll, PERCENT_DIVISOR);
    FloorDivision((coll - coll / PERCENT_DIVISOR) * Min(debt, sp), debt);
  }

  lemma CappedIsRow(debt: nat, coll: nat, price: nat)
    requires price > 0 && debt > 0 && ComputeCR(coll, debt, price) >= MCR
    ensures CappedOffset(debt, coll, price).Some? && CappedRow(CappedOffset(debt, coll, price).value, debt, coll, price)
  {
    CappedOffsetConserves(debt, coll, price, debt);
    FloorDivision(debt * MCR, price);
    FloorDivision(debt * MCR / price, PERCENT_DIVISOR);
  }

  lemma NormalTable(debt: nat, coll: nat, sp: nat, price: nat)
    requires debt > 0
    ensures NormalValues(debt, coll, sp).Some?
    ensures ComputeCR(coll, debt, price) < MCR ==> InTable(NormalValues(debt, coll, sp).value, debt, coll, sp, false, 0, price)
  {
    hide OffsetAndRedistribute, OffsetRow, ComputeCR;
    OffsetIsRow(debt, coll, sp);
  }

  lemma RecoveryTable(debt: nat, coll: nat, icr: nat, sp: nat, tcr: nat, price: nat)
    requires price > 0 && debt > 0 && icr == ComputeCR(coll, debt, price)
    ensures
      var r := RecoveryValues(debt, coll, icr, sp, tcr, price);
      && r.Some?
      && (r.value == ZERO_VALUES <==> !Liquidable(debt, coll, sp, true, tcr, price))
      && (Liquidable(debt, coll, sp, true, tcr, price) ==> InTable(r.value, debt, coll, sp, true, tcr, price))
  {
    hide OffsetAndRedistribute, CappedOffset, OffsetRow, CappedRow, ComputeCR;
    RecoveryConserves(debt, coll, icr, sp, tcr, price);
    OffsetIsRow(debt, coll, 0);
    OffsetIsRow(debt, coll, sp);
    if icr >= MCR {
      CappedIsRow(debt, coll, price);
    }
  }

  // ---- One step of a batch ----

  const TAKEN := Trove(ClosedByLiquidation, 0, 0, 0, 0, 0)

  function Less(a: nat, b: nat): nat { if a < b then 0 else a - b }

  // What a step adds to the totals.
  function Between(t: Totals, u: Totals): Values {
    Values(Less(u.debt, t.debt), Less(u.coll, t.coll), Less(u.collGas, t.collGas), Less(u.thusdGas, t.thusdGas),
           Less(u.debtToOffset, t.debtToOffset), Less(u.collToSP, t.collToSP),
           Less(u.debtToRedistribute, t.debtToRedistribute), Less(u.collToRedistribute, t.collToRedistribute),
           Less(u.collSurplus, t.collSurplus))
  }

  lemma BetweenIsAdded(t: Totals, v: Values)
    ensures Between(t, Add(t, v)) == v
  {
  }

  // Trove i is taken out with the values of a row, and its owner, if anyone, is credited.
  ghost predicate TakesRow(p: Progress, i: nat, v: Values, r: Progress) {
    && i < |p.s.troves| && i < |p.s.surplus|
    && r.s.troves == p.s.troves[i := TAKEN] && r.s.surplus == p.s.surplus[i := p.s.surplus[i] + v.collSurplus]
    && r.totals == Add(p.totals, v) && r.spLeft == p.spLeft - v.debtToOffset
  }

  ghost predicate TakesNothing(p: Progress, r: Progress) {
    r.s == p.s && r.totals == p.totals && r.spLeft == p.spLeft && r.sysColl == p.sysColl && r.sysDebt == p.sysDebt
  }

  // The trackers in Recovery Mode follow the row; otherwise they stand still.
  ghost predicate Tracks(p: Progress, v: Values, r: Progress, recovery: bool, price: nat) {
    if recovery then
      && r.sysColl == p.sysColl - (v.collToSP + v.collGas + v.collSurplus) && r.sysDebt == p.sysDebt - v.debtToOffset
      && r.backToNormal == (ComputeCR(r.sysColl, r.sysDebt, price) >= CCR)
    else r.sysColl == p.sysColl && r.sysDebt == p.sysDebt && r.backToNormal == p.backToNormal
  }

  // A step that goes through takes the trove exactly if it is active and can be liquidated, with the row that applies,
  // unless it is the last one in Recovery Mode.
  lemma StepByTable(p: Progress, i: nat, price: nat, recovery: bool, start: Ledger)
    requires InBatch(p, start) && i < |p.s.troves| && price > 0
    requires recovery && !p.backToNormal ==> ComputeCR(p.sysColl, p.sysDebt, price) < CCR
    ensures GoodTrove(p.s, p.s.troves[i]) && |p.s.surplus| == |p.s.troves|
    ensures BatchStep(p, i, price, recovery).Some? ==>
      var r, t := BatchStep(p, i, price, recovery).value, p.s.troves[i];
      var debt, coll := EntireDebt(p.s, t), EntireColl(p.s, t);
      var mode, tcr := recovery && !p.backToNormal, ComputeCR(p.sysColl, p.sysDebt, price);
      if t.status.Active? && Liquidable(debt, coll, p.spLeft, mode, tcr, price) && (mode ==> Count(p.s) > 1) then
        var v := Between(p.totals, r.totals);
        InTable(v, debt, coll, p.spLeft, mode, tcr, price) && TakesRow(p, i, v, r) && Tracks(p, v, r, mode, price)
      else TakesNothing(p, r) && r.backToNormal == p.backToNormal
  {
    hide Book, RecoveryValues, NormalValues, InTable, ComputeCR, PendingColl, PendingDebt, Sum, Books, Liquidable, TakesRow, Tracks;
    BooksMeanGood(p, start, i);
    var t := p.s.troves[i];
    if t.status.Active? && BatchStep(p, i, price, recovery).Some? {
      var debt, coll := EntireDebt(p.s, t), EntireColl(p.s, t);
      var icr, tcr := ICR(p.s, i, price), ComputeCR(p.sysColl, p.sysDebt, price);
      DebtPositive(p.s, t);
      LiquidableIs(debt, coll, p.spLeft, tcr, price);
      if recovery && !p.backToNormal {
        RecoveryTable(debt, coll, icr, p.spLeft, tcr, price);
        BookTakes(p, i, RecoveryValues(debt, coll, icr, p.spLeft, tcr, price).value, price, true);
      } else {
        NormalTable(debt, coll, p.spLeft, price);
        NormalIgnoresTCR(NormalValues(debt, coll, p.spLeft).value, debt, coll, p.spLeft, tcr, price);
        BookTakes(p, i, NormalValues(debt, coll, p.spLeft).value, price, false);
      }
    }
  }

  lemma LiquidableIs(debt: nat, coll: nat, sp: nat, tcr: nat, price: nat)
    ensures Liquidable(debt, coll, sp, false, tcr, price) <==> ComputeCR(coll, debt, price) < MCR
    ensures ComputeCR(coll, debt, price) >= MCR && sp == 0 && debt > 0 ==> !Liquidable(debt, coll, sp, true, tcr, price)
  {
  }

  lemma NormalIgnoresTCR(v: Values, debt: nat, coll: nat, sp: nat, tcr: nat, price: nat)
    ensures InTable(v, debt, coll, sp, false, 0, price) <==> InTable(v, debt, coll, sp, false, tcr, price)
  {
  }

  lemma BookTakes(p: Progress, i: nat, v: Values, price: nat, tracked: bool)
    requires i < |p.s.troves| && GoodTrove(p.s, p.s.troves[i]) && |p.s.surplus| == |p.s.troves|
    ensures Book(p, i, v, price, tracked).Some? ==>
      var r := Book(p, i, v, price, tracked).value;
      Between(p.totals, r.totals) == v && TakesRow(p, i, v, r) && Tracks(p, v, r, tracked, price)
  {
    hide PendingColl, PendingDebt, GoodTrove, Sum, ComputeCR;
    BetweenIsAdded(p.totals, v);
  }

  // ---- A whole batch ----

  // A trove taken by a batch, its values, and whether the batch was in Recovery Mode then.
  datatype Row = Row(id: nat, values: Values, recovery: bool)

  ghost function Rows(s: Ledger, ids: seq<nat>, price: nat, recovery: bool): seq<Row>
    requires Books(s, NOTHING) && price > 0
    decreases |ids|
  {
    if ids == [] then []
    else
      var shorter := ids[..|ids| - 1];
      match (Batch(s, shorter, price, recovery), Batch(s, ids, price, recovery))
      case (Some(p), Some(r)) =>
        if r.totals == p.totals then Rows(s, shorter, price, recovery)
        else
          Rows(s, shorter, price, recovery)
          + [Row(ids[|ids| - 1], Between(p.totals, r.totals), recovery && !p.backToNormal)]
      case _ => []
  }

  function TotalOf(rows: seq<Row>): Totals {
    if rows == [] then NO_TOTALS else Add(TotalOf(rows[..|rows| - 1]), rows[|rows| - 1].values)
  }

  // The ratio of the system without what the rows send out of it.
  function RatioWithout(s: Ledger, rows: seq<Row>, price: nat): nat {
    var t := TotalOf(rows);
    ComputeCR(Less(SystemColl(s), t.collToSP + t.collGas + t.collSurplus), Less(SystemDebt(s), t.debtToOffset), price)
  }

  // Row k is that of its trove as it was before the batch, with what the rows before it left in the Stability Pool, and in
  // Recovery Mode as long as they left the system in it.
  ghost predicate RowApplies(s: Ledger, rows: seq<Row>, k: nat, price: nat, recovery: bool)
    requires k < |rows|
  {
    var row, before := rows[k], rows[..k];
    && row.id < |s.troves| && s.troves[row.id].status.Active? && GoodTrove(s, s.troves[row.id])
    && InTable(row.values, EntireDebt(s, s.troves[row.id]), EntireColl(s, s.troves[row.id]),
               Less(s.pool.total, TotalOf(before).debtToOffset), row.recovery, RatioWithout(s, before, price), price)
    && (row.recovery <==> recovery && StillInRecovery(s, before, price))
  }

  ghost predicate StillInRecovery(s: Ledger, rows: seq<Row>, price: nat) {
    forall j | 0 <= j <= |rows| :: RatioWithout(s, rows[..j], price) < CCR
  }

  // The ledger after the rows: their troves are closed and their owners credited, and nobody else is touched.
  ghost predicate AfterRows(s: Ledger, rows: seq<Row>, r: Ledger) {
    && |r.troves| == |s.troves| && |r.surplus| == |s.surplus| == |s.troves|
    && (forall k | 0 <= k < |rows| ::
          && rows[k].id < |s.troves| && r.troves[rows[k].id] == TAKEN
          && r.surplus[rows[k].id] == s.surplus[rows[k].id] + rows[k].values.collSurplus)
    && forall i | 0 <= i < |s.troves| && (forall k | 0 <= k < |rows| :: rows[k].id != i) ::
         r.troves[i] == s.troves[i] && r.surplus[i] == s.surplus[i]
  }

  ghost predicate ByTable(s: Ledger, rows: seq<Row>, price: nat, recovery: bool, p: Progress) {
    && (forall k | 0 <= k < |rows| :: RowApplies(s, rows, k, price, recovery))
    && (forall j, k | 0 <= j < k < |rows| :: rows[j].id != rows[k].id)
    && p.totals == TotalOf(rows) && AfterRows(s, rows, p.s)
    && (recovery && !p.backToNormal <==> recovery && StillInRecovery(s, rows, price))
  }

  lemma RowAppended(s: Ledger, rows: seq<Row>, row: Row, price: nat, recovery: bool)
    requires forall k | 0 <= k < |rows| :: RowApplies(s, rows, k, price, recovery)
    requires row.id < |s.troves| && s.troves[row.id].status.Active? && GoodTrove(s, s.troves[row.id])
    requires InTable(row.values, EntireDebt(s, s.troves[row.id]), EntireColl(s, s.troves[row.id]),
                     Less(s.pool.total, TotalOf(rows).debtToOffset), row.recovery, RatioWithout(s, rows, price), price)
    requires row.recovery <==> recovery && StillInRecovery(s, rows, price)
    ensures forall k | 0 <= k < |rows| + 1 :: RowApplies(s, rows + [row], k, price, recovery)
    ensures TotalOf(rows + [row]) == Add(TotalOf(rows), row.values)
    ensures StillInRecovery(s, rows + [row], price)
            <==> StillInRecovery(s, rows, price) && RatioWithout(s, rows + [row], price) < CCR
  {
    hide InTable, RatioWithout, GoodTrove, EntireColl, EntireDebt, StillInRecovery;
    var all := rows + [row];
    assert all[..|rows|] == rows;
    RecoveryAppended(s, rows, row, price);
    forall k | 0 <= k < |rows| + 1 ensures RowApplies(s, all, k, price, recovery) {
      if k < |rows| {
        assert RowApplies(s, rows, k, price, recovery);
        assert all[k] == rows[k] && all[..k] == rows[..k];
      }
    }
  }

  lemma RecoveryAppended(s: Ledger, rows: seq<Row>, row: Row, price: nat)
    ensures StillInRecovery(s, rows + [row], price)
            <==> StillInRecovery(s, rows, price) && RatioWithout(s, rows + [row], price) < CCR
  {
    hide RatioWithout;
    var all := rows + [row];
    assert all[..|all|] == all && forall k | 0 <= k <= |rows| :: all[..k] == rows[..k];
  }

  lemma AfterAppended(s: Ledger, rows: seq<Row>, row: Row, q: Ledger, r: Ledger)
    requires AfterRows(s, rows, q) && row.id < |s.troves| && forall k | 0 <= k < |rows| :: rows[k].id != row.id
    requires r.troves == q.troves[row.id := TAKEN] && r.surplus == q.surplus[row.id := q.surplus[row.id] + row.values.collSurplus]
    ensures AfterRows(s, rows + [row], r)
  {
    var all := rows + [row];
    forall i | 0 <= i < |s.troves| && (forall k | 0 <= k < |all| :: all[k].id != i)
      ensures r.troves[i] == s.troves[i] && r.surplus[i] == s.surplus[i]
    {
      assert all[|rows|].id == row.id;
      assert forall k | 0 <= k < |rows| :: rows[k].id == all[k].id;
    }
  }

  // The trackers of a batch that is in Recovery Mode still are what RatioWithout computes.
  lemma TrackersAre(s: Ledger, rows: seq<Row>, p: Progress, price: nat)
    requires InBatch(p, s) && Tracked(p) && p.totals == TotalOf(rows)
    ensures RatioWithout(s, rows, price) == ComputeCR(p.sysColl, p.sysDebt, price)
  {
    hide Books, ComputeCR, TotalOf;
  }

  lemma TrackedOn(p: Progress, v: Values, r: Progress, price: nat)
    requires Tracked(p) && Tracks(p, v, r, true, price) && r.totals == Add(p.totals, v)
    requires SystemColl(r.s) == SystemColl(p.s) && SystemDebt(r.s) == SystemDebt(p.s)
    ensures Tracked(r)
  {
    hide ComputeCR;
  }

  // Every batch is a sequence of rows: each of the table, for the trove as it was before the batch and the Stability Pool and
  // the ratio as the rows before it left them; the totals are their sum.
  lemma {:induction false} BatchByTable(s: Ledger, ids: seq<nat>, price: nat, recovery: bool)
    requires Books(s, NOTHING) && price > 0 && (recovery ==> RecoveryMode(s, price))
    ensures Batch(s, ids, price, recovery).Some? ==>
              ByTable(s, Rows(s, ids, price, recovery), price, recovery, Batch(s, ids, price, recovery).value)
    decreases |ids|
  {
    hide Books, BatchStep, InBatch, Tracked, ByTable, ComputeCR;
    if Batch(s, ids, price, recovery).None? { return; }
    if ids == [] {
      NoRows(s, price, recovery);
    } else {
      var shorter, i := ids[..|ids| - 1], ids[|ids| - 1];
      BatchByTable(s, shorter, price, recovery);
      var p, r := Batch(s, shorter, price, recovery).value, Batch(s, ids, price, recovery).value;
      if i < |p.s.troves| {
        BooksMeanGood(p, s, i);
        RowsStep(s, Rows(s, shorter, price, recovery), p, i, price, recovery, r);
      }
    }
  }

  lemma NoRows(s: Ledger, price: nat, recovery: bool)
    requires Books(s, NOTHING) && (recovery ==> RecoveryMode(s, price))
    ensures ByTable(s, [], price, recovery, Start(s))
  {
    hide ComputeCR;
    assert RatioWithout(s, [], price) == TCR(s, price);
    SurplusForAll(s);
    hide Books;
  }

  lemma SurplusForAll(s: Ledger)
    requires Books(s, NOTHING)
    ensures |s.surplus| == |s.troves|
  {
  }

  ghost function RowsOn(rows: seq<Row>, p: Progress, i: nat, r: Progress, recovery: bool): seq<Row> {
    if r.totals == p.totals then rows else rows + [Row(i, Between(p.totals, r.totals), recovery && !p.backToNormal)]
  }

  lemma RowsStep(s: Ledger, rows: seq<Row>, p: Progress, i: nat, price: nat, recovery: bool, r: Progress)
    requires InBatch(p, s) && InBatch(r, s) && (recovery && !p.backToNormal ==> Tracked(p)) && price > 0
    requires ByTable(s, rows, price, recovery, p) && i < |p.s.troves|
    requires GoodTrove(p.s, p.s.troves[i]) && |p.s.surplus| == |p.s.troves| && BatchStep(p, i, price, recovery) == Some(r)
    ensures ByTable(s, RowsOn(rows, p, i, r, recovery), price, recovery, r)
  {
    hide Books, BatchStep, InBatch, Tracked, RowApplies, AfterRows, ComputeCR, InTable, Liquidable, Tracks, TakesRow, RatioWithout;
    hide GoodTrove, EntireColl, EntireDebt, TotalOf, Add;
    var mode := recovery && !p.backToNormal;
    if mode {
      TrackersAre(s, rows, p, price);
      assert rows[..|rows|] == rows;
    }
    StepByTable(p, i, price, recovery, s);
    var debt, coll := EntireDebt(p.s, p.s.troves[i]), EntireColl(p.s, p.s.troves[i]);
    var v, tcr := Between(p.totals, r.totals), ComputeCR(p.sysColl, p.sysDebt, price);
    if p.s.troves[i].status.Active? && Liquidable(debt, coll, p.spLeft, mode, tcr, price) && (mode ==> Count(p.s) > 1) {
      DebtPositive(p.s, p.s.troves[i]);
      RowHasDebt(v, debt, coll, p.spLeft, mode, tcr, price, p, i, r);
      RowTaken(s, rows, p, i, v, price, recovery, r);
    } else {
      NothingTaken(s, rows, p, price, recovery, r);
    }
  }

  lemma RowHasDebt(v: Values, debt: nat, coll: nat, sp: nat, mode: bool, tcr: nat, price: nat, p: Progress, i: nat, r: Progress)
    requires InTable(v, debt, coll, sp, mode, tcr, price) && TakesRow(p, i, v, r) && debt > 0
    ensures r.totals != p.totals
  {
    hide ComputeCR;
  }

  lemma NothingTaken(s: Ledger, rows: seq<Row>, p: Progress, price: nat, recovery: bool, r: Progress)
    requires ByTable(s, rows, price, recovery, p) && TakesNothing(p, r) && r.backToNormal == p.backToNormal
    ensures ByTable(s, rows, price, recovery, r)
  {
    hide RowApplies, AfterRows, RatioWithout, TotalOf;
  }

  lemma RowTaken(s: Ledger, rows: seq<Row>, p: Progress, i: nat, v: Values, price: nat, recovery: bool, r: Progress)
    requires InBatch(p, s) && InBatch(r, s) && (recovery && !p.backToNormal ==> Tracked(p)) && ByTable(s, rows, price, recovery, p)
    requires i < |p.s.troves| && GoodTrove(p.s, p.s.troves[i]) && p.s.troves[i].status.Active?
    requires
      var mode := recovery && !p.backToNormal;
      && InTable(v, EntireDebt(p.s, p.s.troves[i]), EntireColl(p.s, p.s.troves[i]), p.spLeft, mode,
                 ComputeCR(p.sysColl, p.sysDebt, price), price)
      && TakesRow(p, i, v, r) && Tracks(p, v, r, mode, price)
    ensures ByTable(s, rows + [Row(i, v, recovery && !p.backToNormal)], price, recovery, r)
  {
    hide Books, Tracked, RowApplies, ComputeCR, InTable, RatioWithout, GoodTrove, EntireColl, EntireDebt, TotalOf, Add;
    var mode := recovery && !p.backToNormal;
    var row := Row(i, v, mode);
    NotYetTaken(s, rows, p, i);
    RowInTable(s, rows, p, i, v, mode, price);
    RowAppended(s, rows, row, price, recovery);
    AfterAppended(s, rows, row, p.s, r.s);
    if mode {
      TrackedOn(p, v, r, price);
      TrackersAre(s, rows + [row], r, price);
    }
  }

  // A trove that is active in the middle of a batch is as it was before.
  lemma NotYetTaken(s: Ledger, rows: seq<Row>, p: Progress, i: nat)
    requires InBatch(p, s) && AfterRows(s, rows, p.s) && i < |p.s.troves| && p.s.troves[i].status.Active?
    requires GoodTrove(p.s, p.s.troves[i])
    ensures forall k | 0 <= k < |rows| :: rows[k].id != i
    ensures i < |s.troves| && p.s.troves[i] == s.troves[i] && GoodTrove(s, s.troves[i])
    ensures EntireDebt(p.s, p.s.troves[i]) == EntireDebt(s, s.troves[i])
    ensures EntireColl(p.s, p.s.troves[i]) == EntireColl(s, s.troves[i])
  {
    hide Books;
  }

  lemma RowInTable(s: Ledger, rows: seq<Row>, p: Progress, i: nat, v: Values, mode: bool, price: nat)
    requires InBatch(p, s) && p.totals == TotalOf(rows) && (mode ==> Tracked(p)) && i < |s.troves| && GoodTrove(s, s.troves[i])
    requires InTable(v, EntireDebt(s, s.troves[i]), EntireColl(s, s.troves[i]), p.spLeft, mode,
                     ComputeCR(p.sysColl, p.sysDebt, price), price)
    ensures InTable(v, EntireDebt(s, s.troves[i]), EntireColl(s, s.troves[i]), Less(s.pool.total, TotalOf(rows).debtToOffset), mode,
                    RatioWithout(s, rows, price), price)
  {
    hide Books, ComputeCR, TotalOf, EntireDebt, EntireColl, GoodTrove, RatioWithout, OffsetRow, CappedRow;
    if mode {
      TrackersAre(s, rows, p, price);
    }
  }

  // ---- Which troves are taken ----

  // Trove i is due after the rows: still active, to be liquidated with what they left, and in Recovery Mode not the last one.
  ghost predicate Due(s: Ledger, rows: seq<Row>, i: nat, price: nat, recovery: bool) {
    && i < |s.troves| && s.troves[i].status.Active? && GoodTrove(s, s.troves[i]) && (forall k | 0 <= k < |rows| :: rows[k].id != i)
    && var mode := recovery && StillInRecovery(s, rows, price);
    && Liquidable(EntireDebt(s, s.troves[i]), EntireColl(s, s.troves[i]), Less(s.pool.total, TotalOf(rows).debtToOffset), mode,
                  RatioWithout(s, rows, price), price)
    && (mode ==> Count(s) - |rows| > 1)
  }

  // Every id of a batch adds its row exactly when it is due after the rows of the ids before it.
  lemma TakenExactly(s: Ledger, ids: seq<nat>, price: nat, recovery: bool)
    requires Books(s, NOTHING) && price > 0 && (recovery ==> RecoveryMode(s, price))
    requires ids != [] && Batch(s, ids, price, recovery).Some?
    ensures
      var i, rows, all := ids[|ids| - 1], Rows(s, ids[..|ids| - 1], price, recovery), Rows(s, ids, price, recovery);
      if Due(s, rows, i, price, recovery) then |all| == |rows| + 1 && all[..|rows|] == rows && all[|rows|].id == i
      else all == rows
  {
    hide Books, BatchStep, InBatch, Tracked, ByTable, ComputeCR, Due;
    var shorter, i := ids[..|ids| - 1], ids[|ids| - 1];
    BatchByTable(s, shorter, price, recovery);
    var p, r := Batch(s, shorter, price, recovery).value, Batch(s, ids, price, recovery).value;
    if i < |p.s.troves| {
      BooksMeanGood(p, s, i);
      DueIsTaken(s, Rows(s, shorter, price, recovery), p, i, price, recovery, r);
    } else {
      NotAnAccount(s, p, Rows(s, shorter, price, recovery), i, price, recovery);
    }
  }

  lemma NotAnAccount(s: Ledger, p: Progress, rows: seq<Row>, i: nat, price: nat, recovery: bool)
    requires InBatch(p, s) && i >= |p.s.troves|
    ensures !Due(s, rows, i, price, recovery)
  {
    hide Books;
  }

  lemma DueIsTaken(s: Ledger, rows: seq<Row>, p: Progress, i: nat, price: nat, recovery: bool, r: Progress)
    requires Books(s, NOTHING) && InBatch(p, s) && (recovery && !p.backToNormal ==> Tracked(p)) && price > 0
    requires ByTable(s, rows, price, recovery, p) && i < |p.s.troves|
    requires GoodTrove(p.s, p.s.troves[i]) && |p.s.surplus| == |p.s.troves| && BatchStep(p, i, price, recovery) == Some(r)
    ensures r.totals != p.totals <==> Due(s, rows, i, price, recovery)
  {
    hide Books, BatchStep, InBatch, Tracked, RowApplies, ComputeCR, InTable, Tracks, RatioWithout;
    hide EntireColl, EntireDebt, TotalOf, Add, Liquidable;
    var mode := recovery && !p.backToNormal;
    if mode {
      TrackersAre(s, rows, p, price);
      assert rows[..|rows|] == rows;
    }
    StepByTable(p, i, price, recovery, s);
    CountLeft(s, rows, p, price, recovery);
    PoolLeft(s, rows, p);
    if p.s.troves[i].status.Active? {
      NotYetTaken(s, rows, p, i);
      var debt, coll := EntireDebt(p.s, p.s.troves[i]), EntireColl(p.s, p.s.troves[i]);
      var v, tcr := Between(p.totals, r.totals), ComputeCR(p.sysColl, p.sysDebt, price);
      if Liquidable(debt, coll, p.spLeft, mode, tcr, price) && (mode ==> Count(p.s) > 1) {
        DebtPositive(p.s, p.s.troves[i]);
        RowHasDebt(v, debt, coll, p.spLeft, mode, tcr, price, p, i, r);
      }
      LiquidableInNormal(debt, coll, p.spLeft, tcr, RatioWithout(s, rows, price), price);
    } else {
      GoneOrIdle(s, rows, p, i);
    }
  }

  lemma LiquidableInNormal(debt: nat, coll: nat, sp: nat, tcr: nat, ratio: nat, price: nat)
    ensures Liquidable(debt, coll, sp, false, tcr, price) <==> Liquidable(debt, coll, sp, false, ratio, price)
  {
  }

  lemma GoneOrIdle(s: Ledger, rows: seq<Row>, p: Progress, i: nat)
    requires AfterRows(s, rows, p.s) && i < |s.troves| == |p.s.troves| && !p.s.troves[i].status.Active?
    ensures !s.troves[i].status.Active? || exists k | 0 <= k < |rows| :: rows[k].id == i
  {
  }

  lemma PoolLeft(s: Ledger, rows: seq<Row>, p: Progress)
    requires InBatch(p, s) && p.totals == TotalOf(rows)
    ensures p.spLeft == Less(s.pool.total, TotalOf(rows).debtToOffset) && |p.s.troves| == |s.troves|
  {
    hide Books, TotalOf;
  }

  // The rows' troves are those the batch has closed.
  lemma CountLeft(s: Ledger, rows: seq<Row>, p: Progress, price: nat, recovery: bool)
    requires Books(s, NOTHING) && InBatch(p, s) && ByTable(s, rows, price, recovery, p)
    ensures Count(p.s) == Count(s) - |rows|
  {
    hide RowApplies, RatioWithout, TotalOf, AfterRows, Sum, SP.Valid, GoodTrove, CollClaimsCovered, ErrorsBelowStakes;
    hide SurplusMatches;
    ReserveOfRows(s, rows, price, recovery);
  }

  lemma {:induction false} ReserveOfRows(s: Ledger, rows: seq<Row>, price: nat, recovery: bool)
    requires forall k | 0 <= k < |rows| :: RowApplies(s, rows, k, price, recovery)
    ensures TotalOf(rows).thusdGas == GAS_COMPENSATION * |rows|
    decreases |rows|
  {
    hide ComputeCR, EntireColl, EntireDebt, GoodTrove, RatioWithout, StillInRecovery;
    if rows != [] {
      var n := |rows| - 1;
      forall k | 0 <= k < n ensures RowApplies(s, rows[..n], k, price, recovery) {
        assert RowApplies(s, rows, k, price, recovery);
        assert rows[..n][..k] == rows[..k];
      }
      ReserveOfRows(s, rows[..n], price, recovery);
      assert RowApplies(s, rows, n, price, recovery);
    }
  }

  // ---- When a liquidation reverts ----

  // A step of a batch reverts exactly when the trove is due and either its pending debt is more than the default pool holds
  // or, in Normal Mode, it is the last one while troves can still be opened.
  lemma StepRevertsExactly(p: Progress, i: nat, price: nat, recovery: bool, start: Ledger)
    requires InBatch(p, start) && i < |p.s.troves| && price > 0 && (recovery && !p.backToNormal ==> Tracked(p))
    ensures GoodTrove(p.s, p.s.troves[i]) && |p.s.surplus| == |p.s.troves|
    ensures
      var t, mode := p.s.troves[i], recovery && !p.backToNormal;
      BatchStep(p, i, price, recovery).None? <==>
      && t.status.Active? && (mode ==> Count(p.s) > 1)
      && Liquidable(EntireDebt(p.s, t), EntireColl(p.s, t), p.spLeft, mode, ComputeCR(p.sysColl, p.sysDebt, price), price)
      && (PendingDebt(p.s, t) > p.s.defaultDebt || (p.s.canMint && Count(p.s) <= 1))
  {
    hide Book, RecoveryValues, NormalValues, ComputeCR, PendingColl, PendingDebt, Sum, Books, Liquidable, InTable, Tracked;
    BooksMeanGood(p, start, i);
    var t := p.s.troves[i];
    if t.status.Active? {
      var debt, coll := EntireDebt(p.s, t), EntireColl(p.s, t);
      var icr, tcr := ICR(p.s, i, price), ComputeCR(p.sysColl, p.sysDebt, price);
      DebtPositive(p.s, t);
      LiquidableIs(debt, coll, p.spLeft, tcr, price);
      if recovery && !p.backToNormal {
        RecoveryTable(debt, coll, icr, p.spLeft, tcr, price);
        var v := RecoveryValues(debt, coll, icr, p.spLeft, tcr, price).value;
        if v != ZERO_VALUES {
          RowWithin(v, debt, coll, p.spLeft, true, tcr, price);
          BookExactly(p, i, v, price, true, start);
        }
      } else {
        NormalTable(debt, coll, p.spLeft, price);
        if icr < MCR {
          RowWithin(NormalValues(debt, coll, p.spLeft).value, debt, coll, p.spLeft, false, 0, price);
          BookExactly(p, i, NormalValues(debt, coll, p.spLeft).value, price, false, start);
        }
      }
    }
  }

  lemma RowWithin(v: Values, debt: nat, coll: nat, sp: nat, recovery: bool, tcr: nat, price: nat)
    requires InTable(v, debt, coll, sp, recovery, tcr, price)
    ensures v.debtToOffset <= debt && v.debtToOffset <= sp && v.collToSP + v.collGas + v.collSurplus <= coll
  {
    hide ComputeCR;
  }

  lemma BookExactly(p: Progress, i: nat, v: Values, price: nat, tracked: bool, start: Ledger)
    requires InBatch(p, start) && i < |p.s.troves| && p.s.troves[i].status.Active? && (tracked ==> Tracked(p))
    requires GoodTrove(p.s, p.s.troves[i]) && |p.s.surplus| == |p.s.troves|
    requires v.debtToOffset <= EntireDebt(p.s, p.s.troves[i]) && v.debtToOffset <= p.spLeft
    requires v.collToSP + v.collGas + v.collSurplus <= EntireColl(p.s, p.s.troves[i])
    ensures Book(p, i, v, price, tracked).None? <==>
              PendingDebt(p.s, p.s.troves[i]) > p.s.defaultDebt || (p.s.canMint && Count(p.s) <= 1)
  {
    hide PendingColl, PendingDebt, GoodTrove, Sum, ComputeCR, SP.Valid, CollClaims, DebtClaims;
    PendingCollInPool(p.s, i);
    TroveInPools(p.s, i, LimboOf(p.totals));
    SameCount(p.s, p.s.(applications := p.s.applications + 1));
  }

  // A whole liquidation goes through exactly when its batch does and takes a trove, the Stability Pool takes its part, and
  // there are stakes left for a redistribution.
  lemma LiquidateExactly(s: Ledger, ids: seq<nat>, price: nat)
    requires Inv(s) && price > 0
    ensures
      var batch := Batch(s, ids, price, RecoveryMode(s, price));
      Liquidate(s, ids, price).Some? <==>
      && batch.Some? && Rows(s, ids, price, RecoveryMode(s, price)) != []
      && var t := batch.value.totals;
      && (s.pool.total == 0 || t.debtToOffset == 0 || SP.Offset(s.pool, t.debtToOffset, t.collToSP).Some?)
      && (t.debtToRedistribute == 0 || batch.value.s.totalStakes > 0)
  {
    hide Books, Batch, Settle, ComputeCR, Rows, InBatch, TokensMatchDebt, ByTable, SP.Offset;
    InvBooks(s);
    var recovery := RecoveryMode(s, price);
    if Batch(s, ids, price, recovery).Some? {
      BatchByTable(s, ids, price, recovery);
      var p := Batch(s, ids, price, recovery).value;
      RowsHaveDebt(s, Rows(s, ids, price, recovery), price, recovery, p);
      SettleExactly(s, p);
      EmptyBatch(s, ids, price, recovery);
    }
  }

  lemma EmptyBatch(s: Ledger, ids: seq<nat>, price: nat, recovery: bool)
    requires Books(s, NOTHING) && price > 0
    ensures ids == [] ==> Rows(s, ids, price, recovery) == []
  {
    hide Books;
  }

  lemma RowsHaveDebt(s: Ledger, rows: seq<Row>, price: nat, recovery: bool, p: Progress)
    requires ByTable(s, rows, price, recovery, p)
    ensures rows == [] <==> p.totals.debt == 0
  {
    hide RatioWithout, StillInRecovery, AfterRows, ComputeCR, EntireColl, GoodTrove;
    if rows != [] {
      var n := |rows| - 1;
      assert RowApplies(s, rows, n, price, recovery);
      DebtPositive(s, s.troves[rows[n].id]);
    }
  }

  lemma SettleExactly(s: Ledger, p: Progress)
    requires InBatch(p, s) && TokensMatchDebt(s)
    ensures
      var t := p.totals;
      Settle(p.s, t).Some? <==>
      && t.debt > 0 && (s.pool.total == 0 || t.debtToOffset == 0 || SP.Offset(s.pool, t.debtToOffset, t.collToSP).Some?)
      && (t.debtToRedistribute == 0 || p.s.totalStakes > 0)
  {
    hide SP.Offset, PerUnit, Carried, Synced, DebtClaimsCovered, SP.Valid, CollClaimsCovered, ErrorsBelowStakes, GoodTrove, Sum;
    SumNonNegative(Colls(p.s));
    SumNonNegative(Debts(p.s));
    SumNonNegative(Actives(p.s.troves));
    WholeReserve(p.totals.thusdGas);
    OffsetFields(p.s.pool, p.totals.debtToOffset, p.totals.collToSP);
  }

  lemma WholeReserve(x: nat)
    ensures x % GAS_COMPENSATION == 0 ==> GAS_COMPENSATION * (x / GAS_COMPENSATION) == x
  {
  }

  // ---- What the whole liquidation moves ----

  // In Normal Mode the batch offsets all debt it takes, as far as the Stability Pool reaches; nobody keeps a surplus. The
  // caller gets 200 thUSD for every trove and a two-hundredth of each one's collateral, rounded down.
  lemma {:induction false} NormalTotals(s: Ledger, rows: seq<Row>, price: nat)
    requires forall k | 0 <= k < |rows| :: RowApplies(s, rows, k, price, false)
    ensures
      var t := TotalOf(rows);
      && t.debtToOffset == (if t.debt <= s.pool.total then t.debt else s.pool.total)
      && t.debtToRedistribute == t.debt - t.debtToOffset && t.collSurplus == 0
      && t.thusdGas == GAS_COMPENSATION * |rows|
      && 0 <= t.coll - PERCENT_DIVISOR * t.collGas <= (PERCENT_DIVISOR - 1) * |rows|
    decreases |rows|
  {
    hide ComputeCR, EntireColl, EntireDebt, GoodTrove, RatioWithout, StillInRecovery;
    ReserveOfRows(s, rows, price, false);
    if rows != [] {
      var n := |rows| - 1;
      forall k | 0 <= k < n ensures RowApplies(s, rows[..n], k, price, false) {
        assert RowApplies(s, rows, k, price, false);
        assert rows[..n][..k] == rows[..k];
      }
      NormalTotals(s, rows[..n], price);
      assert RowApplies(s, rows, n, price, false);
    }
  }

  // What a liquidation with these totals moves: debt and collateral to the Stability Pool, the gas reserve and the caller's
  // collateral to the caller, the surplus to the surplus pool, and the rest to the accumulators.
  ghost predicate Moved(s: Ledger, t: Totals, r: Ledger) {
    && SystemColl(r) == SystemColl(s) - (t.collToSP + t.collGas + t.collSurplus) && SystemDebt(r) == SystemDebt(s) - t.debtToOffset
    && r.pool.total == s.pool.total - t.debtToOffset && r.pool.collateral == s.pool.collateral + t.collToSP
    && r.supply == s.supply - t.debtToOffset && r.surplusColl == s.surplusColl + t.collSurplus
    && r.gasPool == s.gasPool - t.thusdGas && r.held == s.held + t.thusdGas
    && (r.LColl - s.LColl) * r.totalStakes + r.collError
       == (if t.debtToRedistribute == 0 then 0 else t.collToRedistribute * PRECISION) + s.collError
    && (r.LDebt - s.LDebt) * r.totalStakes + r.debtError == t.debtToRedistribute * PRECISION + s.debtError
  }

  // A whole liquidation, by the rows of the troves it takes.
  lemma LiquidationByTable(s: Ledger, ids: seq<nat>, price: nat)
    requires Inv(s) && price > 0
    ensures Liquidate(s, ids, price).Some? ==>
      var r := Liquidate(s, ids, price).value;
      var p := Batch(s, ids, price, RecoveryMode(s, price)).value;
      var rows := Rows(s, ids, price, RecoveryMode(s, price));
      rows != [] && ByTable(s, rows, price, RecoveryMode(s, price), p) && AfterRows(s, rows, r) && Moved(s, TotalOf(rows), r)
  {
    hide Books, Batch, Settle, DebtClaimsCovered, Synced, ComputeCR, RowApplies, TotalOf, Rows, InBatch, TokensMatchDebt;
    InvBooks(s);
    if Liquidate(s, ids, price).Some? {
      BatchByTable(s, ids, price, RecoveryMode(s, price));
      var p := Batch(s, ids, price, RecoveryMode(s, price)).value;
      SettleMoves(s, p);
      NothingInNoRows();
    }
  }

  lemma NothingInNoRows()
    ensures TotalOf([]) == NO_TOTALS
  {
  }

  lemma SettleMoves(s: Ledger, p: Progress)
    requires InBatch(p, s) && Settle(p.s, p.totals).Some?
    ensures
      var r := Settle(p.s, p.totals).value;
      && p.totals.debt > 0 && r.troves == p.s.troves && r.surplus == p.s.surplus && Moved(s, p.totals, r)
  {
    hide Books, SP.Offset, PerUnit, Carried, Synced, DebtClaimsCovered;
    OffsetFields(p.s.pool, p.totals.debtToOffset, p.totals.collToSP);
    var a := ApplyOffset(p.s, p.totals.debtToOffset, p.totals.collToSP).value;
    RedistributeFields(a, p.totals.debtToRedistribute, p.totals.collToRedistribute);
    hide Redistribute;
  }
}
