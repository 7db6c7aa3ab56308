/** Redistribution through corrected stakes, in exact arithmetic: why one ratio between stake and
    collateral holds for all active troves at all times, and why that keeps the sorted list in order. */
module CorrectedStakes {
  import opened Common

  // `coll` and `debt` are the stored values; rewards since the two snapshots are pending.
  datatype Trove = Trove(active: bool, coll: real, debt: real, stake: real, collSnapshot: real, debtSnapshot: real)

  const CLOSED := Trove(false, 0.0, 0.0, 0.0, 0.0, 0.0)

  // systemColl: collateral of the active and default pools together, without what a liquidation in
  // progress has taken out of the troves and not yet placed.
  datatype System = System(
    troves: seq<Trove>, LColl: real, LDebt: real, totalStakes: real,
    totalStakesSnapshot: real, totalCollSnapshot: real, systemColl: real)

  datatype Op =
    | Open(id: nat, coll: real, debt: real)
    | Adjust(id: nat, collChange: real, debtChange: real)
    | Close(id: nat)
    | Liquidate(ids: seq<nat>, collToRedistribute: real, debtToRedistribute: real)

  function EntireColl(s: System, t: Trove): real {
    t.coll + t.stake * (s.LColl - t.collSnapshot)
  }

  function EntireDebt(s: System, t: Trove): real {
    t.debt + t.stake * (s.LDebt - t.debtSnapshot)
  }

  // _computeNewStake
  function NewStake(s: System, coll: real): real {
    if s.totalCollSnapshot == 0.0 then coll else coll * s.totalStakesSnapshot / s.totalCollSnapshot
  }

  // Store a trove with nothing pending, a fresh stake and fresh snapshots; the pools follow the change
  // of its entire collateral.
  function Put(s: System, i: nat, coll: real, debt: real): System
    requires i < |s.troves|
  {
    var t := s.troves[i];
    var stake := NewStake(s, coll);
    s.(troves := s.troves[i := Trove(true, coll, debt, stake, s.LColl, s.LDebt)],
       totalStakes := s.totalStakes - t.stake + stake,
       systemColl := s.systemColl - EntireColl(s, t) + coll)
  }

  // Apply the pending rewards, remove the stake, close: the entire collateral leaves the system.
  function Remove(s: System, i: nat): System
    requires i < |s.troves|
  {
    var t := s.troves[i];
    s.(troves := s.troves[i := CLOSED], totalStakes := s.totalStakes - t.stake,
       systemColl := s.systemColl - EntireColl(s, t))
  }

  // The troves of a liquidation sequence, one after the other; inactive ones are skipped.
  function RemoveAll(s: System, ids: seq<nat>): (r: System)
    ensures |r.troves| == |s.troves|
  {
    if ids == [] then s
    else
      var q := RemoveAll(s, ids[..|ids| - 1]);
      var i := ids[|ids| - 1];
      if i < |q.troves| && q.troves[i].active then Remove(q, i) else q
  }

  // _redistributeDebtAndColl followed by _updateSystemSnapshots_excludeCollRemainder.
  function Redistribute(s: System, coll: real, debt: real): System
    requires s.totalStakes > 0.0
  {
    var q :=
      if debt == 0.0 then s
      else s.(LColl := s.LColl + coll / s.totalStakes, LDebt := s.LDebt + debt / s.totalStakes,
              systemColl := s.systemColl + coll);
    q.(totalStakesSnapshot := q.totalStakes, totalCollSnapshot := q.systemColl)
  }

  // An operation that the contracts would refuse changes nothing.
  function Step(s: System, op: Op): System {
    match op
    case Open(i, coll, debt) =>
      if i >= |s.troves| || s.troves[i].active || coll <= 0.0 || debt <= 0.0 then s else Put(s, i, coll, debt)
    case Adjust(i, dc, dd) =>
      if i >= |s.troves| || !s.troves[i].active then s
      else
        var coll, debt := EntireColl(s, s.troves[i]) + dc, EntireDebt(s, s.troves[i]) + dd;
        if coll <= 0.0 || debt <= 0.0 then s else Put(s, i, coll, debt)
    case Close(i) =>
      if i >= |s.troves| || !s.troves[i].active then s else Remove(s, i)
    case Liquidate(ids, coll, debt) =>
      var q := RemoveAll(s, ids);
      if q.totalStakes <= 0.0 || coll < 0.0 || debt < 0.0 || (debt == 0.0 && coll > 0.0) then s
      else Redistribute(q, coll, debt)
  }

  function Run(n: nat, ops: seq<Op>): System {
    if ops == [] then System(seq(n, _ => CLOSED), 0.0, 0.0, 0.0, 0.0, 0.0, 0.0)
    else Step(Run(n, ops[..|ops| - 1]), ops[|ops| - 1])
  }

  // ---- The invariant ----

  // The ratio at which new stakes are cut.
  function Ratio(s: System): real {
    if s.totalCollSnapshot == 0.0 then 1.0 else s.totalStakesSnapshot / s.totalCollSnapshot
  }

  ghost predicate GoodTrove(s: System, t: Trove) {
    if t.active then EntireColl(s, t) > 0.0 && EntireDebt(s, t) > 0.0 && t.stake == Ratio(s) * EntireColl(s, t)
    else t == CLOSED
  }

  function Stakes(s: System): (xs: seq<real>)
    ensures |xs| == |s.troves| && forall i | 0 <= i < |xs| :: xs[i] == s.troves[i].stake
  {
    seq(|s.troves|, i requires 0 <= i < |s.troves| => s.troves[i].stake)
  }

  function Colls(s: System): (xs: seq<real>)
    ensures |xs| == |s.troves| && forall i | 0 <= i < |xs| :: xs[i] == EntireColl(s, s.troves[i])
  {
    seq(|s.troves|, i requires 0 <= i < |s.troves| => EntireColl(s, s.troves[i]))
  }

  ghost predicate Inv(s: System) {
    && s.totalCollSnapshot >= 0.0 && Ratio(s) > 0.0
    && (forall i | 0 <= i < |s.troves| :: GoodTrove(s, s.troves[i]))
    && s.totalStakes == RealSum(Stakes(s))
    && s.systemColl == RealSum(Colls(s))
  }

  lemma ClosedTrove(s: System)
    ensures EntireColl(s, CLOSED) == 0.0 && EntireDebt(s, CLOSED) == 0.0 && GoodTrove(s, CLOSED)
  {
  }

  lemma FreshTrove(s: System, coll: real, debt: real)
    requires s.totalCollSnapshot >= 0.0 && Ratio(s) > 0.0 && coll > 0.0 && debt > 0.0
    ensures
      var t := Trove(true, coll, debt, NewStake(s, coll), s.LColl, s.LDebt);
      EntireColl(s, t) == coll && EntireDebt(s, t) == debt && GoodTrove(s, t)
  {
    hide Ratio, NewStake;
    StakeAtRatio(s, coll);
    NothingPending(s, Trove(true, coll, debt, NewStake(s, coll), s.LColl, s.LDebt));
  }

  lemma StakeAtRatio(s: System, coll: real)
    requires s.totalCollSnapshot >= 0.0
    ensures NewStake(s, coll) == Ratio(s) * coll
  {
  }

  lemma NothingPending(s: System, t: Trove)
    requires t.collSnapshot == s.LColl && t.debtSnapshot == s.LDebt
    ensures EntireColl(s, t) == t.coll && EntireDebt(s, t) == t.debt
  {
    assert s.LColl - t.collSnapshot == 0.0 && s.LDebt - t.debtSnapshot == 0.0;
  }

  lemma SameReading(s: System, q: System, t: Trove)
    requires q.LColl == s.LColl && q.LDebt == s.LDebt
    ensures EntireColl(q, t) == EntireColl(s, t) && EntireDebt(q, t) == EntireDebt(s, t)
    ensures Ratio(q) == Ratio(s) ==> GoodTrove(q, t) == GoodTrove(s, t)
  {
  }

  // What opening, adjusting and closing do to the entire amounts: those of the trove change as asked, those of the others stay.
  lemma ChangeEffect(s: System, op: Op)
    requires Inv(s) && !op.Liquidate? && op.id < |s.troves|
    ensures
      var i, r := op.id, Step(s, op);
      var coll, debt := EntireColl(s, s.troves[i]), EntireDebt(s, s.troves[i]);
      && |r.troves| == |s.troves|
      && (op.Open? && !s.troves[i].active && op.coll > 0.0 && op.debt > 0.0 ==>
            r.troves[i].active && EntireColl(r, r.troves[i]) == op.coll && EntireDebt(r, r.troves[i]) == op.debt)
      && (op.Adjust? && s.troves[i].active && coll + op.collChange > 0.0 && debt + op.debtChange > 0.0 ==>
            && r.troves[i].active && EntireColl(r, r.troves[i]) == coll + op.collChange
            && EntireDebt(r, r.troves[i]) == debt + op.debtChange)
      && (op.Close? && s.troves[i].active ==> r.troves[i] == CLOSED && r.systemColl == s.systemColl - coll)
      && forall j | 0 <= j < |s.troves| && j != i ::
           && r.troves[j] == s.troves[j]
           && EntireColl(r, r.troves[j]) == EntireColl(s, s.troves[j]) && EntireDebt(r, r.troves[j]) == EntireDebt(s, s.troves[j])
  {
    hide Inv, EntireColl, EntireDebt, NewStake;
    var i, r := op.id, Step(s, op);
    forall j | 0 <= j < |s.troves| && j != i
      ensures EntireColl(r, r.troves[j]) == EntireColl(s, s.troves[j]) && EntireDebt(r, r.troves[j]) == EntireDebt(s, s.troves[j])
    {
      SameReading(s, r, s.troves[j]);
    }
    NothingPendingIfFresh(r, r.troves[i]);
  }

  lemma NothingPendingIfFresh(s: System, t: Trove)
    ensures t.collSnapshot == s.LColl && t.debtSnapshot == s.LDebt ==> EntireColl(s, t) == t.coll && EntireDebt(s, t) == t.debt
  {
    if t.collSnapshot == s.LColl && t.debtSnapshot == s.LDebt {
      NothingPending(s, t);
    }
  }

  // Replacing one trove by a good one keeps the invariant when the totals follow.
  lemma ReplaceKeepsInv(s: System, i: nat, t: Trove)
    requires Inv(s) && i < |s.troves| && GoodTrove(s, t)
    ensures
      var was := s.troves[i];
      Inv(s.(troves := s.troves[i := t], totalStakes := s.totalStakes - was.stake + t.stake,
             systemColl := s.systemColl - EntireColl(s, was) + EntireColl(s, t)))
  {
    hide RealSum, EntireColl, EntireDebt, GoodTrove;
    var was := s.troves[i];
    var q := s.(troves := s.troves[i := t], totalStakes := s.totalStakes - was.stake + t.stake,
                systemColl := s.systemColl - EntireColl(s, was) + EntireColl(s, t));
    SameReading(s, q, t);
    forall j | 0 <= j < |s.troves|
      ensures GoodTrove(q, q.troves[j]) && (j != i ==> Colls(q)[j] == Colls(s)[j])
    {
      assert GoodTrove(s, s.troves[j]);
      SameReading(s, q, s.troves[j]);
    }
    assert Stakes(q) == Stakes(s)[i := t.stake];
    assert Colls(q) == Colls(s)[i := EntireColl(s, t)];
    RealSumUpdate(Stakes(s), i, t.stake);
    RealSumUpdate(Colls(s), i, EntireColl(s, t));
  }

  lemma {:induction false} RemoveAllKeepsInv(s: System, ids: seq<nat>)
    requires Inv(s)
    ensures Inv(RemoveAll(s, ids))
  {
    hide Inv, RealSum;
    if ids != [] {
      RemoveAllKeepsInv(s, ids[..|ids| - 1]);
      var q := RemoveAll(s, ids[..|ids| - 1]);
      var i := ids[|ids| - 1];
      ClosedTrove(q);
      if i < |q.troves| && q.troves[i].active {
        ReplaceKeepsInv(q, i, CLOSED);
      }
    }
  }

  lemma TotalsInRatio(s: System)
    requires Inv(s)
    ensures s.totalStakes == Ratio(s) * s.systemColl
  {
    hide EntireColl, Ratio, RealSum;
    forall i | 0 <= i < |s.troves| ensures Stakes(s)[i] * 1.0 == Ratio(s) * Colls(s)[i] {
      assert GoodTrove(s, s.troves[i]);
      ClosedTrove(s);
    }
    RealSumProportion(Colls(s), Stakes(s), Ratio(s), 1.0);
  }

  // What a redistribution does to one trove: collateral grows by the factor k, debt by q for every unit
  // of collateral, with the same k and q for all active troves.
  lemma RedistributeOne(s: System, coll: real, debt: real, t: Trove)
    requires Inv(s) && s.totalStakes > 0.0 && coll >= 0.0 && debt > 0.0 && GoodTrove(s, t) && t.active
    ensures s.systemColl > 0.0
    ensures
      var r := Redistribute(s, coll, debt);
      && EntireColl(r, t) == EntireColl(s, t) * ((s.systemColl + coll) / s.systemColl)
      && EntireDebt(r, t) == EntireDebt(s, t) + debt / s.systemColl * EntireColl(s, t)
      && GoodTrove(r, t)
  {
    TotalsInRatio(s);
    hide Inv, GoodTrove, EntireColl, EntireDebt, Redistribute;
    assert s.systemColl > 0.0 by { PositiveFactor(Ratio(s), s.systemColl); }
    RedistributeTrove(s, coll, debt, t);
  }

  lemma PositiveFactor(a: real, b: real)
    requires a > 0.0 && a * b > 0.0
    ensures b > 0.0
  {
  }

  lemma RedistributeTrove(s: System, coll: real, debt: real, t: Trove)
    requires s.totalStakes == Ratio(s) * s.systemColl && s.totalStakes > 0.0 && s.systemColl > 0.0 && Ratio(s) > 0.0
    requires coll >= 0.0 && debt > 0.0 && GoodTrove(s, t) && t.active
    ensures
      var r := Redistribute(s, coll, debt);
      && EntireColl(r, t) == EntireColl(s, t) * ((s.systemColl + coll) / s.systemColl)
      && EntireDebt(r, t) == EntireDebt(s, t) + debt / s.systemColl * EntireColl(s, t)
      && GoodTrove(r, t)
  {
    var r := Redistribute(s, coll, debt);
    RedistributeValues(s, coll, debt, t);
    var e, S, C := EntireColl(s, t), s.totalStakes, s.systemColl;
    RatioAfter(Ratio(s), e, S, C, coll);
    hide EntireColl, EntireDebt;
    RealNonNegative(debt / C, e);
    assert Ratio(r) == S / (C + coll);
  }

  lemma RedistributeValues(s: System, coll: real, debt: real, t: Trove)
    requires s.totalStakes == Ratio(s) * s.systemColl && s.totalStakes > 0.0 && s.systemColl > 0.0 && debt > 0.0
    requires t.stake == Ratio(s) * EntireColl(s, t)
    ensures
      var r := Redistribute(s, coll, debt);
      && EntireColl(r, t) == EntireColl(s, t) + coll / s.systemColl * EntireColl(s, t)
      && EntireDebt(r, t) == EntireDebt(s, t) + debt / s.systemColl * EntireColl(s, t)
  {
    var e, S, C := EntireColl(s, t), s.totalStakes, s.systemColl;
    ShareOf(Ratio(s), e, S, C, coll);
    ShareOf(Ratio(s), e, S, C, debt);
    AccumulatorStep(t.coll, t.stake, s.LColl, t.collSnapshot, coll / S);
    AccumulatorStep(t.debt, t.stake, s.LDebt, t.debtSnapshot, debt / S);
  }

  lemma AccumulatorStep(base: real, stake: real, L: real, snapshot: real, step: real)
    ensures base + stake * (L + step - snapshot) == base + stake * (L - snapshot) + stake * step
  {
  }

  lemma ShareOf(ratio: real, e: real, S: real, C: real, x: real)
    requires S == ratio * C && S > 0.0 && C > 0.0
    ensures ratio * e * (x / S) == x / C * e
  {
    assert x / S * S == x;
    assert ratio * e * (x / S) * C == e * x;
    assert x / C * e * C == e * x;
  }

  lemma RatioAfter(ratio: real, e: real, S: real, C: real, coll: real)
    requires S == ratio * C && S > 0.0 && C > 0.0 && coll >= 0.0 && e > 0.0
    ensures e * ((C + coll) / C) > 0.0
    ensures e + coll / C * e == e * ((C + coll) / C)
    ensures S / (C + coll) > 0.0 && S / (C + coll) * (e * ((C + coll) / C)) == ratio * e
  {
    var D := C + coll;
    SumOverCommon(C, coll);
    assert e + coll / C * e == e * (1.0 + coll / C);
    assert D / C * C == D;
    assert S / D * D == S;
    assert S / D * (e * (D / C)) * C == S / D * (e * D) == S * e;
    assert ratio * e * C == S * e;
  }

  lemma SumOverCommon(C: real, x: real)
    requires C > 0.0
    ensures (C + x) / C == 1.0 + x / C
  {
    var y, z := x / C, (C + x) / C;
    assert y * C == x && z * C == C + x;
    var w := z - 1.0 - y;
    assert w * C == z * C - C - y * C == 0.0;
    RealSigns(w, C);
  }

  lemma RedistributeKeepsInv(s: System, coll: real, debt: real)
    requires Inv(s) && s.totalStakes > 0.0 && coll >= 0.0 && debt >= 0.0 && (debt == 0.0 ==> coll == 0.0)
    ensures Inv(Redistribute(s, coll, debt))
  {
    hide RealSum;
    TotalsInRatio(s);
    var r := Redistribute(s, coll, debt);
    PositiveFactor(Ratio(s), s.systemColl);
    assert Stakes(r) == Stakes(s);
    if debt == 0.0 {
      SnapshotKeepsRatio(s);
      hide EntireColl, EntireDebt;
      forall i | 0 <= i < |s.troves| ensures GoodTrove(r, r.troves[i]) && Colls(r)[i] == Colls(s)[i] {
        assert GoodTrove(s, s.troves[i]);
        SameReading(s, r, s.troves[i]);
      }
      assert Colls(r) == Colls(s);
    } else {
      EachRedistributed(s, coll, debt);
      hide EntireColl, EntireDebt, GoodTrove;
      RealSumScaled(Colls(s), Colls(r), (s.systemColl + coll) / s.systemColl);
      assert (s.systemColl + coll) / s.systemColl * s.systemColl == s.systemColl + coll;
      assert r.totalStakesSnapshot / r.totalCollSnapshot > 0.0;
    }
  }

  lemma SnapshotKeepsRatio(s: System)
    requires s.totalStakes == Ratio(s) * s.systemColl && s.systemColl > 0.0
    ensures Ratio(s.(totalStakesSnapshot := s.totalStakes, totalCollSnapshot := s.systemColl)) == Ratio(s)
  {
  }

  lemma RealSumScaled(xs: seq<real>, ys: seq<real>, k: real)
    requires |xs| == |ys| && forall i | 0 <= i < |xs| :: ys[i] == xs[i] * k
    ensures RealSum(ys) == k * RealSum(xs)
  {
    hide RealSum;
    RealSumProportion(xs, ys, k, 1.0);
  }

  lemma EachRedistributed(s: System, coll: real, debt: real)
    requires Inv(s) && s.totalStakes > 0.0 && s.systemColl > 0.0 && coll >= 0.0 && debt > 0.0
    ensures
      var r := Redistribute(s, coll, debt);
      && (forall i | 0 <= i < |s.troves| :: GoodTrove(r, r.troves[i]))
      && (forall i | 0 <= i < |s.troves| :: Colls(r)[i] == Colls(s)[i] * ((s.systemColl + coll) / s.systemColl))
  {
    var r := Redistribute(s, coll, debt);
    forall i | 0 <= i < |s.troves|
      ensures GoodTrove(r, r.troves[i]) && Colls(r)[i] == Colls(s)[i] * ((s.systemColl + coll) / s.systemColl)
    {
      assert GoodTrove(s, s.troves[i]);
      hide Inv, EntireColl, EntireDebt, Redistribute;
      ClosedTrove(s);
      ClosedTrove(r);
      RedistributeKeepsTroves(s, coll, debt);
      if s.troves[i].active {
        RedistributeOne(s, coll, debt, s.troves[i]);
      }
    }
  }

  lemma RedistributeKeepsTroves(s: System, coll: real, debt: real)
    requires s.totalStakes > 0.0
    ensures Redistribute(s, coll, debt).troves == s.troves
  {
  }

  lemma StepKeepsInv(s: System, op: Op)
    requires Inv(s)
    ensures Inv(Step(s, op))
  {
    hide Inv, EntireDebt;
    match op
    case Open(i, coll, debt) =>
      if i < |s.troves| && !s.troves[i].active && coll > 0.0 && debt > 0.0 {
        PutKeepsInv(s, i, coll, debt);
      }
    case Adjust(i, dc, dd) =>
      if i < |s.troves| && s.troves[i].active {
        var coll, debt := EntireColl(s, s.troves[i]) + dc, EntireDebt(s, s.troves[i]) + dd;
        if coll > 0.0 && debt > 0.0 {
          PutKeepsInv(s, i, coll, debt);
        }
      }
    case Close(i) =>
      if i < |s.troves| && s.troves[i].active {
        ClosedTrove(s);
        ReplaceKeepsInv(s, i, CLOSED);
      }
    case Liquidate(ids, coll, debt) =>
      RemoveAllKeepsInv(s, ids);
      hide RemoveAll, Redistribute;
      var q := RemoveAll(s, ids);
      if q.totalStakes > 0.0 && coll >= 0.0 && debt >= 0.0 && (debt == 0.0 ==> coll == 0.0) {
        RedistributeKeepsInv(q, coll, debt);
      }
  }

  lemma PutKeepsInv(s: System, i: nat, coll: real, debt: real)
    requires Inv(s) && i < |s.troves| && coll > 0.0 && debt > 0.0
    ensures Inv(Put(s, i, coll, debt))
  {
    FreshTrove(s, coll, debt);
    hide Inv, GoodTrove;
    ReplaceKeepsInv(s, i, Trove(true, coll, debt, NewStake(s, coll), s.LColl, s.LDebt));
  }

  lemma {:induction false} RunKeepsInv(n: nat, ops: seq<Op>)
    ensures Inv(Run(n, ops))
  {
    if ops == [] {
      var s := Run(n, ops);
      ClosedTrove(s);
      RealSumZero(Stakes(s));
      RealSumZero(Colls(s));
    } else {
      hide Inv, Step;
      RunKeepsInv(n, ops[..|ops| - 1]);
      StepKeepsInv(Run(n, ops[..|ops| - 1]), ops[|ops| - 1]);
    }
  }

  // In every reachable state all active troves, old and new, have the same ratio between stake and
  // entire collateral: the one at which a trove opened now would be given its stake.
  lemma OneRatioForAll(n: nat, ops: seq<Op>, i: nat)
    requires i < |Run(n, ops).troves| && Run(n, ops).troves[i].active
    ensures
      var s := Run(n, ops);
      var t := s.troves[i];
      && EntireColl(s, t) > 0.0
      && t.stake == NewStake(s, EntireColl(s, t))
      && (s.totalCollSnapshot > 0.0 ==> t.stake * s.totalCollSnapshot == EntireColl(s, t) * s.totalStakesSnapshot)
  {
    hide Run, EntireColl;
    RunKeepsInv(n, ops);
    var s := Run(n, ops);
    assert GoodTrove(s, s.troves[i]);
    var e, a, b := EntireColl(s, s.troves[i]), s.totalStakesSnapshot, s.totalCollSnapshot;
    if b > 0.0 {
      assert a / b * e == e * a / b;
      assert e * a / b * b == e * a;
    }
  }

  // ---- Order ----

  // a has a collateral ratio at least as high as b's (debts are positive, so this is the ratio order).
  ghost predicate AtLeast(s: System, a: Trove, b: Trove) {
    EntireColl(s, a) * EntireDebt(s, b) >= EntireColl(s, b) * EntireDebt(s, a)
  }

  // The operation leaves trove i's own record alone.
  predicate Spares(op: Op, i: nat) {
    match op
    case Open(j, _, _) => j != i
    case Adjust(j, _, _) => j != i
    case Close(j) => j != i
    case Liquidate(ids, _, _) => i !in ids
  }

  lemma {:induction false} RemoveAllSpares(s: System, ids: seq<nat>, i: nat)
    requires i < |s.troves| && i !in ids
    ensures
      var q := RemoveAll(s, ids);
      q.troves[i] == s.troves[i] && q.LColl == s.LColl && q.LDebt == s.LDebt
  {
    if ids != [] {
      RemoveAllSpares(s, ids[..|ids| - 1], i);
    }
  }

  lemma RedistributeKeepsOrder(s: System, coll: real, debt: real, a: Trove, b: Trove)
    requires Inv(s) && s.totalStakes > 0.0 && coll >= 0.0 && debt > 0.0
    requires GoodTrove(s, a) && a.active && GoodTrove(s, b) && b.active
    ensures AtLeast(Redistribute(s, coll, debt), a, b) <==> AtLeast(s, a, b)
  {
    hide Inv, GoodTrove, EntireColl, EntireDebt, Redistribute;
    RedistributeOne(s, coll, debt, a);
    RedistributeOne(s, coll, debt, b);
    var k := (s.systemColl + coll) / s.systemColl;
    assert k > 0.0;
    OrderAlgebra(EntireColl(s, a), EntireDebt(s, a), EntireColl(s, b), EntireDebt(s, b), k, debt / s.systemColl);
  }

  lemma OrderAlgebra(ca: real, da: real, cb: real, db: real, k: real, q: real)
    requires k > 0.0
    ensures ca * k * (db + q * cb) >= cb * k * (da + q * ca) <==> ca * db >= cb * da
  {
    var x := ca * db - cb * da;
    assert ca * k * (db + q * cb) - cb * k * (da + q * ca) == k * x;
    if x >= 0.0 {
      assert k * x >= 0.0;
    } else {
      assert k * -x > 0.0;
    }
  }

  lemma StepKeepsOrder(s: System, op: Op, a: nat, b: nat)
    requires Inv(s) && a < |s.troves| && b < |s.troves| && s.troves[a].active && s.troves[b].active
    requires Spares(op, a) && Spares(op, b)
    ensures
      var r := Step(s, op);
      && |r.troves| == |s.troves| && r.troves[a] == s.troves[a] && r.troves[b] == s.troves[b]
      && (AtLeast(r, r.troves[a], r.troves[b]) <==> AtLeast(s, s.troves[a], s.troves[b]))
  {
    hide EntireColl, EntireDebt, AtLeast, RealSum;
    var r := Step(s, op);
    if !op.Liquidate? {
      SameOrder(s, r, s.troves[a], s.troves[b]);
    } else {
      RemoveAllKeepsInv(s, op.ids);
      RemoveAllSpares(s, op.ids, a);
      RemoveAllSpares(s, op.ids, b);
      var q := RemoveAll(s, op.ids);
      assert GoodTrove(q, q.troves[a]) && GoodTrove(q, q.troves[b]);
      hide Inv, RemoveAll, GoodTrove;
      SameOrder(s, q, s.troves[a], s.troves[b]);
      if r != s {
        RedistributeKeepsTroves(q, op.collToRedistribute, op.debtToRedistribute);
        if op.debtToRedistribute > 0.0 {
          hide Redistribute;
          RedistributeKeepsOrder(q, op.collToRedistribute, op.debtToRedistribute, q.troves[a], q.troves[b]);
        } else {
          SameOrder(q, r, s.troves[a], s.troves[b]);
        }
      }
    }
  }

  lemma SameOrder(s: System, q: System, a: Trove, b: Trove)
    requires q.LColl == s.LColl && q.LDebt == s.LDebt
    ensures AtLeast(q, a, b) == AtLeast(s, a, b)
  {
    hide EntireColl, EntireDebt;
    SameReading(s, q, a);
    SameReading(s, q, b);
  }

  function RunFrom(s: System, ops: seq<Op>): System {
    if ops == [] then s else Step(RunFrom(s, ops[..|ops| - 1]), ops[|ops| - 1])
  }

  // However long the system runs, two troves whose owners leave them alone stay in the order they are
  // in: a higher ratio stays higher and equal ratios stay equal.
  lemma {:induction false} OrderIsKept(s: System, ops: seq<Op>, a: nat, b: nat)
    requires Inv(s) && a < |s.troves| && b < |s.troves| && s.troves[a].active && s.troves[b].active
    requires forall op | op in ops :: Spares(op, a) && Spares(op, b)
    ensures
      var r := RunFrom(s, ops);
      && Inv(r) && |r.troves| == |s.troves| && r.troves[a] == s.troves[a] && r.troves[b] == s.troves[b]
      && (AtLeast(r, r.troves[a], r.troves[b]) <==> AtLeast(s, s.troves[a], s.troves[b]))
  {
    hide Inv, Step, AtLeast;
    if ops != [] {
      var n := |ops| - 1;
      OrderIsKept(s, ops[..n], a, b);
      StepKeepsInv(RunFrom(s, ops[..n]), ops[n]);
      StepKeepsOrder(RunFrom(s, ops[..n]), ops[n], a, b);
    }
  }

  // ---- Why stakes are corrected ----

  // The same system with every stake equal to the raw collateral: the snapshots that would correct it are dropped.
  function RawStep(s: System, op: Op): System { Step(s, op).(totalCollSnapshot := 0.0) }

  function RawRun(n: nat, ops: seq<Op>): System {
    if ops == [] then Run(n, []) else RawStep(RawRun(n, ops[..|ops| - 1]), ops[|ops| - 1])
  }

  // Trove 1 is redistributed to trove 0, trove 2 opens with all of its collateral as stake, and trove 1 opens once more
  // and is redistributed to both.
  const RAW_RUN := [
    Open(0, 1.0, 1.0), Open(1, 10.0, 4.0), Liquidate([1], 10.0, 4.0),
    Open(2, 23.0, 10.0), Open(1, 26.4, 24.0), Liquidate([1], 26.4, 24.0)]

  function RawStage(first: Trove, second: Trove, third: Trove, LColl: real, LDebt: real, stakes: real, snapshot: real, coll: real)
    : System
  {
    System([first, second, third], LColl, LDebt, stakes, snapshot, 0.0, coll)
  }

  function Old(): Trove { Trove(true, 1.0, 1.0, 1.0, 0.0, 0.0) }
  function Newcomer(): Trove { Trove(true, 23.0, 10.0, 23.0, 10.0, 4.0) }

  function Raw1(): System { RawStage(Old(), CLOSED, CLOSED, 0.0, 0.0, 1.0, 0.0, 1.0) }
  function Raw2(): System { RawStage(Old(), Trove(true, 10.0, 4.0, 10.0, 0.0, 0.0), CLOSED, 0.0, 0.0, 11.0, 0.0, 11.0) }
  function Raw3(): System { RawStage(Old(), CLOSED, CLOSED, 10.0, 4.0, 1.0, 1.0, 11.0) }
  function Raw4(): System { RawStage(Old(), CLOSED, Newcomer(), 10.0, 4.0, 24.0, 1.0, 34.0) }
  function Raw5(): System {
    RawStage(Old(), Trove(true, 26.4, 24.0, 26.4, 10.0, 4.0), Newcomer(), 10.0, 4.0, 50.4, 1.0, 60.4)
  }
  function Raw6(): System { RawStage(Old(), CLOSED, Newcomer(), 11.1, 5.0, 24.0, 24.0, 60.4) }

  // A stake equal to the raw collateral can turn the order around. Before the last operation, which touches neither of
  // them, the newcomer (ratio 2.3) outranks the old trove (ratio 2.2, mostly pending); after it the newcomer ranks below.
  lemma RawStakesBreakOrder()
    ensures RawRun(3, RAW_RUN[..5]) == Raw5() && RawRun(3, RAW_RUN) == Raw6()
    ensures Spares(RAW_RUN[5], 0) && Spares(RAW_RUN[5], 2)
    ensures AtLeast(Raw5(), Newcomer(), Old()) && !AtLeast(Raw5(), Old(), Newcomer())
    ensures AtLeast(Raw6(), Old(), Newcomer()) && !AtLeast(Raw6(), Newcomer(), Old())
  {
    hide RawStep, RawRun, Raw1, Raw2, Raw3, Raw4, Raw5, Raw6;
    RawOpenings();
    RawLiquidations();
    RawOrder();
    var ops := RAW_RUN;
    assert ops[..1] == [] + [ops[0]] && ops[..2] == ops[..1] + [ops[1]] && ops[..3] == ops[..2] + [ops[2]];
    assert ops[..4] == ops[..3] + [ops[3]] && ops[..5] == ops[..4] + [ops[4]] && ops == ops[..5] + [ops[5]];
    RawRunLast(3, [], ops[0], Run(3, []));
    RawRunLast(3, ops[..1], ops[1], Raw1());
    RawRunLast(3, ops[..2], ops[2], Raw2());
    RawRunLast(3, ops[..3], ops[3], Raw3());
    RawRunLast(3, ops[..4], ops[4], Raw4());
    RawRunLast(3, ops[..5], ops[5], Raw5());
  }

  lemma RawRunLast(n: nat, ops: seq<Op>, op: Op, s: System)
    requires RawRun(n, ops) == s || (ops == [] && s == Run(n, []))
    ensures RawRun(n, ops + [op]) == RawStep(s, op)
  {
    assert (ops + [op])[..|ops|] == ops;
  }

  lemma RawOpenings()
    ensures RawStep(Run(3, []), RAW_RUN[0]) == Raw1() && RawStep(Raw1(), RAW_RUN[1]) == Raw2()
    ensures RawStep(Raw3(), RAW_RUN[3]) == Raw4() && RawStep(Raw4(), RAW_RUN[4]) == Raw5()
  {
    hide RawStep, EntireColl, EntireDebt;
    var s := Run(3, []);
    assert s.troves == [CLOSED, CLOSED, CLOSED];
    assert s.troves[0 := Old()] == Raw1().troves && Raw1().troves[1 := Raw2().troves[1]] == Raw2().troves;
    assert Raw3().troves[2 := Newcomer()] == Raw4().troves && Raw4().troves[1 := Raw5().troves[1]] == Raw5().troves;
    RawOpening(s, 0, 1.0, 1.0);
    RawOpening(Raw1(), 1, 10.0, 4.0);
    RawOpening(Raw3(), 2, 23.0, 10.0);
    RawOpening(Raw4(), 1, 26.4, 24.0);
  }

  lemma RawOpening(s: System, i: nat, coll: real, debt: real)
    requires s.totalCollSnapshot == 0.0 && i < |s.troves| && s.troves[i] == CLOSED && coll > 0.0 && debt > 0.0
    ensures
      RawStep(s, Open(i, coll, debt)) ==
      s.(troves := s.troves[i := Trove(true, coll, debt, coll, s.LColl, s.LDebt)], totalStakes := s.totalStakes + coll,
         systemColl := s.systemColl + coll)
  {
    ClosedTrove(s);
  }

  // A trove with nothing pending, liquidated and shared out to the stakes that are left.
  lemma RawLiquidation(s: System, i: nat, coll: real, debt: real, collShare: real, debtShare: real)
    requires i < |s.troves| && s.troves[i].active && s.troves[i].coll == coll >= 0.0 && s.troves[i].collSnapshot == s.LColl
    requires debt > 0.0 && s.totalStakes > s.troves[i].stake
    requires coll == collShare * (s.totalStakes - s.troves[i].stake) && debt == debtShare * (s.totalStakes - s.troves[i].stake)
    ensures
      RawStep(s, Liquidate([i], coll, debt)) ==
      s.(troves := s.troves[i := CLOSED], totalStakes := s.totalStakes - s.troves[i].stake, LColl := s.LColl + collShare,
         LDebt := s.LDebt + debtShare, totalStakesSnapshot := s.totalStakes - s.troves[i].stake, totalCollSnapshot := 0.0)
  {
    assert [i][..0] == [] && RemoveAll(s, []) == s;
    assert EntireColl(s, s.troves[i]) == coll;
    var r := Remove(s, i);
    assert r == s.(troves := s.troves[i := CLOSED], totalStakes := s.totalStakes - s.troves[i].stake,
                   systemColl := s.systemColl - coll);
    assert RemoveAll(s, [i]) == r;
    hide Remove;
    Shared(r, coll, debt, collShare, debtShare);
    hide Redistribute;
  }

  lemma RawLiquidations()
    ensures RawStep(Raw2(), RAW_RUN[2]) == Raw3() && RawStep(Raw5(), RAW_RUN[5]) == Raw6()
  {
    hide RawStep;
    assert Raw2().troves[1 := CLOSED] == Raw3().troves && Raw5().troves[1 := CLOSED] == Raw6().troves;
    RawLiquidation(Raw2(), 1, 10.0, 4.0, 10.0, 4.0);
    RawLiquidation(Raw5(), 1, 26.4, 24.0, 1.1, 1.0);
  }

  lemma Shared(s: System, coll: real, debt: real, collShare: real, debtShare: real)
    requires s.totalStakes > 0.0 && debt != 0.0 && coll == collShare * s.totalStakes && debt == debtShare * s.totalStakes
    ensures
      Redistribute(s, coll, debt) ==
      s.(LColl := s.LColl + collShare, LDebt := s.LDebt + debtShare, systemColl := s.systemColl + coll,
         totalStakesSnapshot := s.totalStakes, totalCollSnapshot := s.systemColl + coll)
  {
    assert coll / s.totalStakes == collShare && debt / s.totalStakes == debtShare;
  }

  lemma RawOrder()
    ensures AtLeast(Raw5(), Newcomer(), Old()) && !AtLeast(Raw5(), Old(), Newcomer())
    ensures AtLeast(Raw6(), Old(), Newcomer()) && !AtLeast(Raw6(), Newcomer(), Old())
  {
  }
}
