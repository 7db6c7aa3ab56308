/** The two registers of active troves: the array of owners, from which closing removes by moving the last owner
    into the gap, and the sorted list. */
module Registers {
  import opened Common
  import opened TroveLedger
  import opened Liquidation
  import opened Borrowing
  import opened IntegerOrder
  import opened SortedTroves
  import opened SortedLedger

  // The owners array lists every active trove once, and every active trove knows its place in it.
  ghost predicate Listed(troves: seq<Trove>, owners: seq<nat>, index: seq<nat>) {
    && |index| == |troves| && |owners| == Sum(Actives(troves))
    && (forall k | 0 <= k < |owners| ::
          owners[k] < |troves| && troves[owners[k]].status.Active? && index[owners[k]] == k)
    && (forall i | 0 <= i < |troves| && troves[i].status.Active? ::
          index[i] < |owners| && owners[index[i]] == i)
  }

  lemma ListedByStatus(troves: seq<Trove>, other: seq<Trove>, owners: seq<nat>, index: seq<nat>)
    requires Listed(troves, owners, index) && |other| == |troves|
    requires forall i | 0 <= i < |troves| :: other[i].status == troves[i].status
    ensures Listed(other, owners, index)
  {
    hide Sum;
    assert Actives(other) == Actives(troves);
  }

  lemma CountChanges(troves: seq<Trove>, i: nat, t: Trove)
    requires i < |troves|
    ensures Sum(Actives(troves[i := t])) == Sum(Actives(troves)) - Alive(troves[i]) + Alive(t)
    ensures Sum(Actives(troves)) >= Alive(troves[i])
  {
    hide Sum;
    assert Actives(troves[i := t]) == Actives(troves)[i := Alive(t)];
    SumUpdate(Actives(troves), i, Alive(t));
    SumNonNegative(Actives(troves));
    assert Actives(troves)[i] == Alive(troves[i]);
  }

  // [A B C D E] without B is [A E C D].
  function WithoutOwner(owners: seq<nat>, k: nat): seq<nat>
    requires k < |owners|
  {
    owners[k := owners[|owners| - 1]][..|owners| - 1]
  }

  // Moving the last owner into the gap keeps the list of owners right, whatever its order.
  lemma RemovalKeepsListed(troves: seq<Trove>, owners: seq<nat>, index: seq<nat>, i: nat, t: Trove)
    requires Listed(troves, owners, index) && i < |troves| && troves[i].status.Active? && !t.status.Active?
    ensures index[i] < |owners| && owners[|owners| - 1] < |index|
    ensures Listed(troves[i := t], WithoutOwner(owners, index[i]), index[owners[|owners| - 1] := index[i]])
  {
    hide Sum;
    CountChanges(troves, i, t);
  }

  lemma AdditionKeepsListed(troves: seq<Trove>, owners: seq<nat>, index: seq<nat>, i: nat, t: Trove)
    requires Listed(troves, owners, index) && i < |troves| && !troves[i].status.Active? && t.status.Active?
    ensures Listed(troves[i := t], owners + [i], index[i := |owners|])
  {
    hide Sum;
    CountChanges(troves, i, t);
  }

  // The sorted list holds exactly the active troves.
  ghost predicate Holds(troves: seq<Trove>, order: seq<nat>) {
    && Distinct(order) && |order| == Sum(Actives(troves))
    && (forall i | i in order :: Survives(troves, i))
    && (forall i | 0 <= i < |troves| && troves[i].status.Active? :: i in order)
  }

  ghost predicate Registered(troves: seq<Trove>, owners: seq<nat>, index: seq<nat>, order: seq<nat>) {
    Listed(troves, owners, index) && Holds(troves, order)
  }

  lemma StatusKeepsRegistered(troves: seq<Trove>, other: seq<Trove>, owners: seq<nat>, index: seq<nat>, order: seq<nat>)
    requires Registered(troves, owners, index, order) && |other| == |troves|
    requires forall i | 0 <= i < |troves| :: other[i].status == troves[i].status
    ensures Registered(other, owners, index, order)
  {
    hide Sum;
    ListedByStatus(troves, other, owners, index);
    assert Actives(other) == Actives(troves);
  }

  lemma RegisteredMeans(troves: seq<Trove>, owners: seq<nat>, index: seq<nat>, order: seq<nat>)
    requires Registered(troves, owners, index, order)
    ensures |index| == |troves| && |owners| == |order| == Sum(Actives(troves)) && Distinct(order)
    ensures forall i :: i in order <==> Survives(troves, i)
  {
  }

  lemma RemoveLast(order: seq<nat>)
    requires order != []
    ensures RemoveAt(order, |order| - 1) == order[..|order| - 1]
  {
  }

  lemma RemoveBeforeLast(order: seq<nat>, k: nat)
    requires k + 1 < |order|
    ensures RemoveAt(order, k) == RemoveAt(order[..|order| - 1], k) + [order[|order| - 1]]
  {
  }

  lemma SurvivorsLast(troves: seq<Trove>, order: seq<nat>)
    requires order != []
    ensures
      var shorter, i := order[..|order| - 1], order[|order| - 1];
      Survivors(troves, order) == if Survives(troves, i) then Survivors(troves, shorter) + [i] else Survivors(troves, shorter)
  {
  }

  // Taking one id out at its position is keeping the others.
  lemma {:induction false} SurvivorsRemoveAt(troves: seq<Trove>, order: seq<nat>, k: nat)
    requires Distinct(order) && k < |order| && !Survives(troves, order[k])
    requires forall j | 0 <= j < |order| && j != k :: Survives(troves, order[j])
    ensures Survivors(troves, order) == RemoveAt(order, k)
  {
    hide Survivors, Survives, RemoveAt;
    var n := |order| - 1;
    var shorter := order[..n];
    assert forall j | 0 <= j < n :: shorter[j] == order[j];
    SurvivorsLast(troves, order);
    if k == n {
      SurvivorsSame(troves, shorter);
      RemoveLast(order);
    } else {
      SurvivorsRemoveAt(troves, shorter, k);
      RemoveBeforeLast(order, k);
    }
  }

  lemma {:induction false} SurvivorsSame(troves: seq<Trove>, order: seq<nat>)
    requires forall j | 0 <= j < |order| :: Survives(troves, order[j])
    ensures Survivors(troves, order) == order
  {
    hide Survives;
    if order != [] {
      var shorter, i := order[..|order| - 1], order[|order| - 1];
      assert forall j | 0 <= j < |shorter| :: shorter[j] == order[j];
      SurvivorsSame(troves, shorter);
      SurvivorsLast(troves, order);
      assert shorter + [i] == order;
    }
  }

  // The survivors of the survivors.
  lemma {:induction false} SurvivorsTwice(troves: seq<Trove>, later: seq<Trove>, order: seq<nat>)
    requires forall i | Survives(later, i) :: Survives(troves, i)
    ensures Survivors(later, Survivors(troves, order)) == Survivors(later, order)
  {
    if order != [] {
      var shorter, i := order[..|order| - 1], order[|order| - 1];
      SurvivorsTwice(troves, later, shorter);
      if Survives(troves, i) {
        var rest := Survivors(troves, shorter);
        assert (rest + [i])[..|rest|] == rest;
      }
    }
  }

  lemma ClosingKeepsRegistered(troves: seq<Trove>, owners: seq<nat>, index: seq<nat>, order: seq<nat>, i: nat, t: Trove, k: nat)
    requires Registered(troves, owners, index, order) && i < |troves| && troves[i].status.Active? && !t.status.Active?
    requires k < |order| && order[k] == i
    ensures index[i] < |owners| && owners[|owners| - 1] < |index|
    ensures Registered(troves[i := t], WithoutOwner(owners, index[i]), index[owners[|owners| - 1] := index[i]], RemoveAt(order, k))
    ensures RemoveAt(order, k) == Survivors(troves[i := t], order)
  {
    hide Sum, Listed, RemoveAt, Survivors;
    RemovalKeepsListed(troves, owners, index, i, t);
    CountChanges(troves, i, t);
    RemovedAt(order, k);
    ClosedAt(troves, order, i, t, k);
    SurvivorsRemoveAt(troves[i := t], order, k);
    hide Distinct;
  }

  lemma ClosedAt(troves: seq<Trove>, order: seq<nat>, i: nat, t: Trove, k: nat)
    requires Holds(troves, order) && i < |troves| && !t.status.Active? && k < |order| && order[k] == i
    ensures !Survives(troves[i := t], order[k])
    ensures forall j | 0 <= j < |order| && j != k :: Survives(troves[i := t], order[j])
  {
    hide Sum;
    forall j | 0 <= j < |order| && j != k ensures Survives(troves[i := t], order[j]) {
      assert order[j] in order;
    }
  }

  // The id stands at a slot for x, and nothing else in the list has moved.
  ghost predicate Inserted(before: seq<nat>, after: seq<nat>, i: nat, nicr: nat -> nat, x: nat) {
    exists k: nat :: k <= |before| && Slot(before, nicr, x, k) && after == InsertAt(before, k, i)
  }

  // The id has been taken out and put back at a slot for x.
  ghost predicate Reinserted(before: seq<nat>, after: seq<nat>, i: nat, nicr: nat -> nat, x: nat) {
    exists j: nat :: j < |before| && before[j] == i && Inserted(RemoveAt(before, j), after, i, nicr, x)
  }

  lemma OpeningKeepsRegistered(troves: seq<Trove>, owners: seq<nat>, index: seq<nat>, order: seq<nat>, i: nat, t: Trove,
                               after: seq<nat>, k: nat)
    requires Registered(troves, owners, index, order) && i < |troves| && !troves[i].status.Active? && t.status.Active?
    requires k <= |order| && after == InsertAt(order, k, i)
    ensures Registered(troves[i := t], owners + [i], index[i := |owners|], after)
  {
    hide Sum, Listed, InsertAt;
    AdditionKeepsListed(troves, owners, index, i, t);
    CountChanges(troves, i, t);
    InsertedAt(order, k, i);
    hide Distinct;
  }

  lemma ReinsertionKeepsRegistered(troves: seq<Trove>, owners: seq<nat>, index: seq<nat>, order: seq<nat>, i: nat, after: seq<nat>,
                                   nicr: nat -> nat, x: nat)
    requires Registered(troves, owners, index, order) && Reinserted(order, after, i, nicr, x)
    ensures Registered(troves, owners, index, after)
  {
    hide Sum, Listed, InsertAt, RemoveAt, Slot;
    var j: nat :| j < |order| && order[j] == i && Inserted(RemoveAt(order, j), after, i, nicr, x);
    var k: nat :| k <= |RemoveAt(order, j)| && Slot(RemoveAt(order, j), nicr, x, k) && after == InsertAt(RemoveAt(order, j), k, i);
    RemovedAt(order, j);
    InsertedAt(RemoveAt(order, j), k, i);
    assert i in order;
    hide Distinct;
  }

  // There is room in the list for a trove that is not in it.
  lemma RoomForOneMore(troves: seq<Trove>, order: seq<nat>, i: nat)
    requires Holds(troves, order) && i < |troves| && !troves[i].status.Active?
    ensures |order| < |troves| && i !in order
  {
    hide Sum;
    var ones := seq(|troves|, _ => 1);
    var upper := ones[i := 0];
    SumAtMost(Actives(troves), upper);
    SumUpdate(ones, i, 0);
    SumOfOnes(|troves|);
  }

  lemma {:induction false} SumOfOnes(n: nat)
    ensures Sum(seq(n, _ => 1)) == n
  {
    if n > 0 {
      assert seq(n, _ => 1)[..n - 1] == seq(n - 1, _ => 1);
      SumOfOnes(n - 1);
    }
  }

  // ---- The ratios as the list asks for them ----

  // TroveManager.getNominalICR as a function of the troves and the accumulators.
  function Nominals(troves: seq<Trove>, LColl: nat, LDebt: nat): nat -> nat {
    (i: nat) => if i < |troves| then NominalOf(troves[i], LColl, LDebt) else 0
  }

  function NominalOf(t: Trove, LColl: nat, LDebt: nat): nat {
    var coll := if t.status.Active? && t.collSnapshot <= LColl then Share(t.stake, LColl - t.collSnapshot) else 0;
    var debt := if t.status.Active? && t.debtSnapshot <= LDebt then Share(t.stake, LDebt - t.debtSnapshot) else 0;
    ComputeNominalCR(t.coll + coll, t.debt + debt)
  }

  lemma NominalsAgree(s: Ledger, i: nat)
    requires i < |s.troves| && GoodTrove(s, s.troves[i])
    ensures Nominals(s.troves, s.LColl, s.LDebt)(i) == NICROf(s, i)
  {
    hide ComputeNominalCR;
  }

  // A slot depends on the ratios of the listed troves alone.
  lemma InsertedSame(before: seq<nat>, after: seq<nat>, i: nat, f: nat -> nat, g: nat -> nat, x: nat)
    requires Inserted(before, after, i, f, x) && forall j | j in before :: f(j) == g(j)
    ensures Inserted(before, after, i, g, x)
  {
    var k: nat :| k <= |before| && Slot(before, f, x, k) && after == InsertAt(before, k, i);
    assert Slot(before, g, x, k);
  }

  lemma ReinsertedSame(before: seq<nat>, after: seq<nat>, i: nat, f: nat -> nat, g: nat -> nat, x: nat)
    requires Distinct(before) && Reinserted(before, after, i, f, x) && forall j | j in before && j != i :: f(j) == g(j)
    ensures Reinserted(before, after, i, g, x)
  {
    hide Inserted;
    var j: nat :| j < |before| && before[j] == i && Inserted(RemoveAt(before, j), after, i, f, x);
    RemovedAt(before, j);
    InsertedSame(RemoveAt(before, j), after, i, f, g, x);
  }

  // ---- Insertion and the order ----

  lemma InsertedKeepsOrder(s: Ledger, r: Ledger, order: seq<nat>, after: seq<nat>, i: nat)
    requires InOrder(s, order) && i < |s.troves| && !s.troves[i].status.Active? && |r.troves| == |s.troves|
    requires r.troves == s.troves[i := r.troves[i]] && r.troves[i].status.Active? && r.LColl == s.LColl && r.LDebt == s.LDebt
    requires Inserted(order, after, i, NICRs(r), NICROf(r, i))
    ensures InOrder(r, after)
  {
    hide NICROf, InsertAt, Slot;
    var k: nat :| k <= |order| && Slot(order, NICRs(r), NICROf(r, i), k) && after == InsertAt(order, k, i);
    OthersSorted(s, r, i, order);
    InsertedAt(order, k, i);
    InsertKeepsSorted(order, NICRs(r), i, k);
  }

  lemma ReinsertedKeepsOrder(s: Ledger, r: Ledger, order: seq<nat>, after: seq<nat>, i: nat)
    requires InOrder(s, order) && i < |s.troves| && |r.troves| == |s.troves|
    requires r.troves == s.troves[i := r.troves[i]] && r.troves[i].status.Active? && r.LColl == s.LColl && r.LDebt == s.LDebt
    requires Reinserted(order, after, i, NICRs(r), NICROf(r, i))
    ensures InOrder(r, after)
  {
    hide NICROf, InsertAt, Slot, InOrder, RemoveAt;
    var j: nat :| j < |order| && order[j] == i && Inserted(RemoveAt(order, j), after, i, NICRs(r), NICROf(r, i));
    var rest := RemoveAt(order, j);
    var k: nat :| k <= |rest| && Slot(rest, NICRs(r), NICROf(r, i), k) && after == InsertAt(rest, k, i);
    RemovedLength(order, j);
    ReplacedKeepsOrder(s, r, order, j, k);
  }

  // The trove below i in the list, if any, has no higher ratio.
  ghost predicate NextNoHigher(order: seq<nat>, i: nat, nicr: nat -> nat) {
    forall p | 0 <= p < |order| - 1 && order[p] == i :: nicr(order[p + 1]) <= nicr(i)
  }

  lemma NextAfterInsertion(rest: seq<nat>, i: nat, k: nat, nicr: nat -> nat)
    requires i !in rest && k <= |rest|
    ensures NextNoHigher(InsertAt(rest, k, i), i, nicr) <==> k == |rest| || nicr(rest[k]) <= nicr(i)
  {
    var list := InsertAt(rest, k, i);
    if k < |rest| {
      assert list[k] == i && list[k + 1] == rest[k];
    }
    assert forall p | 0 <= p < |list| && p != k :: list[p] == rest[if p < k then p else p - 1];
  }

  // Put back at a slot for x, no lower than its ratio, a trove leaves the list in order exactly when the one below it
  // has no higher ratio.
  lemma ReinsertedOrderExactly(s: Ledger, r: Ledger, order: seq<nat>, after: seq<nat>, i: nat, x: nat)
    requires InOrder(s, order) && i < |s.troves| && |r.troves| == |s.troves|
    requires r.troves == s.troves[i := r.troves[i]] && r.troves[i].status.Active? && r.LColl == s.LColl && r.LDebt == s.LDebt
    requires Reinserted(order, after, i, NICRs(r), x) && NICROf(r, i) <= x
    ensures InOrder(r, after) <==> NextNoHigher(after, i, NICRs(r))
  {
    hide NICROf, InsertAt, Slot, Sorted, RemoveAt, NextNoHigher;
    var j: nat :| j < |order| && order[j] == i && Inserted(RemoveAt(order, j), after, i, NICRs(r), x);
    var rest := RemoveAt(order, j);
    var k: nat :| k <= |rest| && Slot(rest, NICRs(r), x, k) && after == InsertAt(rest, k, i);
    RemovedAt(order, j);
    RemovedLength(order, j);
    OthersRatios(s, r, i, rest);
    SlotSame(rest, NICRs(r), NICRs(s), x, k);
    ReplacedOrderExactly(s, r, order, j, k, x);
    NextAfterInsertion(rest, i, k, NICRs(r));
  }

  lemma SlotSame(order: seq<nat>, f: nat -> nat, g: nat -> nat, x: nat, k: int)
    requires forall j | 0 <= j < |order| :: f(order[j]) == g(order[j])
    ensures Slot(order, f, x, k) <==> Slot(order, g, x, k)
  {
  }

  lemma InsertedOrderExactly(s: Ledger, rest: seq<nat>, list: seq<nat>, i: nat, x: nat)
    requires i !in rest && Inserted(rest, list, i, NICRs(s), x)
    requires forall k | 0 <= k <= |rest| && Slot(rest, NICRs(s), x, k) ::
               InOrder(s, InsertAt(rest, k, i)) <==> k == |rest| || NICROf(s, rest[k]) <= NICROf(s, i)
    ensures InOrder(s, list) <==> NextNoHigher(list, i, NICRs(s))
  {
    hide InOrder, NICROf, Slot, InsertAt, NextNoHigher;
    var k: nat :| k <= |rest| && Slot(rest, NICRs(s), x, k) && list == InsertAt(rest, k, i);
    NextAfterInsertion(rest, i, k, NICRs(s));
  }

  lemma RemovedLength(order: seq<nat>, j: nat)
    requires j < |order|
    ensures |RemoveAt(order, j)| == |order| - 1
  {
  }
}
