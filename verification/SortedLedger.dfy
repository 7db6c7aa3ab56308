/** The sorted list and the ledger together: where a redemption starts and whom it visits, and which operations
    keep the list sorted by the troves' nominal ratios. Ids in the list are account indices. */
module SortedLedger {
  import opened Common
  import opened TroveLedger
  import opened Liquidation
  import opened Borrowing
  import opened Redemption
  import opened SortedTroves
  import opened IntegerOrder
  import SP = StabilityPool

  ghost function NICROf(s: Ledger, i: nat): nat {
    if i < |s.troves| && GoodTrove(s, s.troves[i]) then NICR(s, s.troves[i]) else 0
  }

  ghost function NICRs(s: Ledger): nat -> nat { (i: nat) => NICROf(s, i) }

  // The list holds exactly the active troves, each once.
  ghost predicate Lists(s: Ledger, order: seq<nat>) {
    && Distinct(order)
    && (forall i | i in order :: i < |s.troves| && s.troves[i].status.Active?)
    && (forall i | 0 <= i < |s.troves| && s.troves[i].status.Active? :: i in order)
  }

  ghost predicate InOrder(s: Ledger, order: seq<nat>) {
    Lists(s, order) && Sorted(order, NICRs(s))
  }

  // ---- Where a redemption starts ----

  // The walk up from the tail stops at the first trove with ICR >= MCR; the result is its position, or -1.
  function Walk(s: Ledger, order: seq<nat>, price: nat): (w: int)
    requires AllGood(s, order)
    ensures -1 <= w < |order|
    ensures w >= 0 ==> ICR(s, order[w], price) >= MCR
    ensures forall j | w < j < |order| :: ICR(s, order[j], price) < MCR
  {
    if order == [] then -1
    else if ICR(s, order[|order| - 1], price) >= MCR then |order| - 1
    else Walk(s, order[..|order| - 1], price)
  }

  // _isValidFirstRedemptionHint for the trove at position k.
  predicate ValidFirstHint(s: Ledger, order: seq<nat>, price: nat, k: nat)
    requires AllGood(s, order)
  {
    && k < |order| && ICR(s, order[k], price) >= MCR
    && (k + 1 == |order| || ICR(s, order[k + 1], price) < MCR)
  }

  function PositionOf(order: seq<nat>, id: nat): (k: nat)
    ensures k <= |order| && (k < |order| ==> order[k] == id) && (k == |order| <==> id !in order)
  {
    if order == [] || order[0] == id then 0 else 1 + PositionOf(order[1..], id)
  }

  // The trove hinted at if the hint is valid, and the end of the walk otherwise.
  function Entry(s: Ledger, order: seq<nat>, price: nat, hint: nat): (k: int)
    requires AllGood(s, order)
    ensures -1 <= k < |order|
  {
    if ValidFirstHint(s, order, price, PositionOf(order, hint)) then PositionOf(order, hint) else Walk(s, order, price)
  }

  // The start is a trove from MCR on with the next one below, or none if there is none: the hinted one if it is such a trove,
  // and otherwise the lowest.
  lemma EntryExactly(s: Ledger, order: seq<nat>, price: nat, hint: nat)
    requires AllGood(s, order) && Distinct(order)
    ensures
      var w := Entry(s, order, price, hint);
      && (w >= 0 ==> ValidFirstHint(s, order, price, w))
      && (w < 0 ==> forall j | 0 <= j < |order| :: ICR(s, order[j], price) < MCR)
      && (forall k | 0 <= k < |order| && order[k] == hint && ValidFirstHint(s, order, price, k) :: w == k)
      && ((forall k | 0 <= k < |order| && order[k] == hint :: !ValidFirstHint(s, order, price, k)) ==>
            forall j | w < j < |order| :: ICR(s, order[j], price) < MCR)
  {
    hide ICR, GoodTrove;
  }

  // The troves from position w upwards.
  function Upwards(order: seq<nat>, w: int): (queue: seq<nat>)
    requires -1 <= w < |order|
    ensures |queue| == w + 1 && forall k | 0 <= k <= w :: queue[k] == order[w - k]
  {
    seq(w + 1, k requires 0 <= k < w + 1 => order[w - k])
  }

  // ---- Ratios with and without the price ----

  // The nominal ratio that decides, at a price, whether the ratio reaches MCR - but for troves that have it.
  function Edge(price: nat): nat
    requires price > 0
  {
    MCR * NICR_PRECISION / price
  }

  lemma NominalDecides(coll: nat, debt: nat, price: nat)
    requires debt > 0 && price > 0
    ensures ComputeNominalCR(coll, debt) > Edge(price) ==> ComputeCR(coll, debt, price) >= MCR
    ensures ComputeNominalCR(coll, debt) < Edge(price) ==> ComputeCR(coll, debt, price) < MCR
    ensures ComputeNominalCR(coll, debt) == Edge(price) && MCR * NICR_PRECISION % price == 0 ==>
              ComputeCR(coll, debt, price) >= MCR
  {
    var q, N, M := Edge(price), NICR_PRECISION, MCR;
    QuotientAtLeast(coll * price, debt, M);
    QuotientAtLeast(coll * N, debt, q);
    QuotientAtLeast(coll * N, debt, q + 1);
    FloorDivision(M * N, price);
    hide ComputeCR, ComputeNominalCR;
    EdgeAlgebra(coll, debt, price, q, M, N);
  }

  lemma EdgeAlgebra(c: nat, d: nat, price: nat, q: nat, M: nat, N: nat)
    requires d > 0 && price > 0 && N > 0 && q * price <= M * N < (q + 1) * price
    ensures c * N >= (q + 1) * d ==> c * price >= M * d
    ensures c * N < q * d ==> c * price < M * d
    ensures c * N >= q * d && q * price == M * N ==> c * price >= M * d
  {
    assert c * price * N == c * N * price && M * d * N == M * N * d;
    assert (q + 1) * d * price == (q + 1) * price * d && q * d * price == q * price * d;
    if c * N >= (q + 1) * d {
      ScaleUp((q + 1) * d, c * N, price);
      ScaleUp(M * N, (q + 1) * price, d);
      CancelPositive(M * d, c * price, N);
    }
    if c * N < q * d {
      ScaleUpStrictly(c * N, q * d, price);
      ScaleUp(q * price, M * N, d);
      CancelStrictly(c * price, M * d, N);
    }
    if c * N >= q * d && q * price == M * N {
      ScaleUp(q * d, c * N, price);
      CancelPositive(M * d, c * price, N);
    }
  }

  // At this price a trove with no lower nominal ratio than one at or above MCR is at or above MCR too.
  ghost predicate RatiosAgree(price: nat)
    requires price > 0
  {
    forall coll: nat, debt: nat, coll1: nat, debt1: nat
      | debt > 0 && debt1 > 0 && ComputeNominalCR(coll, debt) >= ComputeNominalCR(coll1, debt1)
        && ComputeCR(coll1, debt1, price) >= MCR
      :: ComputeCR(coll, debt, price) >= MCR
  }

  // The two ratios agree on MCR for every pair of troves exactly when the price divides MCR * 1e20.
  lemma RatiosAgreeExactly(price: nat)
    requires price > 0
    ensures RatiosAgree(price) <==> MCR * NICR_PRECISION % price == 0
  {
    hide ComputeCR, ComputeNominalCR;
    if MCR * NICR_PRECISION % price == 0 {
      forall coll: nat, debt: nat, coll1: nat, debt1: nat
        | debt > 0 && debt1 > 0 && ComputeNominalCR(coll, debt) >= ComputeNominalCR(coll1, debt1)
          && ComputeCR(coll1, debt1, price) >= MCR
        ensures ComputeCR(coll, debt, price) >= MCR
      {
        NominalDecides(coll, debt, price);
        NominalDecides(coll1, debt1, price);
      }
    } else {
      EdgePair(price);
    }
  }

  // Two troves of the same nominal ratio, at the edge, on either side of MCR.
  lemma EdgePair(price: nat)
    requires price > 0 && MCR * NICR_PRECISION % price != 0
    ensures
      var debt := NICR_PRECISION * price;
      var low, high := Edge(price) * price, MCR * NICR_PRECISION;
      && ComputeNominalCR(low, debt) == ComputeNominalCR(high, debt) == Edge(price)
      && ComputeCR(low, debt, price) < MCR && ComputeCR(high, debt, price) == MCR
  {
    var q, N, M := Edge(price), NICR_PRECISION, MCR;
    var debt := N * price;
    FloorDivision(M * N, price);
    EdgeQuotients(q, N, M, price);
    QuotientAtLeast(q * price * N, debt, q);
    QuotientAtLeast(q * price * N, debt, q + 1);
    QuotientAtLeast(M * N * N, debt, q);
    QuotientAtLeast(M * N * N, debt, q + 1);
    QuotientAtLeast(q * price * price, debt, M);
    QuotientAtLeast(M * N * price, debt, M);
    QuotientAtLeast(M * N * price, debt, M + 1);
  }

  lemma EdgeQuotients(q: nat, N: nat, M: nat, price: nat)
    requires price > 0 && N > 0 && q * price < M * N < (q + 1) * price
    ensures q * price * N == q * (N * price) < (q + 1) * (N * price)
    ensures q * (N * price) <= M * N * N < (q + 1) * (N * price)
    ensures q * price * price < M * (N * price)
    ensures M * N * price == M * (N * price) < (M + 1) * (N * price)
  {
    assert q * price * N == q * (N * price) && (q + 1) * price * N == (q + 1) * (N * price);
    ScaleUp(q * price, M * N, N);
    ScaleUpStrictly(M * N, (q + 1) * price, N);
    ScaleUpStrictly(q * price, M * N, price);
    assert M * N * price == M * (N * price);
    assert N * price > 0;
    assert (q + 1) * (N * price) == q * (N * price) + N * price && (M + 1) * (N * price) == M * (N * price) + N * price;
  }

  // ---- Whom a redemption visits ----

  lemma ListedGood(s: Ledger, order: seq<nat>, l: Limbo)
    requires Books(s, l) && Lists(s, order)
    ensures AllGood(s, order) && |s.surplus| == |s.troves|
    ensures forall k | 0 <= k < |order| :: s.troves[order[k]].status.Active? && EntireDebt(s, s.troves[order[k]]) > 0
  {
    hide EntireDebt, PendingDebt;
    forall k | 0 <= k < |order|
      ensures order[k] < |s.troves| && GoodTrove(s, s.troves[order[k]]) && EntireDebt(s, s.troves[order[k]]) > 0
    {
      assert order[k] in order;
      DebtPositive(s, s.troves[order[k]]);
    }
  }

  lemma NominalAt(s: Ledger, order: seq<nat>, k: nat)
    requires AllGood(s, order) && k < |order|
    ensures NICROf(s, order[k]) == ComputeNominalCR(EntireColl(s, s.troves[order[k]]), EntireDebt(s, s.troves[order[k]]))
  {
  }

  // The queue of a redemption lists distinct active troves, from the lowest ratio upwards.
  lemma QueueAscends(s: Ledger, order: seq<nat>, w: int)
    requires InOrder(s, order) && -1 <= w < |order|
    ensures Queue(s, Upwards(order, w))
    ensures
      var queue := Upwards(order, w);
      forall j, k | 0 <= j <= k < |queue| :: NICROf(s, queue[j]) <= NICROf(s, queue[k])
  {
    hide NICROf;
    var queue := Upwards(order, w);
    forall k | 0 <= k < |queue| ensures queue[k] < |s.troves| && s.troves[queue[k]].status.Active? {
      assert queue[k] in order;
    }
    forall j, k | 0 <= j <= k < |queue| ensures NICROf(s, queue[j]) <= NICROf(s, queue[k]) {
      assert NICRs(s)(order[w - k]) >= NICRs(s)(order[w - j]) by {
        if j < k {
          assert 0 <= w - k < w - j < |order|;
        }
      }
    }
  }

  // Every trove a redemption can visit is at or above MCR, unless its nominal ratio is exactly the edge; where
  // the price divides MCR * 1e20 every one is. Those the walk passed below the start are all below MCR.
  lemma VisitedAboveMCR(s: Ledger, order: seq<nat>, price: nat, hint: nat, l: Limbo)
    requires Books(s, l) && InOrder(s, order) && price > 0
    ensures AllGood(s, order)
    ensures
      var w := Entry(s, order, price, hint);
      && (forall k | 0 <= k <= w :: ICR(s, order[k], price) >= MCR || NICROf(s, order[k]) == Edge(price))
      && (MCR * NICR_PRECISION % price == 0 ==>
            && (forall k | 0 <= k <= w :: ICR(s, order[k], price) >= MCR)
            && (forall k | w < k < |order| :: ICR(s, order[k], price) < MCR))
      && (w == Walk(s, order, price) ==> forall k | w < k < |order| :: ICR(s, order[k], price) < MCR)
  {
    hide Books, ComputeCR, ComputeNominalCR, NICROf, EntireColl, EntireDebt, GoodTrove;
    ListedGood(s, order, l);
    var w := Entry(s, order, price, hint);
    forall k | 0 <= k < |order|
      ensures k <= w ==> ICR(s, order[k], price) >= MCR || NICROf(s, order[k]) == Edge(price)
      ensures MCR * NICR_PRECISION % price == 0 ==> (ICR(s, order[k], price) >= MCR <==> k <= w)
    {
      OneVisit(s, order, price, w, k);
    }
  }

  lemma OneVisit(s: Ledger, order: seq<nat>, price: nat, w: int, k: nat)
    requires AllGood(s, order) && Sorted(order, NICRs(s)) && price > 0 && k < |order| && -1 <= w < |order|
    requires forall j | 0 <= j < |order| :: EntireDebt(s, s.troves[order[j]]) > 0
    requires w >= 0 ==> ICR(s, order[w], price) >= MCR
    requires w + 1 < |order| ==> ICR(s, order[w + 1], price) < MCR
    ensures k <= w ==> ICR(s, order[k], price) >= MCR || NICROf(s, order[k]) == Edge(price)
    ensures MCR * NICR_PRECISION % price == 0 ==> (ICR(s, order[k], price) >= MCR <==> k <= w)
  {
    hide ComputeCR, ComputeNominalCR, NICROf, EntireColl, EntireDebt, GoodTrove;
    NominalAt(s, order, k);
    NominalDecides(EntireColl(s, s.troves[order[k]]), EntireDebt(s, s.troves[order[k]]), price);
    var j := if k <= w then w else w + 1;
    NominalAt(s, order, j);
    NominalDecides(EntireColl(s, s.troves[order[j]]), EntireDebt(s, s.troves[order[j]]), price);
    assert NICRs(s)(order[k]) == NICROf(s, order[k]) && NICRs(s)(order[j]) == NICROf(s, order[j]);
    if k < j {
      assert NICRs(s)(order[k]) >= NICRs(s)(order[j]);
    } else if j < k {
      assert NICRs(s)(order[j]) >= NICRs(s)(order[k]);
    }
  }

  // From a given list and amount: the redemption visits a trove below MCR exactly when the trove it starts at has the
  // nominal ratio at the edge, a trove of that ratio below MCR is listed above it and within the iterations, and the
  // amount exceeds the debts of the troves between.
  lemma BelowMCRVisitedExactly(s: Ledger, order: seq<nat>, amount: nat, price: nat, hint: nat, hintNICR: nat,
                               maxIterations: nat, l: Limbo)
    requires Books(s, l) && InOrder(s, order) && price > 0
    ensures AllGood(s, order)
    ensures Visitable(s, Visits(Upwards(order, Entry(s, order, price, hint)), maxIterations))
    ensures
      var visited := Visits(Upwards(order, Entry(s, order, price, hint)), maxIterations);
      var loop := RedeemLoop(s, visited, amount, price, hintNICR);
      loop.Some? ==>
        forall k | 0 <= k < |visited| ::
          Reaches(loop.value, k) && ICR(s, visited[k], price) < MCR <==>
          && k > 0 && NICROf(s, visited[0]) == NICROf(s, visited[k]) == Edge(price) && ICR(s, visited[k], price) < MCR
          && Sum(NetDebts(s, visited[..k])) < amount
  {
    hide Books, NICROf, GoodTrove, RedeemLoop, ICR, Reaches, Sum, Sorted, Visits, Queue, EntireDebt;
    ListedGood(s, order, l);
    VisitedAboveMCR(s, order, price, hint, l);
    var w := Entry(s, order, price, hint);
    var visited := Visits(Upwards(order, w), maxIterations);
    VisitedPart(order, w, maxIterations);
    QueuePrefix(s, order, w, |visited|);
    AllGoodInQueue(s, visited, l);
    forall k | 0 <= k < |visited| && RedeemLoop(s, visited, amount, price, hintNICR).Some?
      ensures Reaches(RedeemLoop(s, visited, amount, price, hintNICR).value, k) <==> Sum(NetDebts(s, visited[..k])) < amount
      ensures ICR(s, visited[k], price) < MCR ==> k > 0 && NICROf(s, visited[0]) == NICROf(s, visited[k]) == Edge(price)
    {
      ReachedExactly(s, visited, amount, price, hintNICR, k, l);
      EdgeAtStart(s, order, price, w, w - k);
    }
  }

  lemma VisitedPart(order: seq<nat>, w: int, maxIterations: nat)
    requires -1 <= w < |order|
    ensures
      var visited := Visits(Upwards(order, w), maxIterations);
      && |visited| <= w + 1 && visited == Upwards(order, w)[..|visited|]
      && forall k | 0 <= k < |visited| :: visited[k] == order[w - k]
  {
  }

  // Where a trove above the start is below MCR, both are at the edge.
  lemma EdgeAtStart(s: Ledger, order: seq<nat>, price: nat, w: nat, j: nat)
    requires AllGood(s, order) && Sorted(order, NICRs(s)) && price > 0 && j <= w < |order|
    requires forall j | 0 <= j < |order| :: EntireDebt(s, s.troves[order[j]]) > 0
    requires ICR(s, order[w], price) >= MCR
    ensures ICR(s, order[j], price) < MCR ==> j < w && NICROf(s, order[j]) == NICROf(s, order[w]) == Edge(price)
  {
    hide ComputeCR, ComputeNominalCR, NICROf, EntireColl, EntireDebt, GoodTrove;
    NominalAt(s, order, j);
    NominalDecides(EntireColl(s, s.troves[order[j]]), EntireDebt(s, s.troves[order[j]]), price);
    NominalAt(s, order, w);
    NominalDecides(EntireColl(s, s.troves[order[w]]), EntireDebt(s, s.troves[order[w]]), price);
    if j < w {
      assert NICRs(s)(order[j]) >= NICRs(s)(order[w]);
    }
  }

  // On a sorted list a first hint is accepted exactly when it names the trove the walk would find - where the
  // price divides MCR * 1e20, or else no listed trove at the edge is below MCR.
  lemma FirstHintIsTheWalk(s: Ledger, order: seq<nat>, price: nat, k: nat, l: Limbo)
    requires Books(s, l) && InOrder(s, order) && price > 0
    ensures AllGood(s, order)
    ensures
      (forall j | 0 <= j < |order| :: NICROf(s, order[j]) == Edge(price) ==> ICR(s, order[j], price) >= MCR) ==>
      (ValidFirstHint(s, order, price, k) <==> k == Walk(s, order, price))
  {
    hide Books, ICR, NICROf, EntireDebt, GoodTrove, Sorted, Edge;
    ListedGood(s, order, l);
    if forall j | 0 <= j < |order| :: NICROf(s, order[j]) == Edge(price) ==> ICR(s, order[j], price) >= MCR {
      var w := Walk(s, order, price);
      if k < w {
        OneVisit(s, order, price, w, k + 1);
        NotBelow(s, order, price, k + 1);
      }
    }
  }

  lemma NotBelow(s: Ledger, order: seq<nat>, price: nat, k: nat)
    requires AllGood(s, order) && price > 0 && k < |order|
    requires forall j | 0 <= j < |order| :: NICROf(s, order[j]) == Edge(price) ==> ICR(s, order[j], price) >= MCR
    requires ICR(s, order[k], price) >= MCR || NICROf(s, order[k]) == Edge(price)
    ensures ICR(s, order[k], price) >= MCR
  {
    hide ICR, NICROf, GoodTrove;
  }

  // The end of the walk is a valid hint.
  lemma WalkIsValidHint(s: Ledger, order: seq<nat>, price: nat)
    requires AllGood(s, order) && Distinct(order) && Walk(s, order, price) >= 0
    ensures Entry(s, order, price, order[Walk(s, order, price)]) == Walk(s, order, price)
  {
    hide ICR, GoodTrove;
    var w := Walk(s, order, price);
    var k := PositionOf(order, order[w]);
    assert order[w] in order && order[k] == order[w];
  }

  // ---- The ratio after a change ----

  // The debt that stays pending on a trove whose rewards are skipped, once it has the stake for `coll`.
  function SkippedDebt(s: Ledger, t: Trove, coll: nat): nat
    requires GoodTrove(s, t)
  {
    if HasPendingRewards(s, t) || NewStake(s, coll).None? then 0
    else NewStake(s, coll).value * (s.LDebt - t.debtSnapshot) / PRECISION
  }

  // The nominal ratio of a trove that is given this collateral and debt. The list is told the ratio of the two alone.
  function RatioAfter(s: Ledger, t: Trove, coll: nat, debt: nat): nat
    requires GoodTrove(s, t)
  {
    ComputeNominalCR(coll, debt + SkippedDebt(s, t, coll))
  }

  lemma RatioAfterIsBelow(s: Ledger, t: Trove, coll: nat, debt: nat)
    requires GoodTrove(s, t) && debt > 0
    ensures RatioAfter(s, t, coll, debt) <= ComputeNominalCR(coll, debt)
    ensures SkippedDebt(s, t, coll) == 0 ==> RatioAfter(s, t, coll, debt) == ComputeNominalCR(coll, debt)
  {
    hide SkippedDebt;
    LargerDivisor(coll * NICR_PRECISION, debt, debt + SkippedDebt(s, t, coll));
  }

  lemma NothingSkipped(s: Ledger, t: Trove, coll: nat)
    requires GoodTrove(s, t)
    ensures HasPendingRewards(s, t) || t.debtSnapshot == s.LDebt ==> SkippedDebt(s, t, coll) == 0
    ensures t.status.Active? && SyncedTrove(s, t) ==> SkippedDebt(s, t, coll) == 0
  {
  }

  lemma LargerDivisor(a: nat, b: nat, c: nat)
    requires 0 < b <= c
    ensures a / c <= a / b
  {
    FloorDivision(a, c);
    ScaleUp(b, c, a / c);
    QuotientAtLeast(a, b, a / c);
  }

  // _applyPendingRewards, then new collateral and debt with a new stake.
  lemma RatioAfterChange(s: Ledger, i: nat, coll: nat, debt: nat)
    requires i < |s.troves| && GoodTrove(s, s.troves[i]) && s.troves[i].status.Active? && debt >= MIN_NET_DEBT + GAS_COMPENSATION
    ensures
      ApplyPending(s, i).Some? ==>
        && i < |ApplyPending(s, i).value.troves|
        && (SetTrove(ApplyPending(s, i).value, i, coll, debt).Some? ==>
              var r := SetTrove(ApplyPending(s, i).value, i, coll, debt).value;
              NICROf(r, i) == RatioAfter(s, s.troves[i], coll, debt))
  {
    hide NewStake, PendingColl, PendingDebt, EntireColl, EntireDebt, ComputeNominalCR;
    if ApplyPending(s, i).Some? && SetTrove(ApplyPending(s, i).value, i, coll, debt).Some? {
      var a := ApplyPending(s, i).value;
      var r := SetTrove(a, i, coll, debt).value;
      SameSnapshotsSameStake(s, a, coll);
      RatioOfNew(s, r, i, coll, debt);
    }
  }

  lemma SameSnapshotsSameStake(s: Ledger, r: Ledger, coll: nat)
    requires r.stakesSnapshot == s.stakesSnapshot && r.collSnapshot == s.collSnapshot
    ensures NewStake(r, coll) == NewStake(s, coll)
  {
  }

  lemma RatioOfNew(s: Ledger, r: Ledger, i: nat, coll: nat, debt: nat)
    requires i < |s.troves| && i < |r.troves| && GoodTrove(s, s.troves[i]) && NewStake(s, coll).Some?
    requires r.LColl == s.LColl && r.LDebt == s.LDebt && s.troves[i].status.Active? && debt >= MIN_NET_DEBT + GAS_COMPENSATION
    requires r.troves[i] == Trove(Active, debt, coll, NewStake(s, coll).value, s.LColl,
                                  if HasPendingRewards(s, s.troves[i]) then s.LDebt else s.troves[i].debtSnapshot)
    ensures NICROf(r, i) == RatioAfter(s, s.troves[i], coll, debt)
  {
    hide NewStake, ComputeNominalCR;
    NothingPending(r, r.troves[i]);
  }

  // ---- What a redemption does to the list ----

  // The ratio of trove i once `lot` thUSD has been redeemed from it, from the state before.
  ghost function PartialRatio(s: Ledger, i: nat, lot: nat, price: nat): nat
    requires price > 0
  {
    if i < |s.troves| && GoodTrove(s, s.troves[i]) && lot <= AppliedDebt(s, s.troves[i])
       && FaceColl(lot, price) <= EntireColl(s, s.troves[i])
    then RatioAfter(s, s.troves[i], EntireColl(s, s.troves[i]) - FaceColl(lot, price), AppliedDebt(s, s.troves[i]) - lot)
    else 0
  }

  // The ratio of the first trove that is not closed: as it was, unless it was redeemed in part. The list is then told
  // the hinted ratio, which is no lower.
  lemma {:induction false} NextTroveRatio(s: Ledger, queue: seq<nat>, remaining: nat, price: nat, hintNICR: nat, l: Limbo)
    requires Books(s, l) && Queue(s, queue) && price > 0
    ensures Visitable(s, queue)
    ensures RedeemLoop(s, queue, remaining, price, hintNICR).Some? ==>
      var o := RedeemLoop(s, queue, remaining, price, hintNICR).value;
      o.closed < |queue| ==>
      && (o.partial == 0 ==> NICROf(o.s, queue[o.closed]) == NICROf(s, queue[o.closed]))
      && (o.partial > 0 ==>
            && NICROf(o.s, queue[o.closed]) == PartialRatio(s, queue[o.closed], o.partial, price) <= hintNICR
            && (SyncedTrove(s, s.troves[queue[o.closed]]) ==> NICROf(o.s, queue[o.closed]) == hintNICR))
    decreases |queue|
  {
    hide Books, RedeemOne, PartialRatio, NICROf, TokensMatchDebt, DebtClaimsCovered, Visited, GoodTrove;
    AllGoodInQueue(s, queue, l);
    if queue != [] && remaining > 0 && RedeemLoop(s, queue, remaining, price, hintNICR).Some? {
      FirstOfQueue(s, queue);
      RedeemOneKeeps(s, queue[0], remaining, price, hintNICR, l);
      OneRatio(s, queue[0], remaining, price, hintNICR, l);
      var one := RedeemOne(s, queue[0], remaining, price, hintNICR).value;
      if !one.cancelled {
        QueueRest(s, queue, remaining, price, hintNICR);
        FirstSparesRest(s, queue, remaining, price, hintNICR);
        OneSpares(s, queue[0], remaining, price, hintNICR);
        NextTroveRatio(one.s, queue[1..], remaining - one.lot, price, hintNICR,
                       l.(coll := l.coll + one.collLot, debt := l.debt + one.lot));
        OthersKeepRatio(s, one.s, queue);
        SnapshotsStay(s, queue[0], remaining, price, hintNICR);
        var o := RedeemLoop(one.s, queue[1..], remaining - one.lot, price, hintNICR).value;
        if one.closed && o.closed < |queue[1..]| {
          SamePartialRatio(s, one.s, queue[1..][o.closed], o.partial, price);
        }
      }
    }
  }

  lemma SamePartialRatio(s: Ledger, r: Ledger, i: nat, lot: nat, price: nat)
    requires |r.troves| == |s.troves| && r.LColl == s.LColl && r.LDebt == s.LDebt && price > 0
    requires r.stakesSnapshot == s.stakesSnapshot && r.collSnapshot == s.collSnapshot
    requires i < |s.troves| ==> r.troves[i] == s.troves[i]
    ensures PartialRatio(r, i, lot, price) == PartialRatio(s, i, lot, price)
  {
    hide ComputeNominalCR, FaceColl;
  }

  lemma OthersKeepRatio(s: Ledger, r: Ledger, queue: seq<nat>)
    requires queue != [] && |r.troves| == |s.troves| && r.LColl == s.LColl && r.LDebt == s.LDebt
    requires forall j | 0 <= j < |s.troves| && j != queue[0] :: r.troves[j] == s.troves[j]
    requires forall k | 1 <= k < |queue| :: queue[k] != queue[0]
    ensures forall k | 1 <= k < |queue| :: NICROf(r, queue[k]) == NICROf(s, queue[k])
  {
    hide NICROf;
    forall k | 1 <= k < |queue| ensures NICROf(r, queue[k]) == NICROf(s, queue[k]) {
      SameRatio(s, r, queue[k]);
    }
  }

  lemma SameRatio(s: Ledger, r: Ledger, i: nat)
    requires |r.troves| == |s.troves| && r.LColl == s.LColl && r.LDebt == s.LDebt
    requires i < |s.troves| ==> r.troves[i] == s.troves[i]
    ensures NICROf(r, i) == NICROf(s, i)
  {
    hide ComputeNominalCR;
  }

  lemma OneRatio(s: Ledger, i: nat, max: nat, price: nat, hintNICR: nat, l: Limbo)
    requires Books(s, l) && i < |s.troves| && s.troves[i].status.Active? && price > 0
    ensures GoodTrove(s, s.troves[i]) && |s.surplus| == |s.troves|
    ensures RedeemOne(s, i, max, price, hintNICR).Some? ==>
      var r := RedeemOne(s, i, max, price, hintNICR).value;
      && (r.cancelled ==> NICROf(r.s, i) == NICROf(s, i))
      && (!r.cancelled && !r.closed ==>
            && NICROf(r.s, i) == PartialRatio(s, i, r.lot, price) <= hintNICR && r.lot == max
            && (SyncedTrove(s, s.troves[i]) ==> NICROf(r.s, i) == hintNICR))
  {
    hide ApplyPending, SetTrove, CloseRedeemed, DebtClaimsCovered, Synced, TokensMatchDebt, FaceColl, RatioAfter;
    hide PendingColl, PendingDebt, ComputeNominalCR, Books, GoodTrove, NICROf;
    GoodOf(s, l, i);
    ApplyPendingKeeps(s, i, l);
    RedeemOneKeeps(s, i, max, price, hintNICR, l);
    if RedeemOne(s, i, max, price, hintNICR).Some? {
      var r := RedeemOne(s, i, max, price, hintNICR).value;
      if r.cancelled {
        CancelledIsApplied(s, i, max, price, hintNICR);
        AppliedRatio(s, i);
      } else if !r.closed {
        var coll, debt := EntireColl(s, s.troves[i]) - FaceColl(max, price), AppliedDebt(s, s.troves[i]) - max;
        RatioAfterChange(s, i, coll, debt);
        RatioAfterIsBelow(s, s.troves[i], coll, debt);
        NothingSkipped(s, s.troves[i], coll);
      }
    }
  }

  // Applying rewards, or skipping them, changes no ratio.
  lemma AppliedRatio(s: Ledger, i: nat)
    requires i < |s.troves| && GoodTrove(s, s.troves[i])
    ensures ApplyPending(s, i).Some? ==> NICROf(ApplyPending(s, i).value, i) == NICROf(s, i)
  {
    hide ComputeNominalCR;
    if ApplyPending(s, i).Some? && HasPendingRewards(s, s.troves[i]) {
      var a := ApplyPending(s, i).value;
      NothingPending(a, a.troves[i]);
      hide PendingColl, PendingDebt;
    }
  }

  // With nothing pending the stored amounts decide.
  lemma StoredRatio(s: Ledger, i: nat)
    requires i < |s.troves| && GoodTrove(s, s.troves[i])
    ensures s.troves[i].collSnapshot == s.LColl && s.troves[i].debtSnapshot == s.LDebt ==>
              NICROf(s, i) == ComputeNominalCR(s.troves[i].coll, s.troves[i].debt)
  {
    hide ComputeNominalCR, PendingColl, PendingDebt, GoodTrove;
    NothingPending(s, s.troves[i]);
  }

  // The list without the troves a redemption closed: those from position p + 1 up to w.
  function WithoutClosed(order: seq<nat>, p: int, w: int): seq<nat>
    requires -1 <= p <= w < |order|
  {
    order[..p + 1] + order[w + 1..]
  }

  lemma QueuePrefix(s: Ledger, order: seq<nat>, w: int, n: nat)
    requires InOrder(s, order) && -1 <= w < |order| && n <= w + 1
    ensures Queue(s, Upwards(order, w)[..n])
  {
    hide NICROf;
    QueueAscends(s, order, w);
    PrefixQueue(s, Upwards(order, w), n);
  }

  // The list after a redemption from position w upwards that came to o, by the ratios of r: in order without the troves it
  // closed, and with the one it redeemed in part, if there is one, taken out and put back at any slot for the hinted ratio.
  // That trove's ratio falls short of the hinted one where its rewards are skipped, and then the list is in order exactly
  // when its new lower neighbour is not above it.
  ghost predicate LeavesOrder(s: Ledger, order: seq<nat>, w: int, o: Outcome, price: nat, hintNICR: nat, r: Ledger)
    requires -1 <= w < |order| && price > 0
  {
    && o.closed <= w + 1 && |r.troves| == |s.troves|
    && (o.partial == 0 ==> InOrder(r, WithoutClosed(order, w - o.closed, w)))
    && (o.partial > 0 ==>
          && o.closed <= w
          && var id, rest := order[w - o.closed], WithoutClosed(order, w - o.closed - 1, w);
          && NICROf(r, id) == PartialRatio(s, id, o.partial, price) <= hintNICR
          && id < |s.troves| && (SyncedTrove(s, s.troves[id]) ==> NICROf(r, id) == hintNICR)
          && (forall k | 0 <= k < |rest| :: NICROf(r, rest[k]) == NICROf(s, rest[k]))
          && forall k | 0 <= k <= |rest| && Slot(rest, NICRs(r), hintNICR, k) ::
               InOrder(r, InsertAt(rest, k, id)) <==> k == |rest| || NICROf(s, rest[k]) <= PartialRatio(s, id, o.partial, price))
  }

  // Every redemption leaves the list in that order.
  lemma RedemptionKeepsSorted(s: Ledger, order: seq<nat>, w: int, n: nat, remaining: nat, price: nat, hintNICR: nat, l: Limbo)
    requires Books(s, l) && InOrder(s, order) && -1 <= w < |order| && n <= w + 1 && price > 0
    ensures Visitable(s, Upwards(order, w)[..n])
    ensures RedeemLoop(s, Upwards(order, w)[..n], remaining, price, hintNICR).Some? ==>
      var o := RedeemLoop(s, Upwards(order, w)[..n], remaining, price, hintNICR).value;
      o.closed <= n && LeavesOrder(s, order, w, o, price, hintNICR, o.s)
  {
    hide Books, RedeemLoop, NICROf, GoodTrove, RedeemedInOrder, OnlyThese, FaceValue, PartialRatio, LeavesOrder, Sorted;
    var queue := Upwards(order, w)[..n];
    QueuePrefix(s, order, w, n);
    NextTroveRatio(s, queue, remaining, price, hintNICR, l);
    RedeemLoopEffect(s, queue, remaining, price, hintNICR, l);
    if RedeemLoop(s, queue, remaining, price, hintNICR).Some? {
      var o := RedeemLoop(s, queue, remaining, price, hintNICR).value;
      ClosedPrefix(s, queue, remaining, o);
      LeftListed(s, order, w, n, o);
      LeftRatios(s, order, w, n, o);
      if o.partial > 0 {
        assert queue[o.closed] == order[w - o.closed];
        PartialKeepsSorted(s, order, w, n, o, hintNICR);
        LeavesPart(s, order, w, o, price, hintNICR);
      } else {
        LeavesWhole(s, order, w, n, o, price, hintNICR);
      }
    }
  }

  lemma LeavesWhole(s: Ledger, order: seq<nat>, w: int, n: nat, o: Outcome, price: nat, hintNICR: nat)
    requires InOrder(s, order) && -1 <= w < |order| && n <= w + 1 && price > 0 && o.partial == 0 && o.closed <= n
    requires Lists(o.s, WithoutClosed(order, w - o.closed, w)) && |o.s.troves| == |s.troves|
    requires forall k | 0 <= k < |order| && (k < w - o.closed || k > w || (o.closed == n && k == w - n)) ::
               NICROf(o.s, order[k]) == NICROf(s, order[k])
    requires o.closed < n ==> NICROf(o.s, order[w - o.closed]) == NICROf(s, order[w - o.closed])
    ensures LeavesOrder(s, order, w, o, price, hintNICR, o.s)
  {
    hide NICROf, Sorted, Lists;
    SortedWhereSame(s, o.s, order, WithoutClosed(order, w - o.closed, w), w - o.closed + 1, w + 1);
  }

  lemma LeavesPart(s: Ledger, order: seq<nat>, w: int, o: Outcome, price: nat, hintNICR: nat)
    requires -1 <= w < |order| && price > 0 && o.partial > 0 && o.closed <= w && |o.s.troves| == |s.troves|
    requires order[w - o.closed] < |s.troves| && NICROf(o.s, order[w - o.closed]) <= hintNICR
    requires NICROf(o.s, order[w - o.closed]) == PartialRatio(s, order[w - o.closed], o.partial, price)
    requires SyncedTrove(s, s.troves[order[w - o.closed]]) ==> NICROf(o.s, order[w - o.closed]) == hintNICR
    requires
      var id, rest := order[w - o.closed], WithoutClosed(order, w - o.closed - 1, w);
      && (forall k | 0 <= k < |rest| :: NICROf(o.s, rest[k]) == NICROf(s, rest[k]))
      && forall k | 0 <= k <= |rest| && Slot(rest, NICRs(o.s), hintNICR, k) ::
           InOrder(o.s, InsertAt(rest, k, id)) <==> k == |rest| || NICROf(s, rest[k]) <= NICROf(o.s, id)
    ensures LeavesOrder(s, order, w, o, price, hintNICR, o.s)
  {
    hide NICROf, InOrder, InsertAt, Slot, PartialRatio, WithoutClosed;
  }

  lemma ClosedPrefix(s: Ledger, queue: seq<nat>, remaining: nat, o: Outcome)
    requires AllGood(s, queue) && RedeemedInOrder(s, queue, remaining, o) && OnlyThese(s, queue, o)
    ensures o.closed <= |queue| && |o.s.troves| == |s.troves| && (o.partial > 0 ==> o.closed < |queue|)
  {
  }

  // Position j of the list is visited as number w - j.
  lemma VisitedAt(order: seq<nat>, w: int, n: nat, j: nat)
    requires Distinct(order) && -1 <= w < |order| && n <= w + 1 && j < |order|
    ensures w - n < j <= w ==> Upwards(order, w)[..n][w - j] == order[j]
    ensures order[j] in Upwards(order, w)[..n] ==> w - n < j <= w
  {
    var queue := Upwards(order, w)[..n];
    if order[j] in queue {
      var k :| 0 <= k < n && queue[k] == order[j];
      assert order[w - k] == order[j];
    }
  }

  // Which troves are left in the list, and which of them are as they were.
  lemma LeftListed(s: Ledger, order: seq<nat>, w: int, n: nat, o: Outcome)
    requires Lists(s, order) && -1 <= w < |order| && n <= w + 1
    requires OnlyThese(s, Upwards(order, w)[..n], o) && o.closed <= n
    ensures Lists(o.s, WithoutClosed(order, w - o.closed, w))
  {
    hide NICROf, OnlyThese, WithoutClosed;
    var rest := WithoutClosed(order, w - o.closed, w);
    LeftDistinct(order, w - o.closed, w);
    forall i | i in rest ensures i < |o.s.troves| && o.s.troves[i].status.Active? {
      LeftActive(s, order, w, n, o, i);
    }
    forall i | 0 <= i < |o.s.troves| && o.s.troves[i].status.Active? ensures i in rest {
      ActiveLeft(s, order, w, n, o, i);
    }
  }

  lemma LeftDistinct(order: seq<nat>, p: int, w: int)
    requires Distinct(order) && -1 <= p <= w < |order|
    ensures Distinct(WithoutClosed(order, p, w))
  {
    CutKeepsDistinct(order, p + 1, w + 1);
  }

  lemma LeftActive(s: Ledger, order: seq<nat>, w: int, n: nat, o: Outcome, i: nat)
    requires Lists(s, order) && -1 <= w < |order| && n <= w + 1
    requires OnlyThese(s, Upwards(order, w)[..n], o) && o.closed <= n && i in WithoutClosed(order, w - o.closed, w)
    ensures i < |o.s.troves| && o.s.troves[i].status.Active?
  {
    hide OnlyThese, Lists;
    var rest := WithoutClosed(order, w - o.closed, w);
    var m :| 0 <= m < |rest| && rest[m] == i;
    StatusAfter(s, order, w, n, o, if m <= w - o.closed then m else m + o.closed);
  }

  lemma ActiveLeft(s: Ledger, order: seq<nat>, w: int, n: nat, o: Outcome, i: nat)
    requires Lists(s, order) && -1 <= w < |order| && n <= w + 1
    requires OnlyThese(s, Upwards(order, w)[..n], o) && o.closed <= n
    requires i < |o.s.troves| && o.s.troves[i].status.Active?
    ensures i in WithoutClosed(order, w - o.closed, w)
  {
    hide OnlyThese, Lists;
    ActiveBefore(s, order, w, n, o, i);
    var j :| 0 <= j < |order| && order[j] == i;
    StatusAfter(s, order, w, n, o, j);
    var rest := WithoutClosed(order, w - o.closed, w);
    assert rest[if j <= w - o.closed then j else j - o.closed] == i;
  }

  lemma StatusAfter(s: Ledger, order: seq<nat>, w: int, n: nat, o: Outcome, j: nat)
    requires Lists(s, order) && -1 <= w < |order| && n <= w + 1 && j < |order|
    requires OnlyThese(s, Upwards(order, w)[..n], o) && o.closed <= n
    ensures order[j] < |o.s.troves|
    ensures o.s.troves[order[j]].status.Active? <==> j <= w - o.closed || j > w
    ensures j < w - o.closed || j > w || (o.closed == n && j == w - n) ==> o.s.troves[order[j]] == s.troves[order[j]]
  {
    VisitedAt(order, w, n, j);
    assert order[j] in order;
    var queue := Upwards(order, w)[..n];
    if w - n < j <= w {
      assert queue[w - j] == order[j];
    } else {
      assert order[j] !in queue;
    }
  }

  lemma ActiveBefore(s: Ledger, order: seq<nat>, w: int, n: nat, o: Outcome, i: nat)
    requires Lists(s, order) && -1 <= w < |order| && n <= w + 1
    requires OnlyThese(s, Upwards(order, w)[..n], o) && o.closed <= n
    requires i < |o.s.troves| && o.s.troves[i].status.Active?
    ensures i in order
  {
    var queue := Upwards(order, w)[..n];
    if i in queue {
      var k :| 0 <= k < n && queue[k] == i;
      assert order[w - k] == i;
    }
  }

  lemma LeftRatios(s: Ledger, order: seq<nat>, w: int, n: nat, o: Outcome)
    requires Lists(s, order) && -1 <= w < |order| && n <= w + 1
    requires OnlyThese(s, Upwards(order, w)[..n], o) && o.closed <= n
    ensures forall k | 0 <= k < |order| && (k < w - o.closed || k > w || (o.closed == n && k == w - n)) ::
              NICROf(o.s, order[k]) == NICROf(s, order[k])
  {
    hide NICROf;
    forall k | 0 <= k < |order| && (k < w - o.closed || k > w || (o.closed == n && k == w - n))
      ensures NICROf(o.s, order[k]) == NICROf(s, order[k])
    {
      StatusAfter(s, order, w, n, o, k);
      SameRatio(s, o.s, order[k]);
    }
  }

  // A part of a sorted list stays sorted where the ratios of its troves have not changed.
  lemma SortedWhereSame(s: Ledger, r: Ledger, order: seq<nat>, rest: seq<nat>, i: nat, j: nat)
    requires Sorted(order, NICRs(s)) && i <= j <= |order| && rest == order[..i] + order[j..]
    requires forall k | 0 <= k < |order| && (k < i || k >= j) :: NICROf(r, order[k]) == NICROf(s, order[k])
    ensures Sorted(rest, NICRs(r))
  {
    hide NICROf;
    CutKeepsSorted(order, NICRs(s), i, j);
    forall id | id in rest ensures NICRs(r)(id) == NICRs(s)(id) {
      var m :| 0 <= m < |rest| && rest[m] == id;
      assert rest[m] == order[if m < i then m else m - i + j];
    }
    MonotoneChangeKeepsSorted(rest, NICRs(s), NICRs(r));
  }

  lemma PartialKeepsSorted(s: Ledger, order: seq<nat>, w: int, n: nat, o: Outcome, hintNICR: nat)
    requires InOrder(s, order) && -1 <= w < |order| && n <= w + 1 && o.closed < n
    requires Lists(o.s, WithoutClosed(order, w - o.closed, w))
    requires forall k | 0 <= k < |order| && (k < w - o.closed || k > w) :: NICROf(o.s, order[k]) == NICROf(s, order[k])
    requires NICROf(o.s, Upwards(order, w)[..n][o.closed]) <= hintNICR
    ensures
      var id, rest := order[w - o.closed], WithoutClosed(order, w - o.closed - 1, w);
      && Sorted(rest, NICRs(o.s))
      && (forall k | 0 <= k < |rest| :: NICROf(o.s, rest[k]) == NICROf(s, rest[k]))
      && forall k | 0 <= k <= |rest| && Slot(rest, NICRs(o.s), hintNICR, k) ::
           InOrder(o.s, InsertAt(rest, k, id)) <==> k == |rest| || NICROf(s, rest[k]) <= NICROf(o.s, id)
  {
    hide NICROf, InsertAt, Sorted, Lists;
    var p := w - o.closed;
    var id, rest := order[p], WithoutClosed(order, p - 1, w);
    SortedWhereSame(s, o.s, order, rest, p, w + 1);
    RestRatios(s, o.s, order, rest, p, w + 1);
    forall k | 0 <= k <= |rest| && Slot(rest, NICRs(o.s), hintNICR, k)
      ensures InOrder(o.s, InsertAt(rest, k, id)) <==> k == |rest| || NICROf(s, rest[k]) <= NICROf(o.s, id)
    {
      InsertSortsExactly(rest, NICRs(o.s), id, hintNICR, k);
      ReinsertedLists(o.s, WithoutClosed(order, p, w), rest, p, k, id);
    }
  }

  lemma RestRatios(s: Ledger, r: Ledger, order: seq<nat>, rest: seq<nat>, i: nat, j: nat)
    requires i <= j <= |order| && rest == order[..i] + order[j..]
    requires forall k | 0 <= k < |order| && (k < i || k >= j) :: NICROf(r, order[k]) == NICROf(s, order[k])
    ensures forall k | 0 <= k < |rest| :: NICRs(r)(rest[k]) == NICROf(s, rest[k])
  {
    hide NICROf;
    forall k | 0 <= k < |rest| ensures NICRs(r)(rest[k]) == NICROf(s, rest[k]) {
      assert rest[k] == order[if k < i then k else k - i + j];
    }
  }

  // Moving one trove within the list does not change whom it lists.
  lemma ReinsertedLists(s: Ledger, order: seq<nat>, rest: seq<nat>, p: nat, k: nat, id: nat)
    requires Lists(s, order) && p < |order| && order[p] == id && rest == order[..p] + order[p + 1..] && k <= |rest|
    ensures Lists(s, InsertAt(rest, k, id))
  {
    RemovedAt(order, p);
    assert rest == RemoveAt(order, p);
    InsertedAt(rest, k, id);
  }

  // ---- The visits ----

  // When a redemption comes to a trove, all it has done is close the troves visited before. The trove still has
  // the ratio it had at the start, so it is at or above MCR, or at the edge, at its visit.
  lemma RatioAtVisit(s: Ledger, order: seq<nat>, price: nat, hint: nat, k: nat, remaining: nat, hintNICR: nat, l: Limbo)
    requires Books(s, l) && InOrder(s, order) && price > 0
    ensures AllGood(s, order)
    ensures
      var w := Entry(s, order, price, hint);
      k <= w ==>
      && Visitable(s, Upwards(order, w)[..k])
      && var loop := RedeemLoop(s, Upwards(order, w)[..k], remaining, price, hintNICR);
      loop.Some? ==>
      && order[w - k] < |loop.value.s.troves| && GoodTrove(loop.value.s, loop.value.s.troves[order[w - k]])
      && ICR(loop.value.s, order[w - k], price) == ICR(s, order[w - k], price)
      && (ICR(s, order[w - k], price) >= MCR || NICROf(s, order[w - k]) == Edge(price))
  {
    hide Books, RedeemLoop, NICROf, GoodTrove, RedeemedInOrder, FaceValue, ICR;
    VisitedAboveMCR(s, order, price, hint, l);
    var w := Entry(s, order, price, hint);
    if k <= w {
      var queue := Upwards(order, w)[..k];
      QueuePrefix(s, order, w, k);
      RedeemLoopEffect(s, queue, remaining, price, hintNICR, l);
      RedeemLoopKeeps(s, queue, remaining, price, hintNICR, l);
      var loop := RedeemLoop(s, queue, remaining, price, hintNICR);
      if loop.Some? {
        VisitedAt(order, w, k, w - k);
        SameICR(s, loop.value.s, order[w - k], price);
      }
    }
  }

  lemma SameICR(s: Ledger, r: Ledger, i: nat, price: nat)
    requires i < |s.troves| && |r.troves| == |s.troves| && r.LColl == s.LColl && r.LDebt == s.LDebt
    requires r.troves[i] == s.troves[i] && GoodTrove(s, s.troves[i])
    ensures GoodTrove(r, r.troves[i]) && ICR(r, i, price) == ICR(s, i, price)
  {
    hide ComputeCR;
  }

  // ---- The other operations ----

  lemma SameTrovesInOrder(s: Ledger, r: Ledger, order: seq<nat>)
    requires r.troves == s.troves && r.LColl == s.LColl && r.LDebt == s.LDebt
    ensures InOrder(s, order) ==> InOrder(r, order)
  {
    hide NICROf;
    forall i ensures NICRs(r)(i) == NICRs(s)(i) {
      SameRatio(s, r, i);
    }
  }

  // One trove changes and the others do not: the list without it stays sorted.
  lemma OthersSorted(s: Ledger, r: Ledger, i: nat, rest: seq<nat>)
    requires i < |s.troves| && r.LColl == s.LColl && r.LDebt == s.LDebt && |r.troves| == |s.troves|
    requires r.troves == s.troves[i := r.troves[i]] && i !in rest && Sorted(rest, NICRs(s))
    ensures Sorted(rest, NICRs(r))
  {
    hide NICROf;
    forall j | j in rest ensures NICRs(r)(j) == NICRs(s)(j) {
      SameRatio(s, r, j);
    }
    MonotoneChangeKeepsSorted(rest, NICRs(s), NICRs(r));
  }

  // Opening a trove and putting it into the list at any slot for its ratio.
  lemma OpenKeepsOrder(s: Ledger, order: seq<nat>, i: nat, amount: nat, coll: nat, fee: nat, price: nat, feedActive: bool, k: nat)
    requires InOrder(s, order) && i < |s.troves| && k <= |order|
    ensures Open(s, i, amount, coll, fee, price, feedActive).Some? ==>
      var r := Open(s, i, amount, coll, fee, price, feedActive).value;
      Slot(order, NICRs(r), NICROf(r, i), k) ==> InOrder(r, InsertAt(order, k, i))
  {
    hide NICROf, NewStake, ComputeCR, ComputeNominalCR, InsertAt;
    if Open(s, i, amount, coll, fee, price, feedActive).Some? {
      var r := Open(s, i, amount, coll, fee, price, feedActive).value;
      OthersSorted(s, r, i, order);
      InsertedAt(order, k, i);
      if Slot(order, NICRs(r), NICROf(r, i), k) {
        InsertKeepsSorted(order, NICRs(r), i, k);
      }
    }
  }

  // A change of the trove at position j: it is taken out and put back at any slot for its new ratio.
  lemma ReplacedKeepsOrder(s: Ledger, r: Ledger, order: seq<nat>, j: nat, k: nat)
    requires InOrder(s, order) && j < |order| && k < |order| && r.LColl == s.LColl && r.LDebt == s.LDebt
    requires order[j] < |s.troves|
    requires |r.troves| == |s.troves| && r.troves == s.troves[order[j] := r.troves[order[j]]]
    ensures RemoveAt(order, j) == order[..j] + order[j + 1..]
    ensures !r.troves[order[j]].status.Active? ==> InOrder(r, RemoveAt(order, j))
    ensures r.troves[order[j]].status.Active? && Slot(RemoveAt(order, j), NICRs(r), NICROf(r, order[j]), k) ==>
              InOrder(r, InsertAt(RemoveAt(order, j), k, order[j]))
  {
    hide NICROf, InsertAt;
    var i, rest := order[j], RemoveAt(order, j);
    assert i in order;
    RemovedAt(order, j);
    RemoveKeepsSorted(order, NICRs(s), j);
    OthersSorted(s, r, i, rest);
    InsertedAt(rest, k, i);
    if Slot(rest, NICRs(r), NICROf(r, i), k) {
      InsertKeepsSorted(rest, NICRs(r), i, k);
    }
  }

  // What an adjustment makes of a trove's collateral and debt.
  function AdjustedColl(s: Ledger, t: Trove, c: Change): int
    requires GoodTrove(s, t)
  {
    EntireColl(s, t) + c.collIn - c.collOut
  }

  function AdjustedDebt(s: Ledger, t: Trove, c: Change, fee: nat, price: nat): int
    requires GoodTrove(s, t)
  {
    if c.increase then AppliedDebt(s, t) + c.debt + (if RecoveryMode(s, price) then 0 else fee) else AppliedDebt(s, t) - c.debt
  }

  // The trove is put back at a slot for the ratio of its new collateral and debt, in which a skipped pending debt is not
  // counted. The list is in order again exactly when the trove's new lower neighbour, if any, is not above the
  // ratio in which it is.
  lemma AdjustOrderExactly(s: Ledger, order: seq<nat>, j: nat, c: Change, fee: nat, price: nat, k: nat)
    requires Inv(s) && InOrder(s, order) && j < |order| && k < |order|
    ensures order[j] < |s.troves| && GoodTrove(s, s.troves[order[j]])
    ensures Adjust(s, order[j], c, fee, price).Some? ==>
      var r, t := Adjust(s, order[j], c, fee, price).value, s.troves[order[j]];
      var coll, debt, rest := AdjustedColl(s, t, c), AdjustedDebt(s, t, c, fee, price), RemoveAt(order, j);
      && coll >= 0 && debt > 0 && |rest| == |order| - 1
      && (Slot(rest, NICRs(s), ComputeNominalCR(coll, debt), k) ==>
            (InOrder(r, InsertAt(rest, k, order[j])) <==> k == |rest| || NICROf(s, rest[k]) <= RatioAfter(s, t, coll, debt)))
  {
    hide Inv, NICROf, Slot, RemoveAt, InsertAt, Sorted, Distinct, Adjust, RatioAfter, ComputeNominalCR, AdjustedColl, AdjustedDebt;
    assert order[j] in order;
    AdjustKeeps(s, order[j], c, fee, price);
    AdjustTouchesOne(s, order[j], c, fee, price);
    if Adjust(s, order[j], c, fee, price).Some? {
      AdjustedRatio(s, order[j], c, fee, price);
      var t := s.troves[order[j]];
      ReplacedOrderExactly(s, Adjust(s, order[j], c, fee, price).value, order, j, k,
                           ComputeNominalCR(AdjustedColl(s, t, c), AdjustedDebt(s, t, c, fee, price)));
    }
  }

  // Where no debt stays pending on it the list is in order again, at any slot.
  lemma AdjustKeepsOrder(s: Ledger, order: seq<nat>, j: nat, c: Change, fee: nat, price: nat, k: nat)
    requires Inv(s) && InOrder(s, order) && j < |order| && k < |order|
    ensures order[j] < |s.troves| && GoodTrove(s, s.troves[order[j]])
    ensures Adjust(s, order[j], c, fee, price).Some? ==>
      var r, t := Adjust(s, order[j], c, fee, price).value, s.troves[order[j]];
      && AdjustedColl(s, t, c) >= 0 && AdjustedDebt(s, t, c, fee, price) > 0
      && (SkippedDebt(s, t, AdjustedColl(s, t, c)) == 0
          && Slot(RemoveAt(order, j), NICRs(s), ComputeNominalCR(AdjustedColl(s, t, c), AdjustedDebt(s, t, c, fee, price)), k) ==>
            InOrder(r, InsertAt(RemoveAt(order, j), k, order[j])))
  {
    hide Inv, NICROf, InOrder, RemoveAt, InsertAt, Adjust, RatioAfter, ComputeNominalCR, AdjustedColl, AdjustedDebt, SkippedDebt;
    AdjustOrderExactly(s, order, j, c, fee, price, k);
    if Adjust(s, order[j], c, fee, price).Some? {
      var t := s.troves[order[j]];
      RatioAfterIsBelow(s, t, AdjustedColl(s, t, c), AdjustedDebt(s, t, c, fee, price));
    }
  }

  lemma AdjustedRatio(s: Ledger, i: nat, c: Change, fee: nat, price: nat)
    requires i < |s.troves| && GoodTrove(s, s.troves[i])
    ensures Adjust(s, i, c, fee, price).Some? ==>
      var r, t := Adjust(s, i, c, fee, price).value, s.troves[i];
      var coll, debt := AdjustedColl(s, t, c), AdjustedDebt(s, t, c, fee, price);
      && coll >= 0 && debt > 0 && i < |r.troves| && r.troves[i].coll == coll && r.troves[i].debt == debt
      && NICROf(r, i) == RatioAfter(s, t, coll, debt) <= ComputeNominalCR(coll, debt)
  {
    hide ApplyPending, SetTrove, NewStake, NICROf, RatioAfter, ComputeCR, ComputeNominalCR, AdmitsAdjustment, MoveTokens;
    if Adjust(s, i, c, fee, price).Some? {
      var r, t := Adjust(s, i, c, fee, price).value, s.troves[i];
      AppliedAmounts(s, i);
      var a := ApplyPending(s, i).value;
      var coll, debt := AdjustedColl(s, t, c), AdjustedDebt(s, t, c, fee, price);
      RatioAfterChange(s, i, coll, debt);
      RatioAfterIsBelow(s, t, coll, debt);
      SetAmounts(a, i, coll, debt);
      var charged := if c.increase && !RecoveryMode(s, price) then fee else 0;
      TokensLeaveTroves(SetTrove(a, i, coll, debt).value, c, charged);
      SameRatio(SetTrove(a, i, coll, debt).value, r, i);
    }
  }

  lemma AppliedAmounts(s: Ledger, i: nat)
    requires i < |s.troves| && GoodTrove(s, s.troves[i])
    ensures ApplyPending(s, i).Some? ==>
              var a := ApplyPending(s, i).value;
              && |a.troves| == |s.troves| && a.troves[i].coll == EntireColl(s, s.troves[i])
              && a.troves[i].debt == AppliedDebt(s, s.troves[i])
    ensures s.troves[i].status.Active? ==> AppliedDebt(s, s.troves[i]) >= MIN_NET_DEBT + GAS_COMPENSATION
  {
    NothingPending(s, s.troves[i]);
    hide PendingColl, PendingDebt;
  }

  lemma SetAmounts(s: Ledger, i: nat, coll: nat, debt: nat)
    requires i < |s.troves|
    ensures SetTrove(s, i, coll, debt).Some? ==>
              var r := SetTrove(s, i, coll, debt).value;
              |r.troves| == |s.troves| && r.troves[i].coll == coll && r.troves[i].debt == debt
  {
    hide NewStake;
  }

  lemma TokensLeaveTroves(s: Ledger, c: Change, charged: nat)
    ensures MoveTokens(s, c, charged).Some? ==>
              var r := MoveTokens(s, c, charged).value;
              r.troves == s.troves && r.LColl == s.LColl && r.LDebt == s.LDebt
  {
  }

  // moveCollateralGainToTrove puts the gain into the trove and the trove back into the list.
  lemma GainOrderExactly(s: Ledger, order: seq<nat>, j: nat, price: nat, k: nat)
    requires Inv(s) && InOrder(s, order) && j < |order| && k < |order|
    ensures order[j] < |s.troves| && GoodTrove(s, s.troves[order[j]])
    ensures GainToTrove(s, order[j], price).Some? ==>
      && order[j] < |s.pool.deposits| && SP.GoodDeposit(s.pool, s.pool.deposits[order[j]])
      && var r, t := GainToTrove(s, order[j], price).value, s.troves[order[j]];
      var coll, rest := EntireColl(s, t) + SP.CollateralGain(s.pool, s.pool.deposits[order[j]]), RemoveAt(order, j);
      && |rest| == |order| - 1
      && (Slot(rest, NICRs(s), ComputeNominalCR(coll, AppliedDebt(s, t)), k) ==>
            (InOrder(r, InsertAt(rest, k, order[j])) <==>
             k == |rest| || NICROf(s, rest[k]) <= RatioAfter(s, t, coll, AppliedDebt(s, t))))
  {
    hide Inv, NICROf, Slot, RemoveAt, InsertAt, Sorted, Distinct, Adjust, RatioAfter, ComputeNominalCR, SP.TryStep, SP.Valid;
    assert order[j] in order;
    InvGood(s, order[j]);
    if GainToTrove(s, order[j], price).Some? {
      var op := SP.WithdrawGainToTrove(order[j], s.troves[order[j]].status.Active?);
      GainMoved(s.pool, op);
      var q := SP.TryStep(s.pool, op).value;
      var c := Change(s.pool.collateral - q.collateral, 0, 0, false);
      AdjustOrderExactly(s, order, j, c, 0, price, k);
      SameTrovesInOrder(Adjust(s, order[j], c, 0, price).value, GainToTrove(s, order[j], price).value,
                        InsertAt(RemoveAt(order, j), k, order[j]));
      SameTrovesInOrder(GainToTrove(s, order[j], price).value, Adjust(s, order[j], c, 0, price).value,
                        InsertAt(RemoveAt(order, j), k, order[j]));
    }
  }

  // A change of the trove at position j that is put back at a slot for x, no lower than its ratio.
  lemma ReplacedOrderExactly(s: Ledger, r: Ledger, order: seq<nat>, j: nat, k: nat, x: nat)
    requires InOrder(s, order) && j < |order| && k < |order| && r.LColl == s.LColl && r.LDebt == s.LDebt
    requires order[j] < |s.troves| && |r.troves| == |s.troves| && r.troves == s.troves[order[j] := r.troves[order[j]]]
    requires r.troves[order[j]].status.Active? && NICROf(r, order[j]) <= x
    ensures |RemoveAt(order, j)| == |order| - 1
    ensures Slot(RemoveAt(order, j), NICRs(s), x, k) ==>
              (InOrder(r, InsertAt(RemoveAt(order, j), k, order[j])) <==>
               k == |order| - 1 || NICROf(s, RemoveAt(order, j)[k]) <= NICROf(r, order[j]))
  {
    hide NICROf, InsertAt;
    var i, rest := order[j], RemoveAt(order, j);
    assert i in order;
    RemovedAt(order, j);
    RemoveKeepsSorted(order, NICRs(s), j);
    OthersSorted(s, r, i, rest);
    InsertedAt(rest, k, i);
    if Slot(rest, NICRs(s), x, k) {
      OthersRatios(s, r, i, rest);
      InsertSortsExactly(rest, NICRs(r), i, x, k);
    }
  }

  lemma OthersRatios(s: Ledger, r: Ledger, i: nat, rest: seq<nat>)
    requires i < |s.troves| && r.LColl == s.LColl && r.LDebt == s.LDebt && |r.troves| == |s.troves|
    requires r.troves == s.troves[i := r.troves[i]] && i !in rest
    ensures forall k | 0 <= k < |rest| :: NICRs(r)(rest[k]) == NICRs(s)(rest[k]) == NICROf(s, rest[k])
  {
    hide NICROf;
    forall k | 0 <= k < |rest| ensures NICRs(r)(rest[k]) == NICRs(s)(rest[k]) {
      assert rest[k] in rest;
      SameRatio(s, r, rest[k]);
    }
  }

  lemma AdjustTouchesOne(s: Ledger, i: nat, c: Change, fee: nat, price: nat)
    requires i < |s.troves| && GoodTrove(s, s.troves[i])
    ensures Adjust(s, i, c, fee, price).Some? ==>
      var r := Adjust(s, i, c, fee, price).value;
      && r.LColl == s.LColl && r.LDebt == s.LDebt && |r.troves| == |s.troves|
      && r.troves == s.troves[i := r.troves[i]] && r.troves[i].status.Active? && r.troves[i].collSnapshot >= r.LColl
  {
    hide PendingColl, PendingDebt, NewStake, ComputeCR, ComputeNominalCR, AdmitsAdjustment, GoodTrove;
  }

  lemma InvGood(s: Ledger, i: nat)
    requires Inv(s) && i < |s.troves|
    ensures GoodTrove(s, s.troves[i]) && SP.Valid(s.pool) && |s.pool.deposits| == |s.troves|
  {
  }

  lemma CloseKeepsOrder(s: Ledger, order: seq<nat>, j: nat, price: nat)
    requires Inv(s) && InOrder(s, order) && j < |order|
    ensures order[j] < |s.troves| && GoodTrove(s, s.troves[order[j]])
    ensures Close(s, order[j], price).Some? ==> InOrder(Close(s, order[j], price).value, RemoveAt(order, j))
  {
    hide Inv, NICROf, RemoveAt, Sorted, Distinct;
    assert order[j] in order;
    CloseKeeps(s, order[j], price);
    CloseTouchesOne(s, order[j], price);
    if Close(s, order[j], price).Some? {
      ReplacedKeepsOrder(s, Close(s, order[j], price).value, order, j, 0);
    }
  }

  lemma CloseTouchesOne(s: Ledger, i: nat, price: nat)
    requires i < |s.troves| && GoodTrove(s, s.troves[i])
    ensures Close(s, i, price).Some? ==>
      var r := Close(s, i, price).value;
      && r.LColl == s.LColl && r.LDebt == s.LDebt && |r.troves| == |s.troves|
      && r.troves == s.troves[i := r.troves[i]] && !r.troves[i].status.Active?
  {
    hide PendingColl, PendingDebt, Sum, ComputeCR, GoodTrove;
  }

  // ---- Liquidations ----

  // The list without the troves that are no longer active.
  function Survivors(troves: seq<Trove>, order: seq<nat>): (rest: seq<nat>)
    ensures forall i :: i in rest <==> i in order && Survives(troves, i)
  {
    if order == [] then []
    else
      var shorter, i := order[..|order| - 1], order[|order| - 1];
      if Survives(troves, i) then Survivors(troves, shorter) + [i] else Survivors(troves, shorter)
  }

  predicate Survives(troves: seq<Trove>, i: nat) { i < |troves| && troves[i].status.Active? }

  ghost predicate Keeps(order: seq<nat>, troves: seq<Trove>, after: nat -> nat) {
    forall j, k | 0 <= j < k < |order| && Survives(troves, order[j]) && Survives(troves, order[k]) ::
      after(order[j]) >= after(order[k])
  }

  lemma {:induction false} SurvivorsKeep(troves: seq<Trove>, order: seq<nat>, after: nat -> nat)
    requires Distinct(order)
    ensures Distinct(Survivors(troves, order))
    ensures Keeps(order, troves, after) ==> Sorted(Survivors(troves, order), after)
  {
    if order != [] {
      var shorter, i := order[..|order| - 1], order[|order| - 1];
      SurvivorsKeep(troves, shorter, after);
      var rest := Survivors(troves, shorter);
      assert i !in rest;
      if Keeps(order, troves, after) {
        assert Keeps(shorter, troves, after);
        forall m | 0 <= m < |rest| && Survives(troves, i) ensures after(rest[m]) >= after(i) {
          assert rest[m] in rest;
          var j :| 0 <= j < |shorter| && shorter[j] == rest[m];
          assert order[j] == rest[m];
        }
      }
    }
  }

  // A liquidation closes troves and leaves the others' records alone.
  ghost predicate OnlyCloses(s: Ledger, r: Ledger) {
    && |r.troves| == |s.troves|
    && forall i | 0 <= i < |s.troves| && r.troves[i].status.Active? :: r.troves[i] == s.troves[i]
  }

  lemma BatchStepCloses(p: Progress, i: nat, price: nat, recovery: bool)
    requires i < |p.s.troves| && GoodTrove(p.s, p.s.troves[i]) && |p.s.surplus| == |p.s.troves|
    ensures BatchStep(p, i, price, recovery).Some? ==> OnlyCloses(p.s, BatchStep(p, i, price, recovery).value.s)
  {
    hide Take, RecoveryValues, OffsetAndRedistribute, ComputeCR, GoodTrove, EntireColl, EntireDebt;
    forall v ensures Take(p.s, i, v).Some? ==> OnlyCloses(p.s, Take(p.s, i, v).value) {
      TakeCloses(p.s, i, v);
    }
  }

  lemma TakeCloses(s: Ledger, i: nat, v: Values)
    requires i < |s.troves| && GoodTrove(s, s.troves[i]) && |s.surplus| == |s.troves|
    ensures Take(s, i, v).Some? ==> OnlyCloses(s, Take(s, i, v).value)
  {
    hide PendingColl, PendingDebt, GoodTrove, Sum;
  }

  lemma {:induction false} BatchCloses(s: Ledger, ids: seq<nat>, price: nat, recovery: bool)
    requires Books(s, NOTHING) && price > 0
    ensures Batch(s, ids, price, recovery).Some? ==> OnlyCloses(s, Batch(s, ids, price, recovery).value.s)
    decreases |ids|
  {
    hide Books, BatchStep, InBatch, Tracked;
    if ids != [] {
      var shorter, i := ids[..|ids| - 1], ids[|ids| - 1];
      BatchCloses(s, shorter, price, recovery);
      if Batch(s, shorter, price, recovery).Some? {
        var p := Batch(s, shorter, price, recovery).value;
        if i < |p.s.troves| {
          BooksMeanGood(p, s, i);
          BatchStepCloses(p, i, price, recovery);
        }
      }
    }
  }

  // The state before a batch, with the stakes the batch leaves to share its redistribution. p: what the batch comes to.
  function Sharing(s: Ledger, p: Progress): Ledger { s.(totalStakes := p.s.totalStakes) }

  // The nominal ratio of trove i with its share of the redistribution.
  ghost function SharedRatio(s: Ledger, p: Progress, i: nat): nat {
    if p.totals.debtToRedistribute == 0 || p.s.totalStakes == 0 || i >= |s.troves| || !GoodTrove(s, s.troves[i]) then NICROf(s, i)
    else
      ComputeNominalCR(CollAfter(Sharing(s, p), p.totals.collToRedistribute, s.troves[i]) / PRECISION,
                       DebtAfter(Sharing(s, p), p.totals.debtToRedistribute, s.troves[i]) / PRECISION)
  }

  ghost function SharedRatios(s: Ledger, p: Progress): nat -> nat { (i: nat) => SharedRatio(s, p, i) }

  // A liquidation takes the closed troves out of the list and leaves the others where they are. The list is in order
  // exactly when no survivor, with its share, is above the survivor before it.
  lemma LiquidateOrderExactly(s: Ledger, order: seq<nat>, ids: seq<nat>, price: nat)
    requires Inv(s) && InOrder(s, order) && price > 0
    ensures Liquidate(s, ids, price).Some? ==>
      var p := Batch(s, ids, price, RecoveryMode(s, price)).value;
      var r, rest := Liquidate(s, ids, price).value, Survivors(p.s.troves, order);
      && r.troves == p.s.troves && Lists(r, rest)
      && (InOrder(r, rest) <==> NeighboursSorted(rest, SharedRatios(s, p)))
  {
    hide Books, Batch, Settle, NICROf, ComputeCR, Synced, DebtClaimsCovered, InBatch, Sorted, SharedRatio;
    if Liquidate(s, ids, price).Some? {
      var p := Batch(s, ids, price, RecoveryMode(s, price)).value;
      var r, rest := Liquidate(s, ids, price).value, Survivors(p.s.troves, order);
      BatchCloses(s, ids, price, RecoveryMode(s, price));
      SettleTroves(p.s, p.totals);
      SurvivorsListed(s, r, order);
      forall i | i in rest ensures NICRs(r)(i) == SharedRatios(s, p)(i) {
        RatioAfterBatch(s, p, i);
      }
      NeighboursDecide(rest, NICRs(r));
      assert NeighboursSorted(rest, NICRs(r)) <==> NeighboursSorted(rest, SharedRatios(s, p));
    }
  }

  lemma RatioAfterBatch(s: Ledger, p: Progress, i: nat)
    requires Books(s, NOTHING) && InBatch(p, s) && Settle(p.s, p.totals).Some?
    requires i < |s.troves| && p.s.troves[i] == s.troves[i] && s.troves[i].status.Active?
    ensures NICROf(Settle(p.s, p.totals).value, i) == SharedRatio(s, p, i)
  {
    hide ApplyOffset, Redistribute, NICROf, SharedRatio, Books, InBatch;
    BatchLeaves(s, p);
    var t, r := p.totals, Settle(p.s, p.totals).value;
    SettleTroves(p.s, t);
    if t.debtToRedistribute == 0 {
      NothingShared(s, p, i);
      SameRatio(s, r, i);
    } else {
      GoodOf(s, NOTHING, i);
      ShareOfBatch(s, p, i);
      var a := ApplyOffset(p.s, t.debtToOffset, t.collToSP).value;
      OffsetLeaves(p.s, t.debtToOffset, t.collToSP);
      RedistributeFields(a, t.debtToRedistribute, t.collToRedistribute);
      var b := Redistribute(a, t.debtToRedistribute, t.collToRedistribute).value;
      RatioIs(b, i);
      SameRatio(b, r, i);
    }
  }

  lemma BatchLeaves(s: Ledger, p: Progress)
    requires InBatch(p, s)
    ensures |p.s.troves| == |s.troves| && p.s.LColl == s.LColl && p.s.LDebt == s.LDebt
    ensures p.s.collError == s.collError && p.s.debtError == s.debtError
  {
    hide Books, SystemColl, SystemDebt, Synced, DebtClaimsCovered;
  }

  lemma NothingShared(s: Ledger, p: Progress, i: nat)
    requires p.totals.debtToRedistribute == 0
    ensures SharedRatio(s, p, i) == NICROf(s, i)
  {
    hide NICROf;
  }

  // The ledger right after the redistribution of the totals.
  lemma ShareOfBatch(s: Ledger, p: Progress, i: nat)
    requires InBatch(p, s) && p.totals.debtToRedistribute > 0 && Settle(p.s, p.totals).Some?
    requires i < |s.troves| && GoodTrove(s, s.troves[i]) && s.troves[i].status.Active?
    ensures
      var a := ApplyOffset(p.s, p.totals.debtToOffset, p.totals.collToSP).value;
      var b := Redistribute(a, p.totals.debtToRedistribute, p.totals.collToRedistribute);
      p.s.totalStakes > 0 && b.Some? && GoodTrove(b.value, s.troves[i]) && NICR(b.value, s.troves[i]) == SharedRatio(s, p, i)
  {
    hide ApplyOffset, Redistribute, CollAfter, DebtAfter, ComputeNominalCR, EntireColl, EntireDebt, InBatch, GoodTrove;
    BatchLeaves(s, p);
    var a, debt, coll := ApplyOffset(p.s, p.totals.debtToOffset, p.totals.collToSP).value, p.totals.debtToRedistribute,
      p.totals.collToRedistribute;
    OffsetLeaves(p.s, p.totals.debtToOffset, p.totals.collToSP);
    RedistributeFields(a, debt, coll);
    SameExact(s, a, s.troves[i]);
    AfterRedistribution(a, debt, coll, s.troves[i]);
    SameExact(s, Sharing(s, p), s.troves[i]);
    SameAfter(Sharing(s, p), a, debt, coll, s.troves[i]);
    CollAfterIs(a, debt, coll, s.troves[i]);
    EntireIsFloor(Redistribute(a, debt, coll).value, s.troves[i]);
  }

  lemma CollAfterIs(s: Ledger, debt: nat, coll: nat, t: Trove)
    requires GoodTrove(s, t) && s.totalStakes > 0
    ensures CollAfter(s, coll, t) == ExactColl(s, t) + t.stake * CollPerUnit(s, coll)
    ensures DebtAfter(s, debt, t) == ExactDebt(s, t) + t.stake * DebtPerUnit(s, debt)
  {
    hide ExactColl, ExactDebt, CollPerUnit, DebtPerUnit;
  }

  // A redistribution adds the same to a trove in two ledgers with the same accumulators, errors and stakes.
  lemma SameAfter(s: Ledger, r: Ledger, debt: nat, coll: nat, t: Trove)
    requires GoodTrove(s, t) && s.totalStakes > 0 && r.totalStakes == s.totalStakes
    requires r.LColl == s.LColl && r.LDebt == s.LDebt && r.collError == s.collError && r.debtError == s.debtError
    ensures GoodTrove(r, t) && CollAfter(r, coll, t) == CollAfter(s, coll, t) && DebtAfter(r, debt, t) == DebtAfter(s, debt, t)
  {
    SameExact(s, r, t);
    hide ExactColl, ExactDebt;
    assert CollPerUnit(r, coll) == CollPerUnit(s, coll) && DebtPerUnit(r, debt) == DebtPerUnit(s, debt);
  }

  // A margin, on the state before, that is enough for two neighbours: nothing to redistribute, or what the accumulators' gain
  // leaves of the margin covers the truncation.
  ghost predicate PairKept(s: Ledger, p: Progress, i: nat, j: nat) {
    p.totals.debtToRedistribute == 0
    || (p.s.totalStakes > 0 && i < |s.troves| && j < |s.troves| && GoodTrove(s, s.troves[i]) && GoodTrove(s, s.troves[j])
        && KeepsOrder(Sharing(s, p), p.totals.debtToRedistribute, p.totals.collToRedistribute, s.troves[i], s.troves[j]))
  }

  // With that margin between every two neighbours that survive, the list stays in order.
  lemma LiquidateKeepsOrder(s: Ledger, order: seq<nat>, ids: seq<nat>, price: nat)
    requires Inv(s) && InOrder(s, order) && price > 0
    ensures Liquidate(s, ids, price).Some? ==>
      var p := Batch(s, ids, price, RecoveryMode(s, price)).value;
      var r, rest := Liquidate(s, ids, price).value, Survivors(p.s.troves, order);
      (forall k | 0 < k < |rest| :: PairKept(s, p, rest[k - 1], rest[k])) ==> InOrder(r, rest)
  {
    hide Books, Batch, Settle, NICROf, ComputeCR, PairKept, Synced, DebtClaimsCovered, Sorted, InBatch, SharedRatio;
    LiquidateOrderExactly(s, order, ids, price);
    if Liquidate(s, ids, price).Some? {
      var p := Batch(s, ids, price, RecoveryMode(s, price)).value;
      var r, rest := Liquidate(s, ids, price).value, Survivors(p.s.troves, order);
      BatchCloses(s, ids, price, RecoveryMode(s, price));
      SurvivorsSorted(s, p.s.troves, order);
      forall k | 0 < k < |rest| && PairKept(s, p, rest[k - 1], rest[k])
        ensures SharedRatios(s, p)(rest[k - 1]) >= SharedRatios(s, p)(rest[k])
      {
        assert rest[k - 1] in rest && rest[k] in rest;
        PairAfterBatch(s, p, rest[k - 1], rest[k]);
      }
    }
  }

  // The survivors of a sorted list are sorted before the liquidation.
  lemma SurvivorsSorted(s: Ledger, troves: seq<Trove>, order: seq<nat>)
    requires InOrder(s, order)
    ensures
      var rest := Survivors(troves, order);
      forall k | 0 < k < |rest| :: NICROf(s, rest[k - 1]) >= NICROf(s, rest[k])
  {
    hide NICROf, Survivors;
    SurvivorsKeep(troves, order, NICRs(s));
    var rest := Survivors(troves, order);
    forall k | 0 < k < |rest| ensures NICROf(s, rest[k - 1]) >= NICROf(s, rest[k]) {
      assert NICRs(s)(rest[k - 1]) >= NICRs(s)(rest[k]);
    }
  }

  lemma PairAfterBatch(s: Ledger, p: Progress, i: nat, j: nat)
    requires InBatch(p, s) && Settle(p.s, p.totals).Some? && PairKept(s, p, i, j) && NICROf(s, i) >= NICROf(s, j)
    requires i < |s.troves| && s.troves[i].status.Active? && j < |s.troves| && s.troves[j].status.Active?
    ensures SharedRatio(s, p, i) >= SharedRatio(s, p, j)
  {
    hide NICROf, SharedRatio, InBatch, ApplyOffset, Redistribute, KeepsOrder, GoodTrove;
    var debt, coll := p.totals.debtToRedistribute, p.totals.collToRedistribute;
    if debt == 0 {
      NothingShared(s, p, i);
      NothingShared(s, p, j);
    } else {
      BatchLeaves(s, p);
      ShareOfBatch(s, p, i);
      ShareOfBatch(s, p, j);
      var a := ApplyOffset(p.s, p.totals.debtToOffset, p.totals.collToSP).value;
      OffsetLeaves(p.s, p.totals.debtToOffset, p.totals.collToSP);
      SameExact(s, Sharing(s, p), s.troves[i]);
      SameExact(s, Sharing(s, p), s.troves[j]);
      SameMargin(Sharing(s, p), a, debt, coll, s.troves[i], s.troves[j]);
      NominalOrderAfter(a, debt, coll, s.troves[i], s.troves[j]);
    }
  }

  lemma OrderMeans(s: Ledger, order: seq<nat>)
    requires InOrder(s, order)
    ensures Lists(s, order) && forall j, k | 0 <= j < k < |order| :: NICROf(s, order[j]) >= NICROf(s, order[k])
  {
    hide NICROf;
    forall j, k | 0 <= j < k < |order| ensures NICROf(s, order[j]) >= NICROf(s, order[k]) {
      assert NICRs(s)(order[j]) >= NICRs(s)(order[k]);
    }
  }

  lemma SurvivorsInOrder(s: Ledger, r: Ledger, order: seq<nat>)
    requires Lists(s, order) && OnlyCloses(s, r)
    requires forall j, k | 0 <= j < k < |order| && Survives(r.troves, order[j]) && Survives(r.troves, order[k]) ::
               NICRs(r)(order[j]) >= NICRs(r)(order[k])
    ensures InOrder(r, Survivors(r.troves, order))
  {
    hide NICROf;
    SurvivorsKeep(r.troves, order, NICRs(r));
    SurvivorsListed(s, r, order);
  }

  lemma SettleTroves(s: Ledger, t: Totals)
    ensures Settle(s, t).Some? ==>
      var r := Settle(s, t).value;
      && r.troves == s.troves
      && (t.debtToRedistribute == 0 ==> r.LColl == s.LColl && r.LDebt == s.LDebt)
  {
    hide SP.Offset, PerUnit, Carried;
  }

  lemma SurvivorsListed(s: Ledger, r: Ledger, order: seq<nat>)
    requires Lists(s, order) && OnlyCloses(s, r)
    ensures Lists(r, Survivors(r.troves, order))
  {
    SurvivorsKeep(r.troves, order, (i: nat) => 0);
    forall i | 0 <= i < |r.troves| && r.troves[i].status.Active? ensures i in Survivors(r.troves, order) {
      assert r.troves[i] == s.troves[i];
    }
  }

  lemma RatioIs(s: Ledger, i: nat)
    requires i < |s.troves| && GoodTrove(s, s.troves[i])
    ensures NICROf(s, i) == NICR(s, s.troves[i])
  {
    hide NICR;
  }

  lemma OffsetLeaves(s: Ledger, debt: nat, coll: nat)
    ensures ApplyOffset(s, debt, coll).Some? ==>
      var r := ApplyOffset(s, debt, coll).value;
      r == s.(pool := r.pool, activeDebt := r.activeDebt, supply := r.supply, activeColl := r.activeColl)
  {
    hide SP.Offset;
  }

  lemma SameMargin(s: Ledger, r: Ledger, debt: nat, coll: nat, a: Trove, b: Trove)
    requires GoodTrove(s, a) && GoodTrove(s, b) && s.totalStakes > 0 && r.totalStakes == s.totalStakes
    requires r.LColl == s.LColl && r.LDebt == s.LDebt && r.collError == s.collError && r.debtError == s.debtError
    ensures GoodTrove(r, a) && GoodTrove(r, b) && KeepsOrder(r, debt, coll, a, b) == KeepsOrder(s, debt, coll, a, b)
  {
    SameExact(s, r, a);
    SameExact(s, r, b);
    hide ExactColl, ExactDebt;
    assert CollPerUnit(r, coll) == CollPerUnit(s, coll) && DebtPerUnit(r, debt) == DebtPerUnit(s, debt);
    hide CollPerUnit, DebtPerUnit;
  }

  lemma SameExact(s: Ledger, r: Ledger, t: Trove)
    requires GoodTrove(s, t) && r.LColl == s.LColl && r.LDebt == s.LDebt
    ensures GoodTrove(r, t) && ExactColl(r, t) == ExactColl(s, t) && ExactDebt(r, t) == ExactDebt(s, t)
  {
  }

  // ---- redeemCollateral and its hints on the list ----

  // redeemCollateral: from the first hint or the end of the walk upwards.
  function RedeemFromList(s: Ledger, order: seq<nat>, amount: nat, price: nat, firstHint: nat, hintNICR: nat,
                          maxIterations: nat, fee: nat, feedInactive: bool): Option<Ledger>
    requires AllGood(s, order) && Distinct(order) && |s.surplus| == |s.troves| && price > 0
  {
    UpwardsVisitable(s, order, Entry(s, order, price, firstHint));
    Redeem(s, Upwards(order, Entry(s, order, price, firstHint)), amount, price, hintNICR, maxIterations, fee, feedInactive)
  }

  lemma UpwardsVisitable(s: Ledger, order: seq<nat>, w: int)
    requires AllGood(s, order) && Distinct(order) && |s.surplus| == |s.troves| && -1 <= w < |order|
    ensures Visitable(s, Upwards(order, w))
  {
    hide GoodTrove;
    var queue := Upwards(order, w);
    forall j, k | 0 <= j < k < |queue| ensures queue[j] != queue[k] {
      assert queue[j] == order[w - j] && queue[k] == order[w - k];
    }
  }

  // The list after a whole redemption call. o: the outcome of its loop.
  lemma RedeemKeepsOrder(s: Ledger, order: seq<nat>, amount: nat, price: nat, firstHint: nat, hintNICR: nat,
                         maxIterations: nat, fee: nat, feedInactive: bool)
    requires Inv(s) && InOrder(s, order) && price > 0
    ensures AllGood(s, order) && |s.surplus| == |s.troves|
    ensures Visitable(s, Visits(Upwards(order, Entry(s, order, price, firstHint)), maxIterations))
    ensures RedeemFromList(s, order, amount, price, firstHint, hintNICR, maxIterations, fee, feedInactive).Some? ==>
      var w := Entry(s, order, price, firstHint);
      var o := RedeemLoop(s, Visits(Upwards(order, w), maxIterations), amount, price, hintNICR).value;
      var r := RedeemFromList(s, order, amount, price, firstHint, hintNICR, maxIterations, fee, feedInactive).value;
      Inv(r) && LeavesOrder(s, order, w, o, price, hintNICR, r)
  {
    hide Books, TokensMatchDebt, RedeemLoop, NICROf, GoodTrove, Distinct, Sorted, DebtClaimsCovered, LeavesOrder;
    hide Queue, ICR, TCR;
    ListedGood(s, order, NOTHING);
    var w := Entry(s, order, price, firstHint);
    var queue := Upwards(order, w);
    QueueAscends(s, order, w);
    UpwardsVisitable(s, order, w);
    var visited := Visits(queue, maxIterations);
    assert visited == queue[..|visited|];
    RedeemKeeps(s, queue, amount, price, hintNICR, maxIterations, fee, feedInactive);
    RedemptionKeepsSorted(s, order, w, |visited|, amount, price, hintNICR, NOTHING);
    if RedeemFromList(s, order, amount, price, firstHint, hintNICR, maxIterations, fee, feedInactive).Some? {
      var o := RedeemLoop(s, visited, amount, price, hintNICR).value;
      SameTrovesLeave(s, order, w, o, price, hintNICR,
                      RedeemFromList(s, order, amount, price, firstHint, hintNICR, maxIterations, fee, feedInactive).value);
    }
  }

  lemma SameTrovesLeave(s: Ledger, order: seq<nat>, w: int, o: Outcome, price: nat, hintNICR: nat, r: Ledger)
    requires -1 <= w < |order| && price > 0 && LeavesOrder(s, order, w, o, price, hintNICR, o.s)
    requires r.troves == o.s.troves && r.LColl == o.s.LColl && r.LDebt == o.s.LDebt
    ensures LeavesOrder(s, order, w, o, price, hintNICR, r)
  {
    hide NICROf, InOrder, InsertAt, Slot, PartialRatio;
    if o.partial == 0 {
      SameTrovesInOrder(o.s, r, WithoutClosed(order, w - o.closed, w));
    } else {
      SameTrovesSlots(o.s, r, WithoutClosed(order, w - o.closed - 1, w), order[w - o.closed], hintNICR);
    }
  }

  // Two ledgers with the same troves: the same ratios, slots and orders.
  lemma SameTrovesSlots(s: Ledger, r: Ledger, rest: seq<nat>, id: nat, x: nat)
    requires r.troves == s.troves && r.LColl == s.LColl && r.LDebt == s.LDebt
    ensures NICROf(r, id) == NICROf(s, id) && forall k | 0 <= k < |rest| :: NICROf(r, rest[k]) == NICROf(s, rest[k])
    ensures forall k | 0 <= k <= |rest| && Slot(rest, NICRs(r), x, k) ::
              Slot(rest, NICRs(s), x, k) && (InOrder(r, InsertAt(rest, k, id)) <==> InOrder(s, InsertAt(rest, k, id)))
  {
    hide NICROf, InsertAt, Slot, InOrder;
    SameRatio(s, r, id);
    forall k | 0 <= k < |rest| ensures NICROf(r, rest[k]) == NICROf(s, rest[k]) {
      SameRatio(s, r, rest[k]);
    }
    forall k | 0 <= k <= |rest| && Slot(rest, NICRs(r), x, k)
      ensures Slot(rest, NICRs(s), x, k) && (InOrder(r, InsertAt(rest, k, id)) <==> InOrder(s, InsertAt(rest, k, id)))
    {
      SameSlot(s, r, rest, x, k);
      SameTrovesInOrder(s, r, InsertAt(rest, k, id));
      SameTrovesInOrder(r, s, InsertAt(rest, k, id));
    }
  }

  // The trove that a redemption redeems in part, if there is one.
  function PartlyRedeemed(s: Ledger, order: seq<nat>, amount: nat, price: nat, firstHint: nat, hintNICR: nat, maxIterations: nat)
    : Option<nat>
    requires AllGood(s, order) && Distinct(order) && |s.surplus| == |s.troves| && price > 0
  {
    var w := Entry(s, order, price, firstHint);
    UpwardsVisitable(s, order, w);
    var visited := Visits(Upwards(order, w), maxIterations);
    match RedeemLoop(s, visited, amount, price, hintNICR)
    case None => None
    case Some(o) => if o.partial == 0 || o.closed > w then None else Some(order[w - o.closed])
  }

  lemma SameSlot(s: Ledger, r: Ledger, rest: seq<nat>, x: nat, k: int)
    requires r.troves == s.troves && r.LColl == s.LColl && r.LDebt == s.LDebt
    ensures Slot(rest, NICRs(r), x, k) <==> Slot(rest, NICRs(s), x, k)
  {
    hide NICROf;
    forall i ensures NICRs(r)(i) == NICRs(s)(i) {
      SameRatio(s, r, i);
    }
  }

  // HintHelpers.getRedemptionHints: the first trove, the hinted NICR and the truncated amount. 0 iterations stand for no
  // limit; a limit that is used up while trove and amount are left is an underflow.
  function GetRedemptionHints(s: Ledger, order: seq<nat>, amount: nat, price: nat, maxIterations: nat)
    : (r: Option<(nat, nat, nat)>)
    requires AllGood(s, order) && price > 0
  {
    var queue := Upwards(order, Walk(s, order, price));
    var first := if Walk(s, order, price) < 0 then 0 else order[Walk(s, order, price)];
    assert forall k | 0 <= k < |queue| :: queue[k] == order[Walk(s, order, price) - k];
    match HintLoop(s, queue, amount, price, if maxIterations == 0 then |queue| else maxIterations)
    case None => None
    case Some((hintNICR, left)) => Some((first, hintNICR, amount - left))
  }

  // The hints computed on a state are accepted on that state, where no trove they reach has rewards to skip: a redemption
  // with as many iterations starts where they say, is not cancelled, and redeems the truncated amount to the last unit.
  lemma ListHintsAreHonoured(s: Ledger, order: seq<nat>, amount: nat, price: nat, maxIterations: nat, iterations: nat, l: Limbo)
    requires Books(s, l) && InOrder(s, order) && price > 0 && (iterations == 0 || 0 < maxIterations <= iterations)
    ensures AllGood(s, order) && AllGood(s, Upwards(order, Walk(s, order, price)))
    ensures GetRedemptionHints(s, order, amount, price, maxIterations).Some? && Walk(s, order, price) >= 0
            && ReachedUnskipped(s, Upwards(order, Walk(s, order, price)), amount) ==>
      var (first, hintNICR, truncated) := GetRedemptionHints(s, order, amount, price, maxIterations).value;
      && Entry(s, order, price, first) == Walk(s, order, price)
      && Visitable(s, Visits(Upwards(order, Entry(s, order, price, first)), iterations))
      && var queue := Visits(Upwards(order, Entry(s, order, price, first)), iterations);
      var loop := RedeemLoop(s, queue, truncated, price, hintNICR);
      loop.Some? ==> !loop.value.cancelled && loop.value.redeemed == truncated
  {
    hide Books, RedeemLoop, HintLoop, NICROf, GoodTrove, ICR, Entry, Walk, Sorted, Queue, ReachedUnskipped;
    ListedGood(s, order, l);
    var w := Walk(s, order, price);
    var queue := Upwards(order, w);
    assert queue == queue[..|queue|] && forall k | 0 <= k < |queue| :: queue[k] == order[w - k];
    QueuePrefix(s, order, w, |queue|);
    if w >= 0 {
      WalkIsValidHint(s, order, price);
      var count := if maxIterations == 0 then |queue| else maxIterations;
      if HintLoop(s, queue, amount, price, count).Some? && ReachedUnskipped(s, queue, amount) {
        var visited := Visits(queue, iterations);
        if visited != queue {
          HintsOfPrefix(s, queue, amount, price, count, iterations);
        }
        QueuePrefix(s, order, w, |visited|);
        HintsAreHonoured(s, visited, amount, price, count, l);
      }
    }
  }
}
