/** The doubly linked list of troves, from the highest nominal collateral ratio (NICR) to the lowest,
    with insertion hints. NICRs are not stored: `nicr` is TroveManager.getNominalICR at the time of
    the call, an arbitrary function of the address. Address 0 is null. */
module SortedTroves {
  import opened Common

  datatype Node = Node(exists_: bool, nextId: nat, prevId: nat)

  const NO_NODE := Node(false, 0, 0)

  // The item at position k, or null beyond either end.
  function At(order: seq<nat>, k: int): nat {
    if 0 <= k < |order| then order[k] else 0
  }

  function InsertAt(order: seq<nat>, k: nat, id: nat): seq<nat>
    requires k <= |order|
  {
    order[..k] + [id] + order[k..]
  }

  function RemoveAt(order: seq<nat>, k: nat): seq<nat>
    requires k < |order|
  {
    order[..k] + order[k + 1..]
  }

  ghost predicate Distinct(order: seq<nat>) {
    forall j, k | 0 <= j < k < |order| :: order[j] != order[k]
  }

  ghost predicate Sorted(order: seq<nat>, nicr: nat -> nat) {
    forall j, k | 0 <= j < k < |order| :: nicr(order[j]) >= nicr(order[k])
  }

  // Position k suits the ratio x: the neighbours, where there are any, enclose it.
  ghost predicate Slot(order: seq<nat>, nicr: nat -> nat, x: nat, k: int) {
    && 0 <= k <= |order|
    && (k > 0 ==> nicr(order[k - 1]) >= x)
    && (k < |order| ==> x >= nicr(order[k]))
  }

  ghost predicate NeighboursSorted(order: seq<nat>, nicr: nat -> nat) {
    forall k | 0 < k < |order| :: nicr(order[k - 1]) >= nicr(order[k])
  }

  lemma {:induction false} NeighboursDecide(order: seq<nat>, nicr: nat -> nat)
    ensures NeighboursSorted(order, nicr) <==> Sorted(order, nicr)
  {
    if order != [] {
      var n := |order| - 1;
      NeighboursDecide(order[..n], nicr);
      if NeighboursSorted(order, nicr) {
        assert NeighboursSorted(order[..n], nicr);
        forall j, k | 0 <= j < k < |order| ensures nicr(order[j]) >= nicr(order[k]) {
          if k < n {
            assert order[j] == order[..n][j] && order[k] == order[..n][k];
          } else if j < n - 1 {
            assert nicr(order[..n][j]) >= nicr(order[..n][n - 1]);
          }
        }
      }
    }
  }

  // ---- What insertion at a slot means ----

  lemma InsertKeepsSorted(order: seq<nat>, nicr: nat -> nat, id: nat, k: nat)
    requires Sorted(order, nicr) && Slot(order, nicr, nicr(id), k)
    ensures Sorted(InsertAt(order, k, id), nicr)
  {
    var r := InsertAt(order, k, id);
    forall i, j | 0 <= i < j < |r| ensures nicr(r[i]) >= nicr(r[j]) {
      if i == k && j > k + 1 {
        assert nicr(order[k]) >= nicr(order[j - 1]);
      } else if j == k && i < k - 1 {
        assert nicr(order[i]) >= nicr(order[k - 1]);
      }
    }
  }

  // Put at a slot for x, an id whose ratio is in truth no more than x leaves the list sorted exactly when its lower
  // neighbour has no higher ratio.
  lemma InsertSortsExactly(order: seq<nat>, nicr: nat -> nat, id: nat, x: nat, k: nat)
    requires Sorted(order, nicr) && Slot(order, nicr, x, k) && nicr(id) <= x
    ensures Sorted(InsertAt(order, k, id), nicr) <==> k == |order| || nicr(order[k]) <= nicr(id)
  {
    if k == |order| || nicr(order[k]) <= nicr(id) {
      InsertKeepsSorted(order, nicr, id, k);
    } else {
      assert InsertAt(order, k, id)[k] == id && InsertAt(order, k, id)[k + 1] == order[k];
    }
  }

  // Plain insertion: walk from the top past every strictly higher ratio.
  function PlainPosition(order: seq<nat>, nicr: nat -> nat, x: nat): (k: nat)
    ensures k <= |order|
  {
    if order == [] || x >= nicr(order[0]) then 0 else 1 + PlainPosition(order[1..], nicr, x)
  }

  lemma {:induction false} PlainPositionIsSlot(order: seq<nat>, nicr: nat -> nat, x: nat)
    ensures Slot(order, nicr, x, PlainPosition(order, nicr, x))
  {
    if order != [] && x < nicr(order[0]) {
      PlainPositionIsSlot(order[1..], nicr, x);
    }
  }

  function Ratios(order: seq<nat>, nicr: nat -> nat): (xs: seq<nat>)
    ensures |xs| == |order| && forall k | 0 <= k < |xs| :: xs[k] == nicr(order[k])
  {
    seq(|order|, k requires 0 <= k < |order| => nicr(order[k]))
  }

  // In a sorted list any two slots differ by troves of exactly the inserted ratio, so whatever slot the
  // hints lead to, the list of ratios is the one plain insertion gives; without a tie the list itself is.
  lemma AnySlotIsPlainInsertion(order: seq<nat>, nicr: nat -> nat, id: nat, k: nat)
    requires Sorted(order, nicr) && Slot(order, nicr, nicr(id), k)
    ensures
      var plain := InsertAt(order, PlainPosition(order, nicr, nicr(id)), id);
      && Ratios(InsertAt(order, k, id), nicr) == Ratios(plain, nicr)
      && multiset(InsertAt(order, k, id)) == multiset(plain)
      && (nicr(id) !in Ratios(order, nicr) ==> InsertAt(order, k, id) == plain)
  {
    hide Slot, Sorted, InsertAt, PlainPosition, Ratios;
    var x := nicr(id);
    var p := PlainPosition(order, nicr, x);
    PlainPositionIsSlot(order, nicr, x);
    SlotInRange(order, nicr, x, k);
    BetweenSlots(order, nicr, x, k, p);
    BetweenSlots(order, nicr, x, p, k);
    TieLeavesRatios(order, nicr, id, k, p);
    InsertMultiset(order, k, id);
    InsertMultiset(order, p, id);
    if k != p {
      var j := if k < p then k else p;
      assert Ratios(order, nicr)[j] == x;
    }
  }

  lemma SlotInRange(order: seq<nat>, nicr: nat -> nat, x: nat, k: int)
    requires Slot(order, nicr, x, k)
    ensures 0 <= k <= |order|
  {
  }

  // Two positions with nothing but the inserted ratio between them.
  lemma TieLeavesRatios(order: seq<nat>, nicr: nat -> nat, id: nat, k: nat, p: nat)
    requires k <= |order| && p <= |order|
    requires forall j | k <= j < p || p <= j < k :: nicr(order[j]) == nicr(id)
    ensures Ratios(InsertAt(order, k, id), nicr) == Ratios(InsertAt(order, p, id), nicr)
  {
    var a, b := InsertAt(order, k, id), InsertAt(order, p, id);
    forall j | 0 <= j <= |order| ensures nicr(a[j]) == nicr(b[j]) {
      ElementAfterInsertion(order, id, k, j);
      ElementAfterInsertion(order, id, p, j);
    }
  }

  lemma ElementAfterInsertion(order: seq<nat>, id: nat, k: nat, j: nat)
    requires k <= |order| && j <= |order|
    ensures InsertAt(order, k, id)[j] == if j < k then order[j] else if j == k then id else order[j - 1]
  {
  }

  lemma BetweenSlots(order: seq<nat>, nicr: nat -> nat, x: nat, k: nat, p: nat)
    requires Sorted(order, nicr) && Slot(order, nicr, x, k) && Slot(order, nicr, x, p)
    ensures forall j | k <= j < p :: nicr(order[j]) == x
  {
    forall j | k <= j < p ensures nicr(order[j]) == x {
      assert nicr(order[k]) >= nicr(order[j]) >= nicr(order[p - 1]);
    }
  }

  lemma InsertMultiset(order: seq<nat>, k: nat, id: nat)
    requires k <= |order|
    ensures multiset(InsertAt(order, k, id)) == multiset(order) + multiset{id}
  {
    assert order == order[..k] + order[k..];
  }

  lemma CutKeepsSorted(order: seq<nat>, nicr: nat -> nat, i: nat, j: nat)
    requires Sorted(order, nicr) && i <= j <= |order|
    ensures Sorted(order[..i] + order[j..], nicr)
  {
    var r := order[..i] + order[j..];
    forall m, n | 0 <= m < n < |r| ensures nicr(r[m]) >= nicr(r[n]) {
      assert r[m] == order[if m < i then m else m - i + j] && r[n] == order[if n < i then n else n - i + j];
    }
  }

  lemma CutKeepsDistinct(order: seq<nat>, i: nat, j: nat)
    requires Distinct(order) && i <= j <= |order|
    ensures Distinct(order[..i] + order[j..])
    ensures forall x :: x in order[..i] + order[j..] <==> x in order && x !in order[i..j]
  {
    var r := order[..i] + order[j..];
    forall x ensures x in r <==> x in order && x !in order[i..j] {
      if x in order {
        var k :| 0 <= k < |order| && order[k] == x;
        assert i <= k < j ==> order[i..j][k - i] == x;
        assert k < i ==> r[k] == x;
        assert k >= j ==> r[k - j + i] == x;
      }
    }
  }

  lemma RemoveKeepsSorted(order: seq<nat>, nicr: nat -> nat, k: nat)
    requires Sorted(order, nicr) && k < |order|
    ensures Sorted(RemoveAt(order, k), nicr)
  {
    CutKeepsSorted(order, nicr, k, k + 1);
  }

  // What the list holds is unaffected by ratios that change while keeping their order.
  lemma MonotoneChangeKeepsSorted(order: seq<nat>, before: nat -> nat, after: nat -> nat)
    requires Sorted(order, before)
    requires forall i, j | i in order && j in order && before(i) >= before(j) :: after(i) >= after(j)
    ensures Sorted(order, after)
  {
  }

  // ---- The links ----

  // The nodes are exactly those of `order`, linked forwards and backwards.
  ghost predicate Linked(nodes: map<nat, Node>, order: seq<nat>) {
    && Distinct(order) && 0 !in order
    && (forall id :: id in nodes <==> id in order)
    && (forall k {:trigger nodes[order[k]]} | 0 <= k < |order| ::
          nodes[order[k]] == Node(true, At(order, k + 1), At(order, k - 1)))
  }

  // Hook id in between two neighbours, either of which may be null.
  function LinkIn(nodes: map<nat, Node>, id: nat, prevId: nat, nextId: nat): map<nat, Node>
    requires prevId != 0 ==> prevId in nodes
    requires nextId != 0 ==> nextId in nodes
  {
    var a := nodes[id := Node(true, nextId, prevId)];
    var b := if prevId == 0 then a else a[prevId := a[prevId].(nextId := id)];
    if nextId == 0 then b else b[nextId := b[nextId].(prevId := id)]
  }

  // Join the neighbours of id and delete it.
  function LinkOut(nodes: map<nat, Node>, id: nat): map<nat, Node>
    requires id in nodes
    requires nodes[id].prevId != 0 ==> nodes[id].prevId in nodes
    requires nodes[id].nextId != 0 ==> nodes[id].nextId in nodes
  {
    var p, n := nodes[id].prevId, nodes[id].nextId;
    var a := if p == 0 then nodes else nodes[p := nodes[p].(nextId := n)];
    var b := if n == 0 then a else a[n := a[n].(prevId := p)];
    b - {id}
  }

  lemma NeighboursAreNodes(nodes: map<nat, Node>, order: seq<nat>, k: int)
    requires Linked(nodes, order)
    ensures At(order, k) != 0 <==> 0 <= k < |order|
    ensures At(order, k) != 0 ==> At(order, k) in nodes
  {
    if 0 <= k < |order| {
      assert order[k] in order;
    }
  }

  lemma LinkedMeans(nodes: map<nat, Node>, order: seq<nat>)
    requires Linked(nodes, order)
    ensures Distinct(order) && 0 !in order && forall id :: id in nodes <==> id in order
  {
  }

  lemma LinkedIf(nodes: map<nat, Node>, order: seq<nat>)
    requires Distinct(order) && 0 !in order && forall id :: id in nodes <==> id in order
    requires forall j | 0 <= j < |order| ::
               order[j] in nodes && nodes[order[j]] == Node(true, At(order, j + 1), At(order, j - 1))
    ensures Linked(nodes, order)
  {
  }

  // The node at position k, and no other position has its id.
  lemma NodeOf(nodes: map<nat, Node>, order: seq<nat>, k: int)
    requires Linked(nodes, order) && 0 <= k < |order|
    ensures order[k] == At(order, k) && order[k] in nodes && order[k] != 0
    ensures nodes[order[k]] == Node(true, At(order, k + 1), At(order, k - 1))
    ensures forall j :: At(order, j) == At(order, k) ==> j == k
  {
    hide Linked, Distinct;
    LinkedFacts(nodes, order, k);
  }

  lemma LinkedFacts(nodes: map<nat, Node>, order: seq<nat>, k: int)
    requires Linked(nodes, order) && 0 <= k < |order|
    ensures order[k] in nodes && order[k] != 0
    ensures nodes[order[k]] == Node(true, At(order, k + 1), At(order, k - 1))
    ensures forall j | 0 <= j < |order| && j != k :: order[j] != order[k]
  {
    assert order[k] in order;
  }

  lemma LinkInKeepsLinked(nodes: map<nat, Node>, order: seq<nat>, k: nat, id: nat)
    requires Linked(nodes, order) && k <= |order| && id != 0 && id !in order
    ensures At(order, k - 1) != 0 ==> At(order, k - 1) in nodes
    ensures At(order, k) != 0 ==> At(order, k) in nodes
    ensures Linked(LinkIn(nodes, id, At(order, k - 1), At(order, k)), InsertAt(order, k, id))
  {
    hide InsertAt, LinkIn, Distinct, Linked, At;
    LinkedMeans(nodes, order);
    NeighboursAreNodes(nodes, order, k - 1);
    NeighboursAreNodes(nodes, order, k);
    InsertedAt(order, k, id);
    LinkInDomain(nodes, id, At(order, k - 1), At(order, k));
    var r, after := InsertAt(order, k, id), LinkIn(nodes, id, At(order, k - 1), At(order, k));
    forall j | 0 <= j < |r| ensures r[j] in after && after[r[j]] == Node(true, At(r, j + 1), At(r, j - 1)) {
      LinkInNode(nodes, order, k, id, j);
    }
    LinkedIf(after, r);
  }

  lemma LinkInDomain(nodes: map<nat, Node>, id: nat, prevId: nat, nextId: nat)
    requires prevId != 0 ==> prevId in nodes
    requires nextId != 0 ==> nextId in nodes
    ensures forall x :: x in LinkIn(nodes, id, prevId, nextId) <==> x == id || x in nodes
  {
  }

  lemma LinkInNode(nodes: map<nat, Node>, order: seq<nat>, k: nat, id: nat, j: nat)
    requires Linked(nodes, order) && k <= |order| && id != 0 && id !in order && id !in nodes && j <= |order|
    requires At(order, k - 1) != 0 ==> At(order, k - 1) in nodes
    requires At(order, k) != 0 ==> At(order, k) in nodes
    requires Distinct(order)
    ensures
      var r := InsertAt(order, k, id);
      var after := LinkIn(nodes, id, At(order, k - 1), At(order, k));
      && |r| == |order| + 1 && r[j] in after && after[r[j]] == Node(true, At(r, j + 1), At(r, j - 1))
  {
    hide InsertAt, Linked, Distinct;
    InsertedAt(order, k, id);
    var r := InsertAt(order, k, id);
    assert r[j] == At(r, j);
    if j < k {
      NodeOf(nodes, order, j);
    } else if j > k {
      NodeOf(nodes, order, j - 1);
      assert At(r, j) == order[j - 1] && At(r, j + 1) == At(order, j);
      assert At(order, k) == At(order, j - 1) ==> k == j - 1;
      assert At(order, k - 1) != order[j - 1];
    } else {
      if k > 0 { NodeOf(nodes, order, k - 1); }
      if k < |order| { NodeOf(nodes, order, k); }
    }
  }

  lemma InsertedAt(order: seq<nat>, k: nat, id: nat)
    requires k <= |order| && Distinct(order) && id !in order
    ensures
      var r := InsertAt(order, k, id);
      && Distinct(r) && |r| == |order| + 1
      && At(r, k) == id
      && (forall j {:trigger At(r, j)} | j < k :: At(r, j) == At(order, j))
      && (forall j {:trigger At(r, j)} | j > k :: At(r, j) == At(order, j - 1))
      && (forall x :: x in r <==> x == id || x in order)
  {
    assert order == order[..k] + order[k..];
  }

  lemma LinkOutKeepsLinked(nodes: map<nat, Node>, order: seq<nat>, k: nat)
    requires Linked(nodes, order) && k < |order|
    ensures
      var id := order[k];
      && id in nodes
      && (nodes[id].prevId != 0 ==> nodes[id].prevId in nodes)
      && (nodes[id].nextId != 0 ==> nodes[id].nextId in nodes)
      && Linked(LinkOut(nodes, id), RemoveAt(order, k)) && id !in RemoveAt(order, k)
  {
    hide RemoveAt, LinkOut, Distinct, Linked;
    LinkedMeans(nodes, order);
    NeighboursAreNodes(nodes, order, k - 1);
    NeighboursAreNodes(nodes, order, k + 1);
    NodeOf(nodes, order, k);
    RemovedAt(order, k);
    LinkOutDomain(nodes, order[k]);
    var r, after := RemoveAt(order, k), LinkOut(nodes, order[k]);
    forall j | 0 <= j < |r| ensures r[j] in after && after[r[j]] == Node(true, At(r, j + 1), At(r, j - 1)) {
      LinkOutNode(nodes, order, k, j);
    }
    LinkedIf(after, r);
  }

  lemma LinkOutDomain(nodes: map<nat, Node>, id: nat)
    requires id in nodes
    requires nodes[id].prevId != 0 ==> nodes[id].prevId in nodes
    requires nodes[id].nextId != 0 ==> nodes[id].nextId in nodes
    ensures forall x :: x in LinkOut(nodes, id) <==> x in nodes && x != id
  {
  }

  lemma LinkOutNode(nodes: map<nat, Node>, order: seq<nat>, k: nat, j: nat)
    requires Linked(nodes, order) && k < |order| && j < |order| - 1 && order[k] in nodes
    requires nodes[order[k]] == Node(true, At(order, k + 1), At(order, k - 1))
    requires At(order, k - 1) != 0 ==> At(order, k - 1) in nodes
    requires At(order, k + 1) != 0 ==> At(order, k + 1) in nodes
    requires Distinct(order)
    ensures
      var r, after := RemoveAt(order, k), LinkOut(nodes, order[k]);
      && |r| == |order| - 1 && r[j] in after && after[r[j]] == Node(true, At(r, j + 1), At(r, j - 1))
  {
    hide RemoveAt, Linked, Distinct;
    RemovedAt(order, k);
    var r := RemoveAt(order, k);
    assert r[j] == At(r, j);
    NodeOf(nodes, order, k);
    if j < k {
      NodeOf(nodes, order, j);
      assert At(r, j) == order[j] && At(r, j - 1) == At(order, j - 1);
      assert At(order, k) != order[j] && At(order, k + 1) != order[j];
      assert At(order, k - 1) == At(order, j) ==> k - 1 == j;
    } else {
      NodeOf(nodes, order, j + 1);
      assert At(r, j) == order[j + 1] && At(r, j + 1) == At(order, j + 2);
      assert At(order, k) != order[j + 1] && At(order, k - 1) != order[j + 1];
      assert At(order, k + 1) == At(order, j + 1) ==> k + 1 == j + 1;
    }
  }

  lemma RemovedAt(order: seq<nat>, k: nat)
    requires k < |order| && Distinct(order)
    ensures
      var r := RemoveAt(order, k);
      && Distinct(r) && |r| == |order| - 1
      && (forall j {:trigger At(r, j)} | j < k :: At(r, j) == At(order, j))
      && (forall j {:trigger At(r, j)} | j >= k :: At(r, j) == At(order, j + 1))
      && (forall x :: x in r <==> x in order && x != order[k])
  {
    var r := RemoveAt(order, k);
    forall x ensures x in r <==> x in order && x != order[k] {
      if x in order && x != order[k] {
        var j :| 0 <= j < |order| && order[j] == x;
        assert r[if j < k then j else j - 1] == x;
      }
    }
  }

  // Once a trove is out, its old neighbours stand on either side of its old position.
  lemma NeighboursRejoined(nodes: map<nat, Node>, order: seq<nat>, k: nat)
    requires Linked(nodes, order) && k < |order|
    ensures
      var r := RemoveAt(order, k);
      && order[k] in nodes && nodes[order[k]] == Node(true, At(r, k), At(r, k - 1))
      && InsertAt(r, k, order[k]) == order && |r| == |order| - 1
      && (k > 0 ==> r[k - 1] == order[k - 1]) && (k < |r| ==> r[k] == order[k + 1])
  {
    NodeOf(nodes, order, k);
  }

  // A pair of neighbours determines the position between them.
  lemma NeighboursFixSlot(order: seq<nat>, j: int, k: int)
    requires Distinct(order) && 0 !in order && 0 <= j <= |order| && 0 <= k <= |order|
    requires At(order, j - 1) == At(order, k - 1) && At(order, j) == At(order, k)
    ensures j == k
  {
    assert j > 0 ==> order[j - 1] in order;
    assert k > 0 ==> order[k - 1] in order;
  }

  // ---- The contract ----

  class List {
    const maxSize: nat
    var head: nat
    var tail: nat
    var size: nat
    var nodes: map<nat, Node>
    ghost var order: seq<nat>  // the ids from head to tail

    // The links are exactly those of `order`, forwards and backwards.
    ghost predicate Valid()
      reads this
    {
      && size == |order| <= maxSize
      && head == At(order, 0) && tail == At(order, |order| - 1)
      && Linked(nodes, order)
    }

    constructor (maxSize: nat)
      requires maxSize > 0
      ensures Valid() && order == [] && this.maxSize == maxSize
    {
      this.maxSize := maxSize;
      head, tail, size := 0, 0, 0;
      nodes := map[];
      order := [];
    }

    // A mapping read: an absent key reads as zeros.
    function NodeAt(id: nat): Node
      reads this
    {
      if id in nodes then nodes[id] else NO_NODE
    }

    function Contains(id: nat): (r: bool)
      requires Valid()
      reads this
      ensures r <==> id in order
    {
      assert id in nodes ==> exists k :: 0 <= k < |order| && order[k] == id;
      NodeAt(id).exists_
    }

    // _validInsertPosition, and what it establishes.
    function ValidInsertPosition(nicr: nat -> nat, x: nat, prevId: nat, nextId: nat): bool
      reads this
    {
      if prevId == 0 && nextId == 0 then size == 0
      else if prevId == 0 then head == nextId && x >= nicr(nextId)
      else if nextId == 0 then tail == prevId && x <= nicr(prevId)
      else NodeAt(prevId).nextId == nextId && nicr(prevId) >= x && x >= nicr(nextId)
    }

    ghost predicate SlotBetween(nicr: nat -> nat, x: nat, prevId: nat, nextId: nat, k: int)
      reads this
    {
      Slot(order, nicr, x, k) && At(order, k - 1) == prevId && At(order, k) == nextId
    }

    // The check accepts a pair of hints exactly when they are the neighbours of a slot.
    lemma ValidInsertPositionMeaning(nicr: nat -> nat, x: nat, prevId: nat, nextId: nat)
      requires Valid()
      ensures ValidInsertPosition(nicr, x, prevId, nextId)
              <==> exists k :: SlotBetween(nicr, x, prevId, nextId, k)
    {
      if ValidInsertPosition(nicr, x, prevId, nextId) {
        AcceptedIsSlot(nicr, x, prevId, nextId);
      }
      if k :| SlotBetween(nicr, x, prevId, nextId, k) {
        NeighboursAreNodes(nodes, order, k - 1);
        NeighboursAreNodes(nodes, order, k);
        if 0 < k < |order| {
          assert nodes[order[k - 1]].nextId == order[k];
        }
      }
    }

    lemma AcceptedIsSlot(nicr: nat -> nat, x: nat, prevId: nat, nextId: nat)
      requires Valid() && ValidInsertPosition(nicr, x, prevId, nextId)
      ensures exists k :: SlotBetween(nicr, x, prevId, nextId, k)
    {
      NeighboursAreNodes(nodes, order, 0);
      NeighboursAreNodes(nodes, order, |order| - 1);
      if prevId == 0 {
        assert SlotBetween(nicr, x, prevId, nextId, 0);
      } else if nextId == 0 {
        assert SlotBetween(nicr, x, prevId, nextId, |order|);
      } else {
        assert prevId in nodes;
        var k :| 0 <= k < |order| && order[k] == prevId;
        assert SlotBetween(nicr, x, prevId, nextId, k + 1);
      }
    }

    // Descending from a trove that is not below x always ends at a slot, sorted list or not. `start` is
    // the position of startId, or 0 in an empty list.
    method DescendList(nicr: nat -> nat, x: nat, startId: nat, ghost start: nat)
      returns (prevId: nat, nextId: nat, ghost k: nat)
      requires Valid() && startId == At(order, start)
      requires order == [] || start < |order|
      requires start == 0 || nicr(startId) >= x
      ensures SlotBetween(nicr, x, prevId, nextId, k)
    {
      if head == startId && x >= nicr(startId) {
        return 0, startId, 0;
      }
      prevId, nextId, k := startId, NodeAt(startId).nextId, start + 1;
      if order == [] { k := 0; }
      while prevId != 0 && !ValidInsertPosition(nicr, x, prevId, nextId)
        invariant order == [] ==> prevId == nextId == k == 0
        invariant order != [] ==> 1 <= k <= |order| && prevId == order[k - 1] && nextId == At(order, k) && nicr(prevId) >= x
        decreases |order| - k
      {
        assert k < |order|;
        prevId := NodeAt(prevId).nextId;
        nextId := NodeAt(prevId).nextId;
        k := k + 1;
      }
      if order != [] {
        assert SlotBetween(nicr, x, prevId, nextId, k);
      }
    }

    method AscendList(nicr: nat -> nat, x: nat, startId: nat, ghost start: nat)
      returns (prevId: nat, nextId: nat, ghost k: nat)
      requires Valid() && start < |order| && startId == order[start] && x >= nicr(startId)
      ensures SlotBetween(nicr, x, prevId, nextId, k)
    {
      if tail == startId && x <= nicr(startId) {
        return startId, 0, |order|;
      }
      nextId, prevId, k := startId, NodeAt(startId).prevId, start;
      while nextId != 0 && !ValidInsertPosition(nicr, x, prevId, nextId)
        invariant 0 <= k < |order| && nextId == order[k] && prevId == At(order, k - 1) && x >= nicr(nextId)
        decreases k
      {
        assert k > 0;
        nextId := NodeAt(nextId).prevId;
        prevId := NodeAt(nextId).prevId;
        k := k - 1;
      }
      assert SlotBetween(nicr, x, prevId, nextId, k);
    }

    // For any hints at all - missing, stale, or the trove's own id - the search ends at a slot.
    method FindInsertPosition(nicr: nat -> nat, x: nat, prevHint: nat, nextHint: nat)
      returns (prevId: nat, nextId: nat, ghost k: nat)
      requires Valid()
      ensures SlotBetween(nicr, x, prevId, nextId, k)
    {
      var prev, next := prevHint, nextHint;
      if prev != 0 {
        if !Contains(prev) || x > nicr(prev) { prev := 0; }
      }
      if next != 0 {
        if !Contains(next) || x < nicr(next) { next := 0; }
      }
      if prev == 0 && next == 0 {
        prevId, nextId, k := DescendList(nicr, x, head, 0);
      } else if prev == 0 {
        ghost var start :| 0 <= start < |order| && order[start] == next;
        prevId, nextId, k := AscendList(nicr, x, next, start);
      } else {
        ghost var start :| 0 <= start < |order| && order[start] == prev;
        prevId, nextId, k := DescendList(nicr, x, prev, start);
      }
    }

    // `ok` is false exactly where the contract reverts. Otherwise the id now stands at a slot for x, and
    // at the very place the hints named if that was one.
    method Insert(nicr: nat -> nat, id: nat, x: nat, prevHint: nat, nextHint: nat) returns (ok: bool, ghost k: nat)
      requires Valid()
      modifies this
      ensures Valid()
      ensures ok <==> old(size) != maxSize && id !in old(order) && id != 0 && x > 0
      ensures !ok ==> order == old(order)
      ensures ok ==> Slot(old(order), nicr, x, k) && order == InsertAt(old(order), k, id)
      ensures ok && Sorted(old(order), nicr) && nicr(id) == x ==> Sorted(order, nicr)
      ensures ok && old(ValidInsertPosition(nicr, x, prevHint, nextHint)) ==>
                old(SlotBetween(nicr, x, prevHint, nextHint, k))
    {
      hide Linked, InsertAt, Distinct, Sorted;
      k := 0;
      if size == maxSize || Contains(id) || id == 0 || x == 0 { return false, 0; }
      var prevId, nextId := prevHint, nextHint;
      ValidInsertPositionMeaning(nicr, x, prevHint, nextHint);
      if ValidInsertPosition(nicr, x, prevId, nextId) {
        k :| SlotBetween(nicr, x, prevId, nextId, k);
      } else {
        prevId, nextId, k := FindInsertPosition(nicr, x, prevId, nextId);
      }
      LinkNode(id, prevId, nextId, k);
      if Sorted(old(order), nicr) && nicr(id) == x {
        InsertKeepsSorted(old(order), nicr, id, k);
      }
      ok := true;
    }

    // The link updates of an insertion between two neighbours.
    method LinkNode(id: nat, prevId: nat, nextId: nat, ghost k: nat)
      requires Valid() && id != 0 && id !in order && size < maxSize
      requires k <= |order| && prevId == At(order, k - 1) && nextId == At(order, k)
      modifies this
      ensures Valid() && order == InsertAt(old(order), k, id)
    {
      hide Linked, InsertAt, Distinct;
      LinkedMeans(nodes, order);
      NeighboursAreNodes(nodes, order, k - 1);
      NeighboursAreNodes(nodes, order, k);
      LinkInKeepsLinked(nodes, order, k, id);
      InsertedAt(order, k, id);
      if prevId == 0 && nextId == 0 {
        nodes := nodes[id := Node(true, 0, 0)];
        head, tail := id, id;
      } else if prevId == 0 {
        nodes := nodes[id := Node(true, head, 0)];
        nodes := nodes[head := nodes[head].(prevId := id)];
        head := id;
      } else if nextId == 0 {
        nodes := nodes[id := Node(true, 0, tail)];
        nodes := nodes[tail := nodes[tail].(nextId := id)];
        tail := id;
      } else {
        nodes := nodes[id := Node(true, nextId, prevId)];
        nodes := nodes[prevId := nodes[prevId].(nextId := id)];
        nodes := nodes[nextId := nodes[nextId].(prevId := id)];
      }
      size := size + 1;
      order := InsertAt(order, k, id);
    }

    method Remove(id: nat) returns (ok: bool, ghost k: nat)
      requires Valid()
      modifies this
      ensures Valid()
      ensures ok <==> id in old(order)
      ensures !ok ==> order == old(order)
      ensures ok ==> k < |old(order)| && old(order)[k] == id && order == RemoveAt(old(order), k) && id !in order
    {
      hide Linked, RemoveAt, Distinct;
      LinkedMeans(nodes, order);
      k := 0;
      if !Contains(id) { return false, 0; }
      k :| 0 <= k < |order| && order[k] == id;
      UnlinkNode(id, k);
      ok := true;
    }

    // The link updates of a removal.
    method UnlinkNode(id: nat, ghost k: nat)
      requires Valid() && k < |order| && order[k] == id
      modifies this
      ensures Valid() && order == RemoveAt(old(order), k) && id !in order
    {
      hide Linked, RemoveAt, Distinct;
      LinkedMeans(nodes, order);
      NeighboursAreNodes(nodes, order, k - 1);
      NeighboursAreNodes(nodes, order, k + 1);
      LinkOutKeepsLinked(nodes, order, k);
      RemovedAt(order, k);
      NodeOf(nodes, order, k);
      if size > 1 {
        if id == head {
          head := nodes[id].nextId;
          nodes := nodes[head := nodes[head].(prevId := 0)];
        } else if id == tail {
          tail := nodes[id].prevId;
          nodes := nodes[tail := nodes[tail].(nextId := 0)];
        } else {
          var p, n := nodes[id].prevId, nodes[id].nextId;
          nodes := nodes[p := nodes[p].(nextId := n)];
          nodes := nodes[n := nodes[n].(prevId := p)];
        }
      } else {
        head, tail := 0, 0;
      }
      nodes := nodes - {id};
      size := size - 1;
      order := RemoveAt(order, k);
    }

    method ReInsert(nicr: nat -> nat, id: nat, x: nat, prevHint: nat, nextHint: nat)
      returns (ok: bool, ghost j: nat, ghost k: nat)
      requires Valid()
      modifies this
      ensures Valid()
      ensures ok <==> id in old(order) && x > 0
      ensures !ok ==> order == old(order)
      ensures ok ==> j < |old(order)| && old(order)[j] == id
                     && Slot(RemoveAt(old(order), j), nicr, x, k)
                     && order == InsertAt(RemoveAt(old(order), j), k, id)
      ensures ok && Sorted(RemoveAt(old(order), j), nicr) && nicr(id) == x ==> Sorted(order, nicr)
    {
      hide InsertAt, Sorted;
      j, k := 0, 0;
      if !Contains(id) || x == 0 { return false, 0, 0; }
      ok, j := Remove(id);
      ok, k := Insert(nicr, id, x, prevHint, nextHint);
    }

    // Taking a trove out and putting it back with its old neighbours as hints restores the list, as long
    // as its ratio still lies between theirs.
    method RemoveAndRestore(nicr: nat -> nat, id: nat, x: nat)
      requires Valid() && id in order && x > 0
      requires forall k | 0 < k < |order| :: order[k] == id ==> nicr(order[k - 1]) >= x
      requires forall k | 0 <= k < |order| - 1 :: order[k] == id ==> x >= nicr(order[k + 1])
      modifies this
      ensures Valid() && order == old(order)
    {
      hide Linked, RemoveAt, InsertAt, Distinct, Sorted;
      var prevId, nextId := NodeAt(id).prevId, NodeAt(id).nextId;
      ghost var was, wasNodes, j, k := order, nodes, 0, 0;
      LinkedMeans(nodes, order);
      var ok;
      ok, j := Remove(id);
      NeighboursRejoined(wasNodes, was, j);
      assert SlotBetween(nicr, x, prevId, nextId, j);
      ValidInsertPositionMeaning(nicr, x, prevId, nextId);
      LinkedMeans(nodes, order);
      ok, k := Insert(nicr, id, x, prevId, nextId);
      assert ok;
      NeighboursFixSlot(RemoveAt(was, j), j, k);
    }
  }
}
