/** The floor arbitrage of the macro model: a loop that drops the riskiest troves until the redemption pool is
    used up, and takes the residual from the next one. Floating point is taken as exact. */
module MacroRedemption {
  import opened Common

  // One row of the frame.
  datatype Trove = Trove(supply: real, ether: real, cr: real)

  function Supplies(troves: seq<Trove>): (xs: seq<real>)
    ensures |xs| == |troves| && forall i | 0 <= i < |xs| :: xs[i] == troves[i].supply
  {
    seq(|troves|, i requires 0 <= i < |troves| => troves[i].supply)
  }

  function Ethers(troves: seq<Trove>): (xs: seq<real>)
    ensures |xs| == |troves| && forall i | 0 <= i < |xs| :: xs[i] == troves[i].ether
  {
    seq(|troves|, i requires 0 <= i < |troves| => troves[i].ether)
  }

  function Supply(troves: seq<Trove>): real { RealSum(Supplies(troves)) }

  function Ether(troves: seq<Trove>): real { RealSum(Ethers(troves)) }

  // `sort_values(by='CR_current')`
  ghost predicate Ascending(troves: seq<Trove>) {
    forall i, j | 0 <= i < j < |troves| :: troves[i].cr <= troves[j].cr
  }

  // The trove the loop stops at, after the residual is taken from it.
  function Reduced(t: Trove, residual: real, price: real): Trove
    requires price != 0.0 && t.supply != residual
  {
    var supply, ether := t.supply - residual, t.ether - residual / price;
    Trove(supply, ether, price * ether / supply)
  }

  lemma SupplyStep(troves: seq<Trove>, n: nat)
    requires n < |troves|
    ensures Supply(troves[..n + 1]) == Supply(troves[..n]) + troves[n].supply
    ensures Ether(troves[..n + 1]) == Ether(troves[..n]) + troves[n].ether
  {
    var xs, ys := Supplies(troves[..n + 1]), Ethers(troves[..n + 1]);
    assert xs[..n] == Supplies(troves[..n]) && ys[..n] == Ethers(troves[..n]);
  }

  // Where the loop stops: the first n troves fit into the pool, one after the other, and the next does not.
  ghost predicate StopsAt(sorted: seq<Trove>, pool: real, n: nat) {
    n < |sorted| && (forall k | 0 < k <= n :: Supply(sorted[..k]) <= pool) && pool < Supply(sorted[..n + 1])
  }

  // What is left to take from trove n.
  function Residual(sorted: seq<Trove>, pool: real, n: nat): real
    requires n < |sorted|
  {
    pool - Supply(sorted[..n])
  }

  ghost function After(sorted: seq<Trove>, pool: real, price: real, n: nat): seq<Trove>
    requires StopsAt(sorted, pool, n) && price != 0.0
  {
    SupplyStep(sorted, n);
    [Reduced(sorted[n], Residual(sorted, pool, n), price)] + sorted[n + 1..]
  }

  // None: the frame runs out of troves and indexing it fails.
  method Redeem(sorted: seq<Trove>, pool: real, price: real) returns (r: Option<seq<Trove>>, n: nat)
    requires Ascending(sorted) && price != 0.0
    ensures r.None? <==> forall k | 0 < k <= |sorted| :: Supply(sorted[..k]) <= pool
    ensures r.Some? ==> StopsAt(sorted, pool, n) && r.value == After(sorted, pool, price, n)
  {
    hide RealSum, Supply;
    var troves := sorted;
    n := 0;
    if |troves| == 0 { return None, n; }
    var working := troves[0].supply;
    var redempted := working;
    FirstSupply(sorted);
    while redempted <= pool
      invariant n < |sorted| && troves == sorted[n..]
      invariant working == sorted[n].supply && redempted == Supply(sorted[..n + 1])
      invariant forall k | 0 < k <= n :: Supply(sorted[..k]) <= pool
      decreases |troves|
    {
      troves := troves[1..];
      if |troves| == 0 { return None, n; }
      n := n + 1;
      SupplyStep(sorted, n);
      working := troves[0].supply;
      redempted := redempted + working;
    }
    SupplyStep(sorted, n);
    redempted := redempted - working;
    var residual := pool - redempted;
    r := Some([Reduced(troves[0], residual, price)] + troves[1..]);
  }

  lemma FirstSupply(troves: seq<Trove>)
    requires troves != []
    ensures Supply(troves[..1]) == troves[0].supply
  {
    assert troves[..1] == [troves[0]];
    Single(troves[0]);
  }

  // There is one place to stop, at most.
  lemma OneStop(sorted: seq<Trove>, pool: real, m: nat, n: nat)
    requires StopsAt(sorted, pool, m) && StopsAt(sorted, pool, n)
    ensures m == n
  {
    assert Supply(sorted[..m + 1]) > pool && Supply(sorted[..n + 1]) > pool;
  }

  lemma {:induction false} SupplySplit(troves: seq<Trove>, n: nat)
    requires n <= |troves|
    ensures Supply(troves) == Supply(troves[..n]) + Supply(troves[n..])
    ensures Ether(troves) == Ether(troves[..n]) + Ether(troves[n..])
    decreases |troves|
  {
    hide RealSum;
    var k := |troves| - 1;
    assert troves[..|troves|] == troves;
    if n == |troves| {
      Nothing(troves[n..]);
    } else {
      SupplySplit(troves[..k], n);
      SupplyStep(troves, k);
      var rest := troves[n..];
      SupplyStep(rest, k - n);
      assert troves[..k][..n] == troves[..n] && troves[..k][n..] == rest[..k - n] && rest[..k - n + 1] == rest;
    }
  }

  lemma Nothing(troves: seq<Trove>)
    requires troves == []
    ensures Supply(troves) == 0.0 && Ether(troves) == 0.0
  {
  }

  // The redemption cancels exactly the pool, and takes the ether of the dropped troves and the residual's worth.
  lemma RedemptionIsExact(sorted: seq<Trove>, pool: real, price: real, n: nat)
    requires StopsAt(sorted, pool, n) && price != 0.0
    ensures Supply(After(sorted, pool, price, n)) == Supply(sorted) - pool
    ensures Ether(After(sorted, pool, price, n)) ==
            Ether(sorted) - Ether(sorted[..n]) - Residual(sorted, pool, n) / price
  {
    hide RealSum;
    var after := After(sorted, pool, price, n);
    SupplySplit(sorted, n);
    SupplySplit(sorted[n..], 1);
    SupplySplit(after, 1);
    assert after[..1] == [after[0]] && after[1..] == sorted[n + 1..];
    assert sorted[n..][..1] == [sorted[n]] && sorted[n..][1..] == sorted[n + 1..];
    Single(after[0]);
    Single(sorted[n]);
  }

  lemma Single(t: Trove)
    ensures Supply([t]) == t.supply && Ether([t]) == t.ether
  {
    hide RealSum;
    assert [t][..0] == [] && [t][..1] == [t];
    SupplyStep([t], 0);
    Nothing([t][..0]);
  }

  // The residual lies between nothing and the whole of the next trove, which is among the riskiest left.
  lemma ResidualInRange(sorted: seq<Trove>, pool: real, n: nat)
    requires StopsAt(sorted, pool, n) && pool >= 0.0 && Ascending(sorted)
    ensures 0.0 <= Residual(sorted, pool, n) < sorted[n].supply
    ensures forall i, j | 0 <= i < n <= j < |sorted| :: sorted[i].cr <= sorted[j].cr
  {
    hide RealSum;
    SupplyStep(sorted, n);
    if n == 0 {
      Nothing(sorted[..0]);
    }
  }

  // Taking debt and its worth in ether from a trove lowers its ratio exactly when the ratio is below one.
  lemma RatioAfterResidual(t: Trove, residual: real, price: real)
    requires 0.0 <= residual < t.supply && price > 0.0 && t.cr == price * t.ether / t.supply
    ensures Reduced(t, residual, price).cr >= t.cr <==> residual == 0.0 || price * t.ether >= t.supply
  {
    var value, supply := price * t.ether, t.supply;
    assert price * (t.ether - residual / price) == value - residual;
    RealQuotient(value - residual, supply - residual, value / supply);
    var ratio := value / supply;
    assert ratio * supply == value;
    assert ratio * (supply - residual) == value - ratio * residual;
    RealQuotient(value, supply, 1.0);
    ShareOf(ratio, residual);
  }

  lemma ShareOf(ratio: real, residual: real)
    requires residual >= 0.0
    ensures residual <= ratio * residual <==> residual == 0.0 || ratio >= 1.0
  {
    RealSigns(ratio - 1.0, residual);
    assert (ratio - 1.0) * residual == ratio * residual - residual;
  }

  // redemption_pool
  function RedemptionPool(supply: real, stability: real, supplyDiff: real, ratio: real): real {
    var liquidity := supply - stability;
    if supplyDiff < ratio * liquidity then supplyDiff else ratio * liquidity
  }

  // The pool is the change in supply or the share of what is outside the stability pool, and no more than either.
  lemma PoolIsTheSmaller(supply: real, stability: real, supplyDiff: real, ratio: real)
    ensures
      var pool := RedemptionPool(supply, stability, supplyDiff, ratio);
      && pool <= supplyDiff && pool <= ratio * (supply - stability)
      && (pool == supplyDiff || pool + ratio * stability == ratio * supply)
  {
  }

  // Less than everything is redeemed, so the loop ends with a trove left.
  lemma LoopLeavesATrove(sorted: seq<Trove>, stability: real, supplyDiff: real, ratio: real)
    requires 0.0 <= stability && Supply(sorted) > 0.0 && ratio < 1.0
    requires stability <= Supply(sorted) || ratio >= 0.0
    ensures
      var pool := RedemptionPool(Supply(sorted), stability, supplyDiff, ratio);
      pool < Supply(sorted) && exists k :: 0 < k <= |sorted| && Supply(sorted[..k]) > pool
  {
    hide RealSum, RedemptionPool, Supply;
    PoolBelowSupply(Supply(sorted), stability, supplyDiff, ratio);
    if sorted == [] {
      Nothing(sorted);
    }
    assert sorted[..|sorted|] == sorted;
  }

  lemma PoolBelowSupply(supply: real, stability: real, supplyDiff: real, ratio: real)
    requires 0.0 <= stability && supply > 0.0 && ratio < 1.0 && (stability <= supply || ratio >= 0.0)
    ensures RedemptionPool(supply, stability, supplyDiff, ratio) < supply
  {
    ShareBelow(supply, supply - stability, ratio);
  }

  lemma ShareBelow(supply: real, liquidity: real, ratio: real)
    requires supply > 0.0 && liquidity <= supply && ratio < 1.0 && (liquidity >= 0.0 || ratio >= 0.0)
    ensures ratio * liquidity < supply
  {
    if liquidity >= 0.0 {
      RealSigns(1.0 - ratio, liquidity);
      assert (1.0 - ratio) * liquidity == liquidity - ratio * liquidity;
    } else {
      RealSigns(ratio, -liquidity);
      assert ratio * -liquidity == -(ratio * liquidity);
    }
  }
}
