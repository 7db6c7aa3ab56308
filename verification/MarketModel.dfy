/** The market-clearing model of token price, redemptions and trove issuance: the functions of one step, and the
    script that appends their results to its time series. Floating point is taken as exact. */
module MarketModel {
  import opened Common

  const D: real := 0.5
  const T: real := 1.0
  const F: real := 0.3
  const LOOKBACK: nat := 5
  const MAX_REDEMPTION_FRACTION: real := 1.0
  const TOKEN_DEMAND: real := 100.0
  const PRICE_CEILING: real := 1.1

  function AtLeastZero(x: real): real { if x < 0.0 then 0.0 else x }

  // The last entry of each series.
  datatype Point = Point(redeemed: real, price: real, issuance: real, supply: real)

  // A list indexed as the script does it: -1 is the last entry.
  function At(xs: seq<real>, i: int): real
    requires -|xs| <= i < |xs|
  {
    if i < 0 then xs[|xs| + i] else xs[i]
  }

  function PastPrice(ethPrices: seq<real>): real
    requires ethPrices != []
  {
    var past := if LOOKBACK > |ethPrices| then ethPrices[0] else At(ethPrices, |ethPrices| - LOOKBACK - 1);
    if past == 0.0 then 1.0 else past
  }

  function Momentum(ethPrices: seq<real>, ethPrice: real): real
    requires ethPrices != []
  {
    (ethPrice - PastPrice(ethPrices)) / PastPrice(ethPrices)
  }

  function NewRedeemed(last: Point, baseFee: real): real {
    var maxRedeemable := last.supply * MAX_REDEMPTION_FRACTION;
    var redeemed := (1.0 - last.price - baseFee) * last.supply;
    if maxRedeemable == 0.0 || redeemed < 0.0 then 0.0
    else if redeemed < maxRedeemable then redeemed else maxRedeemable
  }

  function RawPrice(last: Point, redeemed: real, momentum: real): real
    requires last.issuance != 0.0
  {
    ((TOKEN_DEMAND - redeemed) / last.issuance - F * momentum) * (1.0 / T)
  }

  function RawIssuance(last: Point, price: real, momentum: real): real {
    last.issuance * (T * price + F * momentum)
  }

  function Excess(price: real, supply: real): real {
    if price > PRICE_CEILING then supply * (price - PRICE_CEILING) / PRICE_CEILING else 0.0
  }

  // One turn of the script; None is the division by an issuance of 0.
  function Step(last: Point, baseFee: real, momentum: real): Option<Point> {
    var redeemed := NewRedeemed(last, baseFee);
    if last.issuance == 0.0 then None
    else
      var price := AtLeastZero(RawPrice(last, redeemed, momentum));
      var issuance := AtLeastZero(RawIssuance(last, price, momentum));
      var supply := AtLeastZero(issuance - redeemed);
      var total := issuance + Excess(price, supply);
      Some(Point(redeemed, if price > PRICE_CEILING then PRICE_CEILING else price, total, AtLeastZero(total)))
  }

  predicate Sound(p: Point) {
    p.issuance == p.supply >= 0.0 && 0.0 <= p.price <= PRICE_CEILING
  }

  // Issuance and supply are equal after every step, the price stays in [0, 1.1], and no more than the whole
  // supply is redeemed.
  lemma StepKeepsSound(last: Point, momentum: real)
    requires Sound(last)
    ensures Step(last, 0.0, momentum).None? <==> last.supply == 0.0
    ensures Step(last, 0.0, momentum).Some? ==>
              Sound(Step(last, 0.0, momentum).value) && 0.0 <= Step(last, 0.0, momentum).value.redeemed <= last.supply
  {
    hide NewRedeemed, RawPrice, RawIssuance, Excess;
    RedeemedInRange(last);
    if last.issuance != 0.0 {
      var redeemed := NewRedeemed(last, 0.0);
      var price := AtLeastZero(RawPrice(last, redeemed, momentum));
      var supply := AtLeastZero(AtLeastZero(RawIssuance(last, price, momentum)) - redeemed);
      ExcessNonNegative(price, supply);
    }
  }

  lemma RedeemedInRange(last: Point)
    requires last.supply >= 0.0
    ensures 0.0 <= NewRedeemed(last, 0.0) <= last.supply
  {
  }

  lemma ExcessNonNegative(price: real, supply: real)
    requires supply >= 0.0
    ensures Excess(price, supply) >= 0.0
  {
    if price > PRICE_CEILING {
      RealNonNegative(supply, price - PRICE_CEILING);
    }
  }

  // The redeemed part of the supply is what price and fee leave to 1: nothing from 1 on, and everything from 0 down.
  lemma RedeemedExactly(last: Point, baseFee: real)
    requires last.supply > 0.0
    ensures
      var redeemed := NewRedeemed(last, baseFee);
      && (redeemed == 0.0 <==> last.price + baseFee >= 1.0)
      && (redeemed == last.supply <==> last.price + baseFee <= 0.0)
      && (0.0 < last.price + baseFee < 1.0 ==> redeemed / last.supply + last.price + baseFee == 1.0)
  {
    var left := 1.0 - last.price - baseFee;
    RealSigns(left, last.supply);
    RealSigns(1.0 - left, last.supply);
    ShareLeft(left, last.supply);
  }

  lemma ShareLeft(part: real, whole: real)
    requires whole > 0.0
    ensures part * whole / whole == part && (1.0 - part) * whole == whole - part * whole
  {
  }

  // Momentum is the growth of the ether price over the lookback, or from the first price on; a series exactly as long as the
  // lookback is indexed from its other end, at the last price.
  lemma MomentumIsGrowth(ethPrices: seq<real>, ethPrice: real)
    requires forall k | 0 <= k < |ethPrices| :: ethPrices[k] > 0.0
    ensures ethPrices != [] ==>
      var n := |ethPrices|;
      var past := ethPrices[if n > LOOKBACK then n - LOOKBACK - 1 else if n == LOOKBACK then n - 1 else 0];
      past * (1.0 + Momentum(ethPrices, ethPrice)) == ethPrice
  {
  }

  // Where the price is not clamped at 0 the market clears: issuance before the ceiling is what the demand leaves
  // after the redemption.
  lemma MarketClears(last: Point, redeemed: real, momentum: real)
    requires last.issuance != 0.0 && RawPrice(last, redeemed, momentum) >= 0.0
    ensures RawIssuance(last, RawPrice(last, redeemed, momentum), momentum) == TOKEN_DEMAND - redeemed
  {
    var q := (TOKEN_DEMAND - redeemed) / last.issuance;
    assert q * last.issuance == TOKEN_DEMAND - redeemed;
    assert RawPrice(last, redeemed, momentum) == q - F * momentum;
  }

  // Where the ceiling applies the excess makes up for it: the same value at the lower price.
  lemma CeilingClears(price: real, supply: real)
    ensures price >= PRICE_CEILING ==> PRICE_CEILING * (supply + Excess(price, supply)) == price * supply
  {
    if price > PRICE_CEILING {
      var x := supply * (price - PRICE_CEILING);
      assert PRICE_CEILING * (x / PRICE_CEILING) == x;
      assert x == supply * price - supply * PRICE_CEILING;
    }
  }

  // A whole step: below the ceiling the market clears at the raw price; at the ceiling the supply that is left keeps its value;
  // at a price clamped to 0 only the momentum issues.
  lemma StepClears(last: Point, momentum: real)
    requires Sound(last) && last.issuance > 0.0
    ensures
      var next := Step(last, 0.0, momentum).value;
      var raw, cleared := RawPrice(last, next.redeemed, momentum), AtLeastZero(TOKEN_DEMAND - next.redeemed);
      && next.redeemed == NewRedeemed(last, 0.0)
      && (0.0 <= raw <= PRICE_CEILING ==> next.price == raw && next.issuance == cleared)
      && (raw > PRICE_CEILING ==>
            && next.price == PRICE_CEILING
            && var left := AtLeastZero(cleared - next.redeemed);
            PRICE_CEILING * (left + (next.issuance - cleared)) == raw * left)
      && (raw < 0.0 ==> next.price == 0.0 && next.issuance == AtLeastZero(last.issuance * (F * momentum)))
  {
    hide NewRedeemed, RawPrice, RawIssuance, Excess;
    var redeemed := NewRedeemed(last, 0.0);
    var raw := RawPrice(last, redeemed, momentum);
    var price := AtLeastZero(raw);
    var issuance := AtLeastZero(RawIssuance(last, price, momentum));
    RedeemedInRange(last);
    ExcessNonNegative(price, AtLeastZero(issuance - redeemed));
    NoExcessBelow(price, AtLeastZero(issuance - redeemed));
    if raw >= 0.0 {
      MarketClears(last, redeemed, momentum);
      CeilingClears(price, AtLeastZero(issuance - redeemed));
    } else {
      OnlyMomentum(last, momentum);
    }
  }

  lemma NoExcessBelow(price: real, supply: real)
    ensures price <= PRICE_CEILING ==> Excess(price, supply) == 0.0
  {
  }

  lemma OnlyMomentum(last: Point, momentum: real)
    ensures RawIssuance(last, 0.0, momentum) == last.issuance * (F * momentum)
  {
  }

  // A step leaves an issuance of 0, on which the next one fails, exactly when the redemption takes the whole
  // demand or, at a price clamped to 0, the momentum is not positive.
  lemma StepRunsDry(last: Point, momentum: real)
    requires Sound(last) && last.issuance > 0.0
    ensures
      var redeemed := NewRedeemed(last, 0.0);
      Step(last, 0.0, momentum).value.issuance == 0.0 <==>
      if RawPrice(last, redeemed, momentum) >= 0.0 then redeemed >= TOKEN_DEMAND else momentum <= 0.0
  {
    hide RawPrice, RawIssuance, Excess;
    var redeemed := NewRedeemed(last, 0.0);
    var raw := RawPrice(last, redeemed, momentum);
    var price := AtLeastZero(raw);
    var issuance := AtLeastZero(RawIssuance(last, price, momentum));
    StepKeepsSound(last, momentum);
    ExcessNonNegative(price, AtLeastZero(issuance - redeemed));
    NoExcess(price);
    if raw >= 0.0 {
      MarketClears(last, redeemed, momentum);
    } else {
      IssuanceAtZero(last, momentum);
    }
  }

  lemma NoExcess(price: real)
    ensures Excess(price, 0.0) == 0.0
  {
  }

  lemma IssuanceAtZero(last: Point, momentum: real)
    requires last.issuance > 0.0
    ensures RawIssuance(last, 0.0, momentum) <= 0.0 <==> momentum <= 0.0
  {
    var x := F * momentum;
    assert RawIssuance(last, 0.0, momentum) == last.issuance * x;
    RealSigns(x, last.issuance);
  }

  // ---- The script ----

  class Data {
    var ethPrice: seq<real>
    var momentum: seq<real>
    var baseFee: seq<real>
    var redeemedAmount: seq<real>
    var tokenPrice: seq<real>
    var troveIssuance: seq<real>
    var tokenSupply: seq<real>

    // One entry a step in every series but the base fee, which is never appended.
    ghost predicate Valid()
      reads this
    {
      && |ethPrice| > 0 && baseFee == [0.0]
      && |momentum| == |redeemedAmount| == |tokenPrice| == |troveIssuance| == |tokenSupply| == |ethPrice|
      && forall k | 0 <= k < |ethPrice| :: Sound(PointAt(k))
    }

    ghost function PointAt(k: nat): Point
      requires k < |redeemedAmount| && k < |tokenPrice| && k < |troveIssuance| && k < |tokenSupply|
      reads this
    {
      Point(redeemedAmount[k], tokenPrice[k], troveIssuance[k], tokenSupply[k])
    }

    // Every entry follows from the one before it.
    ghost predicate Follows()
      requires Valid()
      reads this
    {
      forall k | 1 <= k < |ethPrice| ::
        && momentum[k] == Momentum(ethPrice[..k], ethPrice[k])
        && Step(PointAt(k - 1), 0.0, momentum[k]) == Some(PointAt(k))
    }

    constructor ()
      ensures Valid() && Follows() && |ethPrice| == 1
    {
      ethPrice, momentum, baseFee, redeemedAmount := [500.0], [0.0], [0.0], [0.0];
      tokenPrice, troveIssuance, tokenSupply := [1.0], [100.0], [100.0];
    }

    // `ok` is false where the script stops with a division by zero.
    method Advance(newPrice: real) returns (ok: bool)
      requires Valid() && Follows()
      modifies this
      ensures Valid() && Follows()
      ensures ok == (old(tokenSupply)[|old(ethPrice)| - 1] != 0.0)
      ensures ethPrice == if ok then old(ethPrice) + [newPrice] else old(ethPrice)
      ensures !ok ==> tokenSupply == old(tokenSupply)
    {
      hide Step;
      var n := |ethPrice|;
      var last := Point(redeemedAmount[n - 1], tokenPrice[n - 1], troveIssuance[n - 1], tokenSupply[n - 1]);
      assert last == PointAt(n - 1);
      var m := Momentum(ethPrice, newPrice);
      StepKeepsSound(last, m);
      var next := Step(last, baseFee[0], m);
      if next.None? { return false; }
      ghost var before := ethPrice;
      ethPrice, momentum := ethPrice + [newPrice], momentum + [m];
      redeemedAmount, tokenPrice := redeemedAmount + [next.value.redeemed], tokenPrice + [next.value.price];
      troveIssuance, tokenSupply := troveIssuance + [next.value.issuance], tokenSupply + [next.value.supply];
      assert forall k | 0 <= k < n :: PointAt(k) == old(PointAt(k)) && ethPrice[..k] == before[..k];
      assert PointAt(n) == next.value && ethPrice[..n] == before;
      ok := true;
    }

    method Script(newPrices: seq<real>) returns (done: nat)
      requires Valid() && Follows()
      modifies this
      ensures Valid() && Follows() && done <= |newPrices|
      ensures ethPrice == old(ethPrice) + newPrices[..done]
      ensures done < |newPrices| ==> tokenSupply[|tokenSupply| - 1] == 0.0
    {
      hide Follows, PointAt, Sound;
      done := 0;
      while done < |newPrices|
        invariant Valid() && Follows() && done <= |newPrices|
        invariant ethPrice == old(ethPrice) + newPrices[..done]
      {
        var ok := Advance(newPrices[done]);
        if !ok { break; }
        done := done + 1;
      }
    }
  }
}
