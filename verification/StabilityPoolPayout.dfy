/** Paying the depositors out: when a whole round of withdrawals succeeds, what the collateral side
    owes, and when the running product P stays usable. */
module StabilityPoolPayout {
  import opened Common
  import opened StabilityPool
  import opened StabilityPoolSolvency

  // ---- A round of withdrawals ----

  ghost predicate Depositors(p: Pool, order: seq<nat>) {
    && (forall k | 0 <= k < |order| :: order[k] < |p.deposits| && p.deposits[order[k]].initialValue > 0)
    && (forall j, k | 0 <= j < k < |order| :: order[j] != order[k])
  }

  function Taken(p: Pool, order: seq<nat>, amount: nat): (xs: seq<int>)
    requires Valid(p) && forall k | 0 <= k < |order| :: order[k] < |p.deposits|
    ensures |xs| == |order|
    ensures forall k | 0 <= k < |xs| :: xs[k] == Min(amount, Compounded(p, p.deposits[order[k]])) >= 0
  {
    seq(|order|, k requires 0 <= k < |order| => Min(amount, Compounded(p, p.deposits[order[k]])) as int)
  }

  function Gains(p: Pool, order: seq<nat>): (xs: seq<int>)
    requires Valid(p) && forall k | 0 <= k < |order| :: order[k] < |p.deposits|
    ensures |xs| == |order|
    ensures forall k | 0 <= k < |xs| :: xs[k] == CollateralGain(p, p.deposits[order[k]]) >= 0
  {
    seq(|order|, k requires 0 <= k < |order| => CollateralGain(p, p.deposits[order[k]]) as int)
  }

  // Everybody in `order` withdraws up to `amount`, one after the other; None once one of them reverts.
  function WithdrawAll(p: Pool, order: seq<nat>, amount: nat): (r: Option<Pool>)
    requires Valid(p)
    ensures r.Some? ==> Valid(r.value) && |r.value.deposits| == |p.deposits|
  {
    if order == [] then Some(p)
    else
      match WithdrawAll(p, order[..|order| - 1], amount)
      case None => None
      case Some(q) => TryStep(q, WithdrawFromSP(order[|order| - 1], amount, true))
  }

  // The pool after the depositors in `order` have been paid.
  ghost predicate PaidOut(p: Pool, order: seq<nat>, amount: nat, q: Pool)
    requires Valid(p) && Depositors(p, order)
  {
    && |q.deposits| == |p.deposits|
    && q.total == p.total - Sum(Taken(p, order, amount))
    && q.collateral == p.collateral - Sum(Gains(p, order))
    && q == p.(deposits := q.deposits, total := q.total, collateral := q.collateral)
    && (forall i | 0 <= i < |p.deposits| :: i !in order ==> q.deposits[i] == p.deposits[i])
    && (forall i | 0 <= i < |p.deposits| :: i in order ==>
          q.deposits[i] == Record(p, Compounded(p, p.deposits[i]) - Min(amount, Compounded(p, p.deposits[i]))))
  }

  // The round succeeds exactly when the pool holds what is taken and the collateral what is owed; in
  // particular whether it does cannot depend on the order.
  lemma {:induction false} WithdrawAllExactly(p: Pool, order: seq<nat>, amount: nat)
    requires Valid(p) && Depositors(p, order)
    ensures WithdrawAll(p, order, amount).Some? <==>
            Sum(Taken(p, order, amount)) <= p.total && Sum(Gains(p, order)) <= p.collateral
    ensures WithdrawAll(p, order, amount).Some? ==> PaidOut(p, order, amount, WithdrawAll(p, order, amount).value)
  {
    hide Compounded, CollateralGain, GoodDeposit;
    if order != [] {
      var n := |order| - 1;
      var rest, i := order[..n], order[n];
      WithdrawAllExactly(p, rest, amount);
      SumsOfRest(p, order, amount);
      if WithdrawAll(p, rest, amount).Some? {
        WithdrawOneMore(p, order, amount, WithdrawAll(p, rest, amount).value);
      }
    }
  }

  lemma SumsOfRest(p: Pool, order: seq<nat>, amount: nat)
    requires Valid(p) && Depositors(p, order) && order != []
    ensures
      var n := |order| - 1;
      var d := p.deposits[order[n]];
      && Depositors(p, order[..n])
      && Sum(Taken(p, order, amount)) == Sum(Taken(p, order[..n], amount)) + Min(amount, Compounded(p, d))
      && Sum(Gains(p, order)) == Sum(Gains(p, order[..n])) + CollateralGain(p, d)
  {
    hide Compounded, CollateralGain, GoodDeposit;
    var n := |order| - 1;
    assert Taken(p, order, amount)[..n] == Taken(p, order[..n], amount);
    assert Gains(p, order)[..n] == Gains(p, order[..n]);
  }

  lemma WithdrawOneMore(p: Pool, order: seq<nat>, amount: nat, q: Pool)
    requires Valid(p) && Depositors(p, order) && order != [] && Depositors(p, order[..|order| - 1])
    requires Valid(q) && PaidOut(p, order[..|order| - 1], amount, q)
    ensures
      var i := order[|order| - 1];
      var d := p.deposits[i];
      var r := TryStep(q, WithdrawFromSP(i, amount, true));
      && (r.Some? <==> q.total >= Min(amount, Compounded(p, d)) && q.collateral >= CollateralGain(p, d))
      && (r.Some? ==> PaidOut(p, order, amount, r.value))
  {
    hide Compounded, CollateralGain, GoodDeposit, Sum;
    var n := |order| - 1;
    var i := order[n];
    assert q.deposits[i] == p.deposits[i];
    SameReading(p, q, p.deposits[i]);
    SumsOfRest(p, order, amount);
    assert forall j :: j in order <==> j == i || j in order[..n];
  }

  lemma SameReading(p: Pool, q: Pool, d: Deposit)
    requires GoodDeposit(p, d) && GoodDeposit(q, d)
    requires q.P == p.P && q.scale == p.scale && q.epoch == p.epoch && q.sums == p.sums
    ensures Compounded(q, d) == Compounded(p, d) && CollateralGain(q, d) == CollateralGain(p, d)
  {
  }

  // The items picked by distinct indices add up to no more than all of them.
  lemma {:induction false} PickedAtMostAll(all: seq<int>, order: seq<nat>, picked: seq<int>)
    requires forall i | 0 <= i < |all| :: all[i] >= 0
    requires |picked| == |order|
    requires forall k | 0 <= k < |order| :: order[k] < |all| && 0 <= picked[k] <= all[order[k]]
    requires forall j, k | 0 <= j < k < |order| :: order[j] != order[k]
    ensures Sum(picked) <= Sum(all)
    decreases |order|
  {
    if order == [] {
      SumNonNegative(all);
    } else {
      var n := |order| - 1;
      SumUpdate(all, order[n], 0);
      PickedAtMostAll(all[order[n] := 0], order[..n], picked[..n]);
    }
  }

  function AllGains(p: Pool): (xs: seq<int>)
    requires Valid(p)
    ensures |xs| == |p.deposits|
    ensures forall i | 0 <= i < |xs| :: xs[i] == CollateralGain(p, p.deposits[i]) >= 0
  {
    seq(|p.deposits|, i requires 0 <= i < |p.deposits| => CollateralGain(p, p.deposits[i]) as int)
  }

  // When all claims together are held, every depositor can withdraw everything, in any order, and ends
  // at deposit 0.
  lemma EveryoneCanWithdraw(p: Pool, order: seq<nat>, amount: nat)
    requires Valid(p) && Depositors(p, order)
    requires Sum(Claims(p)) <= p.total && Sum(AllGains(p)) <= p.collateral
    requires forall k | 0 <= k < |order| :: Compounded(p, p.deposits[order[k]]) <= amount
    ensures WithdrawAll(p, order, amount).Some?
    ensures forall k | 0 <= k < |order| :: WithdrawAll(p, order, amount).value.deposits[order[k]] == NO_DEPOSIT
  {
    hide Compounded, CollateralGain, GoodDeposit, Sum, WithdrawAll;
    WithdrawAllExactly(p, order, amount);
    PickedAtMostAll(Claims(p), order, Taken(p, order, amount));
    PickedAtMostAll(AllGains(p), order, Gains(p, order));
  }

  // The withdrawal loop at the end of the random-operation test.
  method AttemptWithdrawAllDeposits(pool: Contract, depositors: seq<nat>, amount: nat) returns (ok: bool)
    requires Valid(pool.Model()) && Depositors(pool.Model(), depositors)
    modifies pool
    ensures ok <==> (Sum(Taken(old(pool.Model()), depositors, amount)) <= old(pool.total)
                     && Sum(Gains(old(pool.Model()), depositors)) <= old(pool.collateral))
    ensures Valid(pool.Model())
    ensures ok ==> PaidOut(old(pool.Model()), depositors, amount, pool.Model())
  {
    ghost var p := pool.Model();
    for k := 0 to |depositors|
      invariant Valid(pool.Model()) && WithdrawAll(p, depositors[..k], amount) == Some(pool.Model())
    {
      hide Compounded, CollateralGain, GoodDeposit, Withdraw, Sum;
      assert depositors[..k + 1][..k] == depositors[..k];
      ok := pool.WithdrawFromSP(depositors[k], amount, true);
      if !ok {
        StillReverts(p, depositors, k + 1, amount);
        WithdrawAllExactly(p, depositors, amount);
        return;
      }
    }
    assert depositors[..|depositors|] == depositors;
    WithdrawAllExactly(p, depositors, amount);
    ok := true;
  }

  lemma {:induction false} StillReverts(p: Pool, order: seq<nat>, k: nat, amount: nat)
    requires Valid(p) && k <= |order| && WithdrawAll(p, order[..k], amount) == None
    ensures WithdrawAll(p, order, amount) == None
    decreases |order| - k
  {
    hide TryStep;
    if k == |order| {
      assert order[..k] == order;
    } else {
      assert order[..k + 1][..k] == order[..k];
      StillReverts(p, order, k + 1, amount);
    }
  }

  // ---- The collateral side ----

  // A depositor's gain before truncation: perUnit times the growth of S, in whole units of collateral.
  function EarnedFrom(perUnit: real, first: real, second: real): real {
    perUnit * (first + second) / UNIT
  }

  function Earned(p: Pool, d: Deposit): (r: real)
    requires GoodDeposit(p, d)
  {
    if d.initialValue == 0 then 0.0
    else EarnedFrom(PerUnit(d), (SumAt(p.sums, d.epoch, d.scale) - d.S) as real,
                    SumAt(p.sums, d.epoch, d.scale + 1) as real / SCALE)
  }

  function AllEarned(p: Pool): (es: seq<real>)
    requires Valid(p)
    ensures |es| == |p.deposits| && forall i | 0 <= i < |es| :: es[i] == Earned(p, p.deposits[i])
  {
    seq(|p.deposits|, i requires 0 <= i < |p.deposits| => Earned(p, p.deposits[i]))
  }

  // Nothing has been summed yet for an epoch or scale that lies ahead.
  ghost predicate FutureUntouched(p: Pool) {
    forall e, s | (e, s) in p.sums :: (e < p.epoch || (e == p.epoch && s <= p.scale))
  }

  // All gains, and the error carried to the next offset, are covered by the collateral received, but for
  // `over` units of 1e-18.
  ghost predicate GainsCovered(p: Pool, over: real)
    requires Valid(p)
  {
    && FutureUntouched(p)
    && UNIT * RealSum(AllEarned(p)) + p.collError as real <= UNIT * p.collateral as real + over
  }

  lemma GainBelowEarned(p: Pool, d: Deposit)
    requires GoodDeposit(p, d)
    ensures CollateralGain(p, d) as real <= Earned(p, d)
  {
    hide EarnedFrom, GainFrom;
    if d.initialValue > 0 {
      var a, b := SumAt(p.sums, d.epoch, d.scale) - d.S, SumAt(p.sums, d.epoch, d.scale + 1);
      FloorBelowReal(b, SCALE_FACTOR);
      GainFromBelow(d.initialValue, a + b / SCALE_FACTOR, d.P, a as real, b as real / SCALE);
    }
  }

  lemma GainFromBelow(v: nat, x: nat, P: nat, first: real, second: real)
    requires P > 0 && x as real <= first + second
    ensures GainFrom(v, x, P) as real <= EarnedFrom(v as real / P as real, first, second)
  {
    hide EarnedFrom;
    FloorOfShare(v, x, P);
    NonNegative(v, x);
    FloorBelowReal(v * x / P, PRECISION);
    GainAlgebra(v as real / P as real, x as real, first, second, (v * x / P) as real);
  }

  lemma GainAlgebra(c: real, x: real, first: real, second: real, z: real)
    requires c >= 0.0 && x <= first + second && z <= c * x
    ensures z / UNIT <= EarnedFrom(c, first, second)
  {
    assert c * x <= c * (first + second);
  }

  lemma OtherEarned(p: Pool, q: Pool, d: Deposit)
    requires GoodDeposit(p, d) && GoodDeposit(q, d) && q.sums == p.sums
    ensures Earned(q, d) == Earned(p, d)
  {
  }

  lemma SettleGains(p: Pool, i: nat, newValue: nat, newTotal: int, over: real)
    requires Valid(p) && i < |p.deposits| && GainsCovered(p, over) && Settle(p, i, newValue, newTotal).Some?
    ensures Valid(Settle(p, i, newValue, newTotal).value) && GainsCovered(Settle(p, i, newValue, newTotal).value, over)
  {
    SettleKeepsValid(p, i, newValue, newTotal);
    var q := Settle(p, i, newValue, newTotal).value;
    assert GoodDeposit(p, p.deposits[i]);
    GainBelowEarned(p, p.deposits[i]);
    assert Earned(q, Record(p, newValue)) == 0.0;
    hide Earned, CollateralGain, RealSum;
    forall j | 0 <= j < |p.deposits| && j != i ensures AllEarned(q)[j] == AllEarned(p)[j] {
      assert GoodDeposit(p, p.deposits[j]) && GoodDeposit(q, q.deposits[j]);
      OtherEarned(p, q, p.deposits[j]);
    }
    assert AllEarned(q) == AllEarned(p)[i := 0.0];
    RealSumUpdate(AllEarned(p), i, 0.0);
  }

  // An offset pays each deposit its worth times the gain per unit.
  lemma OffsetEarns(p: Pool, debt: nat, coll: nat, r: Rewards, q: Pool, d: Deposit)
    requires GoodDeposit(p, d) && GoodDeposit(q, d) && FutureUntouched(p) && Valid(p) && Offsets(p, debt, coll, r, q)
    ensures Earned(q, d) == Earned(p, d) + r.gainPerUnit as real / UNIT * Worth(p, d)
  {
    hide ComputeRewards, UpdateSumAndProduct, Offset, Valid, Earned, Worth;
    OffsetSums(p, debt, coll, r, q);
    if d.initialValue > 0 {
      if d.epoch == p.epoch && d.scale == p.scale {
        EarnsAtItsScale(p, q, d, r.gainPerUnit);
      } else if d.epoch == p.epoch && d.scale + 1 == p.scale {
        EarnsAtNextScale(p, q, d, r.gainPerUnit);
      } else {
        EarnsNothing(p, q, d, r.gainPerUnit);
      }
    } else {
      EarnsNothing(p, q, d, r.gainPerUnit);
    }
  }

  lemma EarnsNothing(p: Pool, q: Pool, d: Deposit, gain: nat)
    requires GoodDeposit(p, d) && GoodDeposit(q, d)
    requires d.initialValue > 0 ==>
               && (d.epoch != p.epoch || d.scale + 1 < p.scale)
               && SumAt(q.sums, d.epoch, d.scale) == SumAt(p.sums, d.epoch, d.scale)
               && SumAt(q.sums, d.epoch, d.scale + 1) == SumAt(p.sums, d.epoch, d.scale + 1)
    ensures Earned(q, d) == Earned(p, d) + gain as real / UNIT * Worth(p, d)
  {
    hide EarnedFrom, PerUnit;
  }

  lemma EarnsAtItsScale(p: Pool, q: Pool, d: Deposit, gain: nat)
    requires GoodDeposit(p, d) && GoodDeposit(q, d) && d.initialValue > 0 && d.epoch == p.epoch && d.scale == p.scale
    requires SumAt(q.sums, d.epoch, d.scale) == SumAt(p.sums, d.epoch, d.scale) + gain * p.P
    requires SumAt(q.sums, d.epoch, d.scale + 1) == SumAt(p.sums, d.epoch, d.scale + 1)
    ensures Earned(q, d) == Earned(p, d) + gain as real / UNIT * Worth(p, d)
  {
    hide EarnedFrom, PerUnit;
    ProductAsReal(gain, p.P);
    EarnAlgebra(PerUnit(d), (SumAt(p.sums, d.epoch, d.scale) - d.S) as real,
                (SumAt(q.sums, d.epoch, d.scale) - d.S) as real, SumAt(p.sums, d.epoch, d.scale + 1) as real / SCALE,
                SumAt(q.sums, d.epoch, d.scale + 1) as real / SCALE, gain as real, p.P as real);
  }

  lemma EarnsAtNextScale(p: Pool, q: Pool, d: Deposit, gain: nat)
    requires GoodDeposit(p, d) && GoodDeposit(q, d) && d.initialValue > 0 && d.epoch == p.epoch && d.scale + 1 == p.scale
    requires SumAt(q.sums, d.epoch, d.scale) == SumAt(p.sums, d.epoch, d.scale)
    requires SumAt(q.sums, d.epoch, d.scale + 1) == SumAt(p.sums, d.epoch, d.scale + 1) + gain * p.P
    ensures Earned(q, d) == Earned(p, d) + gain as real / UNIT * Worth(p, d)
  {
    hide EarnedFrom, PerUnit;
    ProductAsReal(gain, p.P);
    var b, b1 := SumAt(p.sums, d.epoch, d.scale + 1) as real, SumAt(q.sums, d.epoch, d.scale + 1) as real;
    ScaledIncrement(b, b1, gain as real, p.P as real);
    EarnAlgebra(PerUnit(d), (SumAt(p.sums, d.epoch, d.scale) - d.S) as real,
                (SumAt(q.sums, d.epoch, d.scale) - d.S) as real, b / SCALE, b1 / SCALE, gain as real, p.P as real / SCALE);
  }

  lemma EarnAlgebra(c: real, a: real, a1: real, b: real, b1: real, g: real, x: real)
    requires a1 + b1 == a + b + g * x
    ensures EarnedFrom(c, a1, b1) == EarnedFrom(c, a, b) + g / UNIT * (c * x)
  {
    assert c * (a1 + b1) == c * (a + b) + g * (c * x);
  }

  lemma ScaledIncrement(s: real, s1: real, g: real, x: real)
    requires s1 == s + g * x
    ensures s1 / SCALE == s / SCALE + g * (x / SCALE)
  {
  }

  lemma OffsetSums(p: Pool, debt: nat, coll: nat, r: Rewards, q: Pool)
    requires Offsets(p, debt, coll, r, q)
    ensures forall e, s :: SumAt(q.sums, e, s)
                           == SumAt(p.sums, e, s) + if e == p.epoch && s == p.scale then r.gainPerUnit * p.P else 0
  {
    hide ComputeRewards;
    assert q.sums == p.sums[(p.epoch, p.scale) := SumAt(p.sums, p.epoch, p.scale) + r.gainPerUnit * p.P];
  }

  lemma GainAccounting(p: Pool, debt: nat, coll: nat, r: Rewards)
    requires p.total > 0 && ComputeRewards(p, debt, coll) == Some(r)
    ensures r.gainPerUnit as real * p.total as real + r.collError as real == coll as real * UNIT + p.collError as real
    ensures r.collError < p.total
  {
    FloorDivision(coll * PRECISION + p.collError, p.total);
    ProductAsReal(r.gainPerUnit, p.total);
  }

  // The deposits outgrow the pool by at most `gap`.
  ghost predicate CoveredBut(p: Pool, gap: real)
    requires Valid(p)
  {
    TotalWorth(p) <= p.total as real + gap
  }

  // The gain on that, in units of 1e-18.
  ghost function Over(gainPerUnit: nat, gap: real): real { gainPerUnit as real * gap }

  // An offset hands out no more collateral than it brings in, but for the gain on what the deposits have
  // outgrown the pool by.
  lemma OffsetGains(p: Pool, debt: nat, coll: nat, r: Rewards, q: Pool, over: real, gap: real)
    requires Valid(p) && Offsets(p, debt, coll, r, q) && GainsCovered(p, over) && CoveredBut(p, gap)
    ensures Valid(q) && GainsCovered(q, over + Over(r.gainPerUnit, gap))
  {
    hide Earned, Offset, ComputeRewards, UpdateSumAndProduct, RealSum, Worth, Valid;
    OffsetKeepsValid(p, debt, coll);
    GainAccounting(p, debt, coll, r);
    OffsetFields(p, debt, coll, r, q);
    var k := r.gainPerUnit as real / UNIT;
    EachEarns(p, debt, coll, r, q);
    RealSumShift(AllEarned(p), AllEarned(q), Worths(p), k);
    CollateralAlgebra(RealSum(AllEarned(p)), TotalWorth(p), p.total as real, r.gainPerUnit as real,
                      coll as real, p.collError as real, r.collError as real, p.collateral as real, over, gap);
  }

  lemma CollateralAlgebra(earned: real, worth: real, total: real, gain: real, coll: real, error: real, newError: real,
                          held: real, over: real, gap: real)
    requires worth <= total + gap && gain >= 0.0 && gain * total + newError == coll * UNIT + error
    requires UNIT * earned + error <= UNIT * held + over
    ensures UNIT * (earned + gain / UNIT * worth) + newError <= UNIT * (held + coll) + (over + gain * gap)
  {
    assert gain * worth <= gain * (total + gap);
    assert gain * (total + gap) == gain * total + gain * gap;
    assert UNIT * (gain / UNIT * worth) == gain * worth;
  }

  lemma EachEarns(p: Pool, debt: nat, coll: nat, r: Rewards, q: Pool)
    requires Valid(p) && Valid(q) && Offsets(p, debt, coll, r, q) && FutureUntouched(p) && q.deposits == p.deposits
    ensures forall i | 0 <= i < |p.deposits| ::
              AllEarned(q)[i] == AllEarned(p)[i] + r.gainPerUnit as real / UNIT * Worths(p)[i]
  {
    hide Earned, Worth, Offset, ComputeRewards;
    forall i | 0 <= i < |p.deposits|
      ensures AllEarned(q)[i] == AllEarned(p)[i] + r.gainPerUnit as real / UNIT * Worths(p)[i]
    {
      assert GoodDeposit(p, p.deposits[i]) && GoodDeposit(q, q.deposits[i]);
      OffsetEarns(p, debt, coll, r, q, p.deposits[i]);
    }
  }

  lemma OffsetFields(p: Pool, debt: nat, coll: nat, r: Rewards, q: Pool)
    requires Offsets(p, debt, coll, r, q) && FutureUntouched(p)
    ensures q.deposits == p.deposits && q.collError == r.collError && q.collateral == p.collateral + coll
    ensures FutureUntouched(q)
  {
    hide ComputeRewards;
  }

  // At every offset of the run the deposits outgrow the pool by at most `gap`.
  ghost predicate CoveredAtOffsets(p: Pool, ops: seq<Op>, gap: real)
    requires Valid(p)
    decreases |ops|
  {
    ops == [] || ((ops[0].OffsetDebt? ==> CoveredBut(p, gap)) && CoveredAtOffsets(Step(p, ops[0]), ops[1..], gap))
  }

  // The collateral per unit staked that a run pays, all offsets together.
  function StepGain(p: Pool, op: Op): nat
    requires Valid(p)
  {
    if op.OffsetDebt? && TryStep(p, op).Some? && p.total != 0 && op.debt != 0
    then ComputeRewards(p, op.debt, op.coll).value.gainPerUnit
    else 0
  }

  function RunGain(p: Pool, ops: seq<Op>): nat
    requires Valid(p)
    decreases |ops|
  {
    if ops == [] then 0 else StepGain(p, ops[0]) + RunGain(Step(p, ops[0]), ops[1..])
  }

  lemma StepGains(p: Pool, op: Op, over: real, gap: real)
    requires Valid(p) && GainsCovered(p, over) && (op.OffsetDebt? ==> CoveredBut(p, gap))
    ensures GainsCovered(Step(p, op), over + Over(StepGain(p, op), gap))
  {
    hide ComputeRewards, UpdateSumAndProduct, Compounded, CollateralGain, RealSum, Earned, Worth, CoveredBut;
    hide GainsCovered, Settle, Record, Over;
    NoGain(gap);
    var r := TryStep(p, op);
    if r.Some? {
      match op
      case ProvideToSP(i, amount) =>
        SettleGains(p, i, Compounded(p, p.deposits[i]) + amount, p.total + amount, over);
      case WithdrawFromSP(i, amount, _) =>
        var w := Min(amount, Compounded(p, p.deposits[i]));
        SettleGains(p, i, Compounded(p, p.deposits[i]) - w, p.total - w, over);
      case WithdrawGainToTrove(i, _) =>
        SettleGains(p, i, Compounded(p, p.deposits[i]), p.total, over);
      case OffsetDebt(debt, coll) =>
        if p.total != 0 && debt != 0 {
          OffsetGains(p, debt, coll, ComputeRewards(p, debt, coll).value, r.value, over, gap);
        }
    }
  }

  lemma NoGain(gap: real)
    ensures Over(0, gap) == 0.0
  {
  }

  lemma {:induction false} RunGains(p: Pool, ops: seq<Op>, over: real, gap: real)
    requires Valid(p) && GainsCovered(p, over) && CoveredAtOffsets(p, ops, gap)
    ensures GainsCovered(Run(p, ops), over + Over(RunGain(p, ops), gap))
    decreases |ops|
  {
    hide Step, GainsCovered, StepGain, CoveredBut, Over;
    NoGain(gap);
    if ops != [] {
      var g, rest := StepGain(p, ops[0]), RunGain(Step(p, ops[0]), ops[1..]);
      StepGains(p, ops[0], over, gap);
      RunGains(Step(p, ops[0]), ops[1..], over + Over(g, gap), gap);
      OverAdds(g, rest, gap);
    }
  }

  lemma OverAdds(g: nat, h: nat, gap: real)
    ensures Over(g + h, gap) == Over(g, gap) + Over(h, gap)
  {
  }

  // Over every run whose offsets find the deposits covered, the depositors' collateral gains together
  // never exceed the collateral the pool holds.
  lemma GainsNeverExceedCollateral(accounts: nat, ops: seq<Op>)
    requires Valid(EmptyPool(accounts)) && CoveredAtOffsets(EmptyPool(accounts), ops, 0.0)
    ensures Sum(AllGains(Run(EmptyPool(accounts), ops))) <= Run(EmptyPool(accounts), ops).collateral
  {
    var p := EmptyPool(accounts);
    RealSumZero(AllEarned(p));
    GainsWithinGap(p, ops, 0.0);
  }

  // Over every run at all they exceed it by at most the largest pool seen, times the collateral paid per unit,
  // times 1e-36: the gain on the gap that the loss error can open.
  lemma GainsWithinPeak(accounts: nat, ops: seq<Op>)
    ensures Valid(EmptyPool(accounts))
    ensures
      var p := EmptyPool(accounts);
      var q := Run(p, ops);
      (Sum(AllGains(q)) - q.collateral) * PRECISION * PRECISION <= RunGain(p, ops) * Peak(p, ops)
  {
    hide RealSum, Run, Peak, RunGain, Sum, Worth, Earned, CollateralGain, CoveredAtOffsets, GainsCovered, Over;
    EmptyPoolFacts(accounts);
    var p := EmptyPool(accounts);
    var m := Peak(p, ops);
    NothingEarned(accounts);
    GapAtOffsets(p, ops, m);
    GainsWithinGap(p, ops, m as real / UNIT);
    OverInUnits(Sum(AllGains(Run(p, ops))) - Run(p, ops).collateral, RunGain(p, ops), m);
  }

  lemma GainsWithinGap(p: Pool, ops: seq<Op>, gap: real)
    requires Valid(p) && GainsCovered(p, 0.0) && CoveredAtOffsets(p, ops, gap)
    ensures UNIT * (Sum(AllGains(Run(p, ops))) - Run(p, ops).collateral) as real <= Over(RunGain(p, ops), gap)
  {
    hide RealSum, Run, RunGain, Sum, Earned, CollateralGain, Over;
    RunGains(p, ops, 0.0, gap);
    GainsBelowCollateral(Run(p, ops), 0.0 + Over(RunGain(p, ops), gap));
  }

  lemma NothingEarned(accounts: nat)
    ensures Valid(EmptyPool(accounts)) && GainsCovered(EmptyPool(accounts), 0.0)
  {
    RealSumZero(AllEarned(EmptyPool(accounts)));
  }

  lemma OverInUnits(excess: int, g: nat, m: nat)
    requires UNIT * excess as real <= Over(g, m as real / UNIT)
    ensures excess * PRECISION * PRECISION <= g * m
  {
    ProductAsReal(g, m);
    assert g as real * (m as real / UNIT) * UNIT == g as real * m as real;
  }

  lemma {:induction false} GapAtOffsets(p: Pool, ops: seq<Op>, m: nat)
    requires Valid(p) && GapWithin(p, m) && Peak(p, ops) <= m
    ensures CoveredAtOffsets(p, ops, m as real / UNIT)
    decreases |ops|
  {
    hide Step, RealSum, Worth;
    if ops != [] {
      StepGap(p, ops[0], m);
      GapAtOffsets(Step(p, ops[0]), ops[1..], m);
      assert UNIT * (m as real / UNIT) == m as real;
    }
  }

  lemma GainsBelowCollateral(q: Pool, over: real)
    requires Valid(q) && GainsCovered(q, over)
    ensures UNIT * (Sum(AllGains(q)) - q.collateral) as real <= over
  {
    hide CollateralGain, Earned;
    forall i | 0 <= i < |q.deposits| ensures AllGains(q)[i] as real <= AllEarned(q)[i] {
      assert GoodDeposit(q, q.deposits[i]);
      GainBelowEarned(q, q.deposits[i]);
    }
    SumBelowRealSum(AllGains(q), AllEarned(q));
  }

  // ---- The running product ----

  // The update of P fails exactly when it would store 0.
  lemma ProductStallsExactly(p: Pool, gainPerUnit: nat, lossPerUnit: nat)
    requires 0 < p.P <= PRECISION && lossPerUnit <= PRECISION
    ensures UpdateSumAndProduct(p, gainPerUnit, lossPerUnit) == None
            <==> lossPerUnit < PRECISION && p.P * (PRECISION - lossPerUnit) < SCALE_FACTOR
  {
    StalledProduct(p.P * (PRECISION - lossPerUnit));
    FactorAtLeastOne(p.P, PRECISION - lossPerUnit);
  }

  lemma StalledProduct(x: nat)
    ensures x / PRECISION < SCALE_FACTOR && x * SCALE_FACTOR / PRECISION == 0 <==> x < SCALE_FACTOR
  {
  }

  // An offset reverts exactly when it asks for more than the pool holds, the fed-back loss error exceeds the new loss, or the
  // product after the loss is below 1e9 parts of 1e18.
  lemma OffsetExactly(p: Pool, debt: nat, coll: nat)
    requires Valid(p) && p.total > 0 && debt > 0
    ensures Offset(p, debt, coll).Some? <==>
            && debt <= p.total
            && (debt == p.total
                || (p.lossError <= debt * PRECISION
                    && (LossPerUnit(p, debt) == PRECISION || ProductAfter(p, debt) >= SCALE_FACTOR)))
  {
    var w := ComputeRewards(p, debt, coll);
    if w.Some? {
      LossAccounting(p, debt, coll, w.value);
      LossForeseen(p, debt, coll, w.value);
      var p1 := p.(collError := w.value.collError, lossError := w.value.lossError);
      ProductStallsExactly(p1, w.value.gainPerUnit, w.value.lossPerUnit);
      hide ComputeRewards, UpdateSumAndProduct, LossPerUnit;
    }
  }

  // With P at 1e9 or more, an offset reverts only when it asks for more than the pool holds or the
  // fed-back loss error exceeds the new loss.
  lemma OffsetSucceedsExactly(p: Pool, debt: nat, coll: nat)
    requires Valid(p) && p.P >= SCALE_FACTOR && p.total > 0 && debt > 0
    ensures Offset(p, debt, coll).Some? <==>
            debt <= p.total && (debt == p.total || p.lossError <= debt * PRECISION)
  {
    var w := ComputeRewards(p, debt, coll);
    if w.Some? {
      LossAccounting(p, debt, coll, w.value);
      var p1 := p.(collError := w.value.collError, lossError := w.value.lossError);
      ProductStallsExactly(p1, w.value.gainPerUnit, w.value.lossPerUnit);
      FactorAtLeastOne(p.P, PRECISION - w.value.lossPerUnit);
      hide ComputeRewards, UpdateSumAndProduct;
    }
  }

  lemma FactorAtLeastOne(P: nat, factor: nat)
    ensures factor > 0 ==> P * factor >= P
  {
    if factor > 0 {
      assert P * factor == P + P * (factor - 1);
    }
  }

  // P stays at 1e9 or more exactly when the offset leaves at least 1e18 of P times the factor, whatever
  // the contract's comment on its minimum says.
  lemma ProductFloorExactly(p: Pool, gainPerUnit: nat, lossPerUnit: nat)
    requires 0 < p.P <= PRECISION && 0 < lossPerUnit <= PRECISION
    requires UpdateSumAndProduct(p, gainPerUnit, lossPerUnit).Some?
    ensures UpdateSumAndProduct(p, gainPerUnit, lossPerUnit).value.P >= SCALE_FACTOR
            <==> lossPerUnit == PRECISION || p.P * (PRECISION - lossPerUnit) >= PRECISION
  {
    var x := p.P * (PRECISION - lossPerUnit);
    QuotientAtLeast(x, PRECISION, SCALE_FACTOR);
    QuotientAtLeast(x * SCALE_FACTOR, PRECISION, SCALE_FACTOR);
  }
}
