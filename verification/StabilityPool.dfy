/** The Stability Pool as the contract computes it: 18-digit integers, truncating division, loss and
    gain per unit with error feedback, and the scales and epochs of the running product P. */
module StabilityPool {
  import opened Common

  const SCALE_FACTOR: nat := 1_000_000_000

  // A depositor's record: the stored deposit and the four snapshots taken with it.
  datatype Deposit = Deposit(initialValue: nat, S: nat, P: nat, scale: nat, epoch: nat)

  const NO_DEPOSIT := Deposit(0, 0, 0, 0, 0)

  // Accounts are the indices of `deposits`: like a Solidity mapping, every account has a record and an
  // untouched one is all zeros. `sums` is epochToScaleToSum.
  datatype Pool = Pool(
    deposits: seq<Deposit>, total: nat, collateral: nat, P: nat, scale: nat, epoch: nat,
    sums: map<(nat, nat), nat>, collError: nat, lossError: nat)

  function EmptyPool(accounts: nat): Pool {
    Pool(seq(accounts, _ => NO_DEPOSIT), 0, 0, PRECISION, 0, 0, map[], 0, 0)
  }

  function SumAt(sums: map<(nat, nat), nat>, epoch: nat, scale: nat): nat {
    if (epoch, scale) in sums then sums[(epoch, scale)] else 0
  }

  // What is true of every record in every reachable state: the subtractions and divisions below are
  // then defined, and P has only fallen since the snapshot.
  ghost predicate GoodDeposit(p: Pool, d: Deposit) {
    d.initialValue > 0 ==>
      && d.P > 0
      && d.epoch <= p.epoch
      && d.S <= SumAt(p.sums, d.epoch, d.scale)
      && (d.epoch == p.epoch ==>
            && d.scale <= p.scale
            && (d.scale == p.scale ==> p.P <= d.P)
            && (d.scale + 1 == p.scale ==> p.P <= d.P * SCALE_FACTOR))
  }

  ghost predicate Valid(p: Pool) {
    && 0 < p.P <= PRECISION
    && (forall i | 0 <= i < |p.deposits| :: GoodDeposit(p, p.deposits[i]))
  }

  // _getCompoundedStakeFromSnapshots
  function Compounded(p: Pool, d: Deposit): (r: nat)
    requires GoodDeposit(p, d)
  {
    if d.initialValue == 0 || d.epoch < p.epoch then 0
    else
      var scaleDiff := p.scale - d.scale;
      var stake :=
        if scaleDiff == 0 then d.initialValue * p.P / d.P
        else if scaleDiff == 1 then d.initialValue * p.P / d.P / SCALE_FACTOR
        else 0;
      if stake < d.initialValue / 1_000_000_000 then 0 else stake
  }

  // _getCollateralGainFromSnapshots
  function CollateralGain(p: Pool, d: Deposit): (r: nat)
    requires GoodDeposit(p, d)
  {
    if d.initialValue == 0 then 0
    else
      var firstPortion := SumAt(p.sums, d.epoch, d.scale) - d.S;
      var secondPortion := SumAt(p.sums, d.epoch, d.scale + 1) / SCALE_FACTOR;
      GainFrom(d.initialValue, firstPortion + secondPortion, d.P)
  }

  function GainFrom(initialValue: nat, portions: nat, P: nat): nat
    requires P > 0
  {
    initialValue * portions / P / PRECISION
  }

  // A depositor never gains thUSD by waiting, so the contract's loss subtraction cannot underflow.
  lemma CompoundedAtMostInitial(p: Pool, d: Deposit)
    requires GoodDeposit(p, d)
    ensures Compounded(p, d) <= d.initialValue
  {
    if d.initialValue > 0 && d.epoch == p.epoch {
      if d.scale == p.scale {
        QuotientBound(d.initialValue, p.P, d.P);
      } else if d.scale + 1 == p.scale {
        QuotientBound(d.initialValue, p.P, d.P * SCALE_FACTOR);
        NestedDivision(d.initialValue * p.P, d.P, SCALE_FACTOR);
      }
    }
  }

  lemma QuotientBound(a: nat, b: nat, c: nat)
    requires c > 0 && b <= c
    ensures a * b / c <= a
  {
    assert a * b <= a * c < (a + 1) * c;
    QuotientAtLeast(a * b, c, a + 1);
  }

  lemma NestedDivision(a: nat, b: nat, c: nat)
    requires b > 0 && c > 0
    ensures b * c > 0 && a / b / c == a / (b * c)
  {
    var q := a / b / c;
    QuotientAtLeast(a / b, c, q);
    QuotientAtLeast(a, b, q * c);
    QuotientAtLeast(a / b, c, q + 1);
    QuotientAtLeast(a, b, (q + 1) * c);
    Reassociate(q, c, b);
    Reassociate(q + 1, c, b);
    QuotientAtLeast(a, b * c, q);
    QuotientAtLeast(a, b * c, q + 1);
  }

  lemma Reassociate(x: nat, y: nat, z: nat)
    ensures x * y * z == x * (z * y)
  {
  }

  // _updateDepositAndSnapshots
  function Record(p: Pool, newValue: nat): Deposit {
    if newValue == 0 then NO_DEPOSIT
    else Deposit(newValue, SumAt(p.sums, p.epoch, p.scale), p.P, p.scale, p.epoch)
  }

  // Pay out the gain of account i, set its deposit to newValue and the pool total to newTotal.
  function Settle(p: Pool, i: nat, newValue: nat, newTotal: int): Option<Pool>
    requires Valid(p) && i < |p.deposits|
  {
    var gain := CollateralGain(p, p.deposits[i]);
    if newTotal < 0 || p.collateral < gain then None
    else
      Some(p.(deposits := p.deposits[i := Record(p, newValue)], total := newTotal,
              collateral := p.collateral - gain))
  }

  function Provide(p: Pool, i: nat, amount: nat): Option<Pool>
    requires Valid(p) && i < |p.deposits|
  {
    if amount == 0 then None
    else Settle(p, i, Compounded(p, p.deposits[i]) + amount, p.total + amount)
  }

  // `allowed`: the lowest trove has ICR >= MCR (_requireNoUnderCollateralizedTroves).
  function Withdraw(p: Pool, i: nat, amount: nat, allowed: bool): Option<Pool>
    requires Valid(p) && i < |p.deposits|
  {
    var compounded := Compounded(p, p.deposits[i]);
    var toWithdraw := Min(amount, compounded);
    if (amount != 0 && !allowed) || p.deposits[i].initialValue == 0 then None
    else Settle(p, i, compounded - toWithdraw, p.total - toWithdraw)
  }

  function GainToTrove(p: Pool, i: nat, hasTrove: bool): Option<Pool>
    requires Valid(p) && i < |p.deposits|
  {
    var d := p.deposits[i];
    if d.initialValue == 0 || !hasTrove || CollateralGain(p, d) == 0 then None
    else Settle(p, i, Compounded(p, d), p.total)
  }

  datatype Rewards = Rewards(gainPerUnit: nat, lossPerUnit: nat, collError: nat, lossError: nat)

  // _computeRewardsPerUnitStaked; None is a failed assert or an underflow of the loss numerator.
  function ComputeRewards(p: Pool, debt: nat, coll: nat): Option<Rewards>
    requires p.total > 0
  {
    var collNumerator := coll * PRECISION + p.collError;
    var gain := collNumerator / p.total;
    FloorDivision(collNumerator, p.total);
    var newCollError: nat := collNumerator - gain * p.total;
    if debt > p.total then None
    else if debt == p.total then Some(Rewards(gain, PRECISION, newCollError, 0))
    else if debt * PRECISION < p.lossError then None
    else
      var lossNumerator := debt * PRECISION - p.lossError;
      var loss := lossNumerator / p.total + 1;
      FloorDivision(lossNumerator, p.total);
      Some(Rewards(gain, loss, newCollError, loss * p.total - lossNumerator))
  }

  // The value and the remainder of each division, as the contract computes them.
  lemma RewardsAre(p: Pool, debt: nat, coll: nat)
    requires p.total > 0
    ensures coll * PRECISION + p.collError >= (coll * PRECISION + p.collError) / p.total * p.total
    ensures debt < p.total && debt * PRECISION >= p.lossError ==>
              ((debt * PRECISION - p.lossError) / p.total + 1) * p.total >= debt * PRECISION - p.lossError
    ensures
      var n := coll * PRECISION + p.collError;
      var m := debt * PRECISION - p.lossError;
      ComputeRewards(p, debt, coll) ==
      if debt > p.total then None
      else if debt == p.total then Some(Rewards(n / p.total, PRECISION, n - n / p.total * p.total, 0))
      else if m < 0 then None
      else Some(Rewards(n / p.total, m / p.total + 1, n - n / p.total * p.total, (m / p.total + 1) * p.total - m))
  {
    FloorDivision(coll * PRECISION + p.collError, p.total);
    if debt < p.total && debt * PRECISION >= p.lossError {
      FloorDivision(debt * PRECISION - p.lossError, p.total);
    }
  }

  // _updateRewardSumAndProduct
  function UpdateSumAndProduct(p: Pool, gainPerUnit: nat, lossPerUnit: nat): Option<Pool> {
    if lossPerUnit > PRECISION then None
    else
      var factor := PRECISION - lossPerUnit;
      var s := p.(sums := p.sums[(p.epoch, p.scale) := SumAt(p.sums, p.epoch, p.scale) + gainPerUnit * p.P]);
      if factor == 0 then Some(s.(epoch := p.epoch + 1, scale := 0, P := PRECISION))
      else if p.P * factor / PRECISION < SCALE_FACTOR then
        var newP := p.P * factor * SCALE_FACTOR / PRECISION;
        if newP == 0 then None else Some(s.(P := newP, scale := p.scale + 1))
      else Some(s.(P := p.P * factor / PRECISION))
  }

  function Offset(p: Pool, debt: nat, coll: nat): Option<Pool> {
    if p.total == 0 || debt == 0 then Some(p)
    else
      match ComputeRewards(p, debt, coll)
      case None => None
      case Some(r) =>
        match UpdateSumAndProduct(p.(collError := r.collError, lossError := r.lossError), r.gainPerUnit, r.lossPerUnit)
        case None => None
        case Some(q) => Some(q.(total := p.total - debt, collateral := p.collateral + coll))
  }

  // ---- Every operation keeps Valid ----

  lemma SettleKeepsValid(p: Pool, i: nat, newValue: nat, newTotal: int)
    requires Valid(p) && i < |p.deposits|
    ensures Settle(p, i, newValue, newTotal).Some? ==> Valid(Settle(p, i, newValue, newTotal).value)
  {
    var r := Settle(p, i, newValue, newTotal);
    if r.Some? {
      assert GoodDeposit(r.value, Record(p, newValue));
      forall j | 0 <= j < |p.deposits| ensures GoodDeposit(r.value, r.value.deposits[j]) {
        assert GoodDeposit(p, p.deposits[j]);
      }
    }
  }

  // The product after an offset: at most the real product, in units of the scale it is stored at.
  lemma ProductShrinks(p: Pool, gainPerUnit: nat, lossPerUnit: nat)
    requires 0 < p.P <= PRECISION && lossPerUnit > 0
    ensures
      var r := UpdateSumAndProduct(p, gainPerUnit, lossPerUnit);
      r.Some? && r.value.epoch == p.epoch ==>
        && 0 < r.value.P <= PRECISION
        && lossPerUnit < PRECISION
        && (r.value.scale == p.scale ==>
              r.value.P <= p.P && r.value.P * PRECISION <= p.P * (PRECISION - lossPerUnit))
        && (r.value.scale != p.scale ==>
              && r.value.scale == p.scale + 1 && r.value.P <= p.P * SCALE_FACTOR
              && r.value.P * PRECISION <= p.P * (PRECISION - lossPerUnit) * SCALE_FACTOR)
  {
    var r := UpdateSumAndProduct(p, gainPerUnit, lossPerUnit);
    if r.Some? && r.value.epoch == p.epoch {
      var factor := PRECISION - lossPerUnit;
      assert p.P * factor <= p.P * PRECISION;
      FloorDivision(p.P * factor, PRECISION);
      FloorDivision(p.P * factor * SCALE_FACTOR, PRECISION);
    }
  }

  lemma OffsetKeepsValid(p: Pool, debt: nat, coll: nat)
    requires Valid(p)
    ensures Offset(p, debt, coll).Some? ==> Valid(Offset(p, debt, coll).value)
  {
    hide UpdateSumAndProduct, ComputeRewards, Valid;
    var r := Offset(p, debt, coll);
    if r.Some? && p.total != 0 && debt != 0 {
      LossIsPositive(p, debt, coll);
      var w := ComputeRewards(p, debt, coll).value;
      var p1 := p.(collError := w.collError, lossError := w.lossError);
      OnlyPools(p, p1);
      UpdateKeepsValid(p1, w.gainPerUnit, w.lossPerUnit);
      OnlyPools(UpdateSumAndProduct(p1, w.gainPerUnit, w.lossPerUnit).value, r.value);
    }
  }

  lemma LossIsPositive(p: Pool, debt: nat, coll: nat)
    requires p.total > 0
    ensures ComputeRewards(p, debt, coll).Some? ==> ComputeRewards(p, debt, coll).value.lossPerUnit > 0
  {
  }

  // Valid says nothing of the totals and the carried errors.
  lemma OnlyPools(p: Pool, q: Pool)
    requires Valid(p) && q == p.(total := q.total, collateral := q.collateral, collError := q.collError, lossError := q.lossError)
    ensures Valid(q)
  {
    forall j | 0 <= j < |q.deposits| ensures GoodDeposit(q, q.deposits[j]) {
      assert GoodDeposit(p, p.deposits[j]);
    }
  }

  lemma UpdateKeepsValid(p: Pool, gainPerUnit: nat, lossPerUnit: nat)
    requires Valid(p) && lossPerUnit > 0
    ensures UpdateSumAndProduct(p, gainPerUnit, lossPerUnit).Some? ==>
              Valid(UpdateSumAndProduct(p, gainPerUnit, lossPerUnit).value)
  {
    ProductShrinks(p, gainPerUnit, lossPerUnit);
    UpdateFields(p, gainPerUnit, lossPerUnit);
    hide UpdateSumAndProduct;
    var r := UpdateSumAndProduct(p, gainPerUnit, lossPerUnit);
    if r.Some? {
      forall j | 0 <= j < |p.deposits| ensures GoodDeposit(r.value, p.deposits[j]) {
        assert GoodDeposit(p, p.deposits[j]);
        GoodAfterProduct(p, r.value, p.deposits[j], gainPerUnit, lossPerUnit);
      }
    }
  }

  // The sum in force grows, the others stay, and a new epoch starts at scale 0 with P = 1.
  lemma UpdateFields(p: Pool, gainPerUnit: nat, lossPerUnit: nat)
    ensures
      var r := UpdateSumAndProduct(p, gainPerUnit, lossPerUnit);
      r.Some? ==>
        && r.value.deposits == p.deposits && r.value.epoch >= p.epoch
        && (r.value.epoch != p.epoch ==> r.value.epoch == p.epoch + 1 && r.value.scale == 0 && r.value.P == PRECISION)
        && forall e, s :: SumAt(p.sums, e, s) <= SumAt(r.value.sums, e, s)
  {
    assert gainPerUnit * p.P >= 0;
  }

  lemma GoodAfterProduct(p: Pool, q: Pool, d: Deposit, gainPerUnit: nat, lossPerUnit: nat)
    requires 0 < p.P <= PRECISION && lossPerUnit > 0 && GoodDeposit(p, d)
    requires UpdateSumAndProduct(p, gainPerUnit, lossPerUnit) == Some(q)
    ensures GoodDeposit(q, d)
  {
    ProductShrinks(p, gainPerUnit, lossPerUnit);
    UpdateFields(p, gainPerUnit, lossPerUnit);
    hide UpdateSumAndProduct, SumAt;
    if d.initialValue > 0 && q.epoch == p.epoch && d.epoch == p.epoch && q.scale == p.scale + 1 && d.scale == p.scale {
      assert p.P * SCALE_FACTOR <= d.P * SCALE_FACTOR;
    }
  }

  // ---- Runs ----

  datatype Op =
    | ProvideToSP(account: nat, amount: nat)
    | WithdrawFromSP(account: nat, amount: nat, allowed: bool)
    | WithdrawGainToTrove(account: nat, hasTrove: bool)
    | OffsetDebt(debt: nat, coll: nat)

  function TryStep(p: Pool, op: Op): (r: Option<Pool>)
    requires Valid(p)
    ensures r.Some? ==> Valid(r.value) && |r.value.deposits| == |p.deposits|
  {
    match op
    case ProvideToSP(i, amount) =>
      if i >= |p.deposits| then None
      else SettleKeepsValid(p, i, Compounded(p, p.deposits[i]) + amount, p.total + amount); Provide(p, i, amount)
    case WithdrawFromSP(i, amount, allowed) =>
      if i >= |p.deposits| then None
      else
        var compounded := Compounded(p, p.deposits[i]);
        var toWithdraw := Min(amount, compounded);
        SettleKeepsValid(p, i, compounded - toWithdraw, p.total - toWithdraw); Withdraw(p, i, amount, allowed)
    case WithdrawGainToTrove(i, hasTrove) =>
      if i >= |p.deposits| then None
      else SettleKeepsValid(p, i, Compounded(p, p.deposits[i]), p.total); GainToTrove(p, i, hasTrove)
    case OffsetDebt(debt, coll) => OffsetKeepsValid(p, debt, coll); Offset(p, debt, coll)
  }

  // A reverted transaction leaves the state as it was.
  function Step(p: Pool, op: Op): (r: Pool)
    requires Valid(p)
    ensures Valid(r) && |r.deposits| == |p.deposits|
  {
    match TryStep(p, op)
    case None => p
    case Some(q) => q
  }

  function Run(p: Pool, ops: seq<Op>): (r: Pool)
    requires Valid(p)
    ensures Valid(r) && |r.deposits| == |p.deposits|
    decreases |ops|
  {
    if ops == [] then p else Run(Step(p, ops[0]), ops[1..])
  }

  // The contract object. Each method performs the contract's own sequence of updates; `ok` is false
  // where the transaction reverts.
  class Contract {
    var deposits: seq<Deposit>
    var total: nat
    var collateral: nat
    var P: nat
    var currentScale: nat
    var currentEpoch: nat
    var epochToScaleToSum: map<(nat, nat), nat>
    var lastCollateralErrorOffset: nat
    var lastLossErrorOffset: nat

    ghost function Model(): Pool
      reads this
    {
      Pool(deposits, total, collateral, P, currentScale, currentEpoch, epochToScaleToSum,
           lastCollateralErrorOffset, lastLossErrorOffset)
    }

    constructor (accounts: nat)
      ensures Model() == EmptyPool(accounts) && Valid(Model())
    {
      deposits := seq(accounts, _ => NO_DEPOSIT);
      total, collateral, P := 0, 0, PRECISION;
      currentScale, currentEpoch, epochToScaleToSum := 0, 0, map[];
      lastCollateralErrorOffset, lastLossErrorOffset := 0, 0;
    }

    method GetCompoundedDeposit(account: nat) returns (r: nat)
      requires Valid(Model()) && account < |deposits|
      ensures r == Compounded(Model(), deposits[account])
      ensures r <= deposits[account].initialValue
    {
      var d := deposits[account];
      assert GoodDeposit(Model(), d);
      CompoundedAtMostInitial(Model(), d);
      if d.initialValue == 0 || d.epoch < currentEpoch { return 0; }
      var compoundedStake := 0;
      var scaleDiff := currentScale - d.scale;
      if scaleDiff == 0 {
        compoundedStake := d.initialValue * P / d.P;
      } else if scaleDiff == 1 {
        compoundedStake := d.initialValue * P / d.P / SCALE_FACTOR;
      }
      if compoundedStake < d.initialValue / 1_000_000_000 { return 0; }
      return compoundedStake;
    }

    method GetCollateralGain(account: nat) returns (r: nat)
      requires Valid(Model()) && account < |deposits|
      ensures r == CollateralGain(Model(), deposits[account])
    {
      hide GainFrom;
      var d := deposits[account];
      assert GoodDeposit(Model(), d);
      if d.initialValue == 0 { return 0; }
      var firstPortion := SumAt(epochToScaleToSum, d.epoch, d.scale) - d.S;
      var secondPortion := SumAt(epochToScaleToSum, d.epoch, d.scale + 1) / SCALE_FACTOR;
      r := GainFrom(d.initialValue, firstPortion + secondPortion, d.P);
    }

    method UpdateDepositAndSnapshots(account: nat, newValue: nat)
      requires account < |deposits|
      modifies this`deposits
      ensures deposits == old(deposits)[account := Record(old(Model()), newValue)]
    {
      var d := NO_DEPOSIT;
      if newValue != 0 {
        d := Deposit(newValue, SumAt(epochToScaleToSum, currentEpoch, currentScale), P, currentScale, currentEpoch);
      }
      deposits := deposits[account := d];
    }

    method ProvideToSP(account: nat, amount: nat) returns (ok: bool)
      requires Valid(Model()) && account < |deposits|
      modifies this
      ensures ok == Provide(old(Model()), account, amount).Some?
      ensures Model() == if ok then Provide(old(Model()), account, amount).value else old(Model())
      ensures Valid(Model())
    {
      if amount == 0 { return false; }
      var gain := GetCollateralGain(account);
      var compounded := GetCompoundedDeposit(account);
      SettleKeepsValid(Model(), account, compounded + amount, total + amount);
      var loss: nat := deposits[account].initialValue - compounded;
      if collateral < gain { return false; }
      total := total + amount;
      UpdateDepositAndSnapshots(account, compounded + amount);
      collateral := collateral - gain;
      return true;
    }

    method WithdrawFromSP(account: nat, amount: nat, allowed: bool) returns (ok: bool)
      requires Valid(Model()) && account < |deposits|
      modifies this
      ensures ok == Withdraw(old(Model()), account, amount, allowed).Some?
      ensures Model() == if ok then Withdraw(old(Model()), account, amount, allowed).value else old(Model())
      ensures Valid(Model())
    {
      if amount != 0 && !allowed { return false; }
      if deposits[account].initialValue == 0 { return false; }
      var gain := GetCollateralGain(account);
      var compounded := GetCompoundedDeposit(account);
      var toWithdraw := Min(amount, compounded);
      SettleKeepsValid(Model(), account, compounded - toWithdraw, total - toWithdraw);
      var loss: nat := deposits[account].initialValue - compounded;
      if total < toWithdraw || collateral < gain { return false; }
      total := total - toWithdraw;
      UpdateDepositAndSnapshots(account, compounded - toWithdraw);
      collateral := collateral - gain;
      return true;
    }

    method WithdrawCollateralGainToTrove(account: nat, hasTrove: bool) returns (ok: bool)
      requires Valid(Model()) && account < |deposits|
      modifies this
      ensures ok == GainToTrove(old(Model()), account, hasTrove).Some?
      ensures Model() == if ok then GainToTrove(old(Model()), account, hasTrove).value else old(Model())
      ensures Valid(Model())
    {
      if deposits[account].initialValue == 0 || !hasTrove { return false; }
      var gain := GetCollateralGain(account);
      if gain == 0 { return false; }
      var compounded := GetCompoundedDeposit(account);
      SettleKeepsValid(Model(), account, compounded, total);
      var loss: nat := deposits[account].initialValue - compounded;
      if collateral < gain { return false; }
      UpdateDepositAndSnapshots(account, compounded);
      collateral := collateral - gain;
      return true;
    }

    method ComputeRewardsPerUnitStaked(coll: nat, debt: nat) returns (ok: bool, gainPerUnit: nat, lossPerUnit: nat)
      requires total > 0
      modifies this`lastCollateralErrorOffset, this`lastLossErrorOffset
      ensures
        var r := ComputeRewards(old(Model()), debt, coll);
        && ok == r.Some?
        && (ok ==> r.value == Rewards(gainPerUnit, lossPerUnit, lastCollateralErrorOffset, lastLossErrorOffset))
        && (!ok ==> Model() == old(Model()))
    {
      hide ComputeRewards;
      RewardsAre(Model(), debt, coll);
      gainPerUnit, lossPerUnit := 0, 0;
      var collateralNumerator := coll * PRECISION + lastCollateralErrorOffset;
      if debt > total { return false, 0, 0; }
      if debt == total {
        lossPerUnit := PRECISION;
        lastLossErrorOffset := 0;
      } else {
        if debt * PRECISION < lastLossErrorOffset { return false, 0, 0; }
        var lossNumerator := debt * PRECISION - lastLossErrorOffset;
        lossPerUnit := lossNumerator / total + 1;
        lastLossErrorOffset := lossPerUnit * total - lossNumerator;
      }
      gainPerUnit := collateralNumerator / total;
      lastCollateralErrorOffset := collateralNumerator - gainPerUnit * total;
      ok := true;
    }

    method UpdateRewardSumAndProduct(gainPerUnit: nat, lossPerUnit: nat) returns (ok: bool)
      modifies this`P, this`currentScale, this`currentEpoch, this`epochToScaleToSum
      ensures ok == UpdateSumAndProduct(old(Model()), gainPerUnit, lossPerUnit).Some?
      ensures ok ==> Model() == UpdateSumAndProduct(old(Model()), gainPerUnit, lossPerUnit).value
      ensures !ok ==> P == old(P)
    {
      if lossPerUnit > PRECISION { return false; }
      var currentP := P;
      var newP := 0;
      var newProductFactor := PRECISION - lossPerUnit;
      var newS := SumAt(epochToScaleToSum, currentEpoch, currentScale) + gainPerUnit * currentP;
      epochToScaleToSum := epochToScaleToSum[(currentEpoch, currentScale) := newS];
      if newProductFactor == 0 {
        currentEpoch := currentEpoch + 1;
        currentScale := 0;
        newP := PRECISION;
      } else if currentP * newProductFactor / PRECISION < SCALE_FACTOR {
        newP := currentP * newProductFactor * SCALE_FACTOR / PRECISION;
        currentScale := currentScale + 1;
      } else {
        newP := currentP * newProductFactor / PRECISION;
      }
      if newP == 0 { return false; }
      P := newP;
      return true;
    }

    // The saved values are the chain's rollback of a reverted transaction.
    method OffsetDebt(debt: nat, coll: nat) returns (ok: bool)
      requires Valid(Model())
      modifies this
      ensures ok == Offset(old(Model()), debt, coll).Some?
      ensures Model() == if ok then Offset(old(Model()), debt, coll).value else old(Model())
      ensures Valid(Model())
    {
      OffsetKeepsValid(Model(), debt, coll);
      if total == 0 || debt == 0 { return true; }
      var savedCollError, savedLossError, savedSums := lastCollateralErrorOffset, lastLossErrorOffset, epochToScaleToSum;
      var savedScale, savedEpoch := currentScale, currentEpoch;
      var gainPerUnit, lossPerUnit;
      ok, gainPerUnit, lossPerUnit := ComputeRewardsPerUnitStaked(coll, debt);
      if !ok { return; }
      ok := UpdateRewardSumAndProduct(gainPerUnit, lossPerUnit);
      if !ok {
        lastCollateralErrorOffset, lastLossErrorOffset, epochToScaleToSum := savedCollError, savedLossError, savedSums;
        currentScale, currentEpoch := savedScale, savedEpoch;
        return;
      }
      total := total - debt;
      collateral := collateral + coll;
    }
  }
}
