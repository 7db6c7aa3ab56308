/** What an operation leaves its account with, and the other side of the bounds on all runs: neither deposits nor gains are
    paid short of what truncation and written-off remainders account for. */
module StabilityPoolAccounts {
  import opened Common
  import opened StabilityPool
  import opened StabilityPoolSolvency
  import opened StabilityPoolPayout

  // ---- One account's operation ----

  // Account i has been paid its gain and holds `value` now; nobody else is touched.
  ghost predicate Settled(p: Pool, i: nat, value: nat, q: Pool)
    requires Valid(p) && i < |p.deposits|
  {
    && Valid(q) && |q.deposits| == |p.deposits|
    && Compounded(q, q.deposits[i]) == value && CollateralGain(q, q.deposits[i]) == 0
    && q.collateral == p.collateral - CollateralGain(p, p.deposits[i])
    && forall j | 0 <= j < |p.deposits| && j != i ::
         && q.deposits[j] == p.deposits[j]
         && Compounded(q, q.deposits[j]) == Compounded(p, p.deposits[j])
         && CollateralGain(q, q.deposits[j]) == CollateralGain(p, p.deposits[j])
  }

  // A fresh record claims what was put into it, and no gain yet.
  lemma FreshRecord(p: Pool, v: nat)
    requires 0 < p.P && FutureUntouched(p)
    ensures GoodDeposit(p, Record(p, v)) && Compounded(p, Record(p, v)) == v && CollateralGain(p, Record(p, v)) == 0
  {
    FullShare(v, p.P);
    assert SumAt(p.sums, p.epoch, p.scale + 1) == 0;
    assert v * 0 == 0;
  }

  lemma SettleEffect(p: Pool, i: nat, newValue: nat, newTotal: int)
    requires Valid(p) && FutureUntouched(p) && i < |p.deposits|
    ensures Settle(p, i, newValue, newTotal).Some? <==> newTotal >= 0 && CollateralGain(p, p.deposits[i]) <= p.collateral
    ensures Settle(p, i, newValue, newTotal).Some? ==>
      var q := Settle(p, i, newValue, newTotal).value;
      Settled(p, i, newValue, q) && q.total == newTotal && FutureUntouched(q)
  {
    hide Compounded, CollateralGain;
    SettleKeepsValid(p, i, newValue, newTotal);
    FreshRecord(p, newValue);
    if Settle(p, i, newValue, newTotal).Some? {
      var q := Settle(p, i, newValue, newTotal).value;
      SameReading(p, q, Record(p, newValue));
      forall j | 0 <= j < |p.deposits| && j != i
        ensures Compounded(q, q.deposits[j]) == Compounded(p, p.deposits[j])
        ensures CollateralGain(q, q.deposits[j]) == CollateralGain(p, p.deposits[j])
      {
        SameReading(p, q, p.deposits[j]);
      }
    }
  }

  // A provision adds the amount to what the deposit has come to.
  lemma ProvideExactly(p: Pool, i: nat, amount: nat)
    requires Valid(p) && FutureUntouched(p) && i < |p.deposits|
    ensures Provide(p, i, amount).Some? <==> amount > 0 && CollateralGain(p, p.deposits[i]) <= p.collateral
    ensures Provide(p, i, amount).Some? ==>
      var q := Provide(p, i, amount).value;
      && Settled(p, i, Compounded(p, p.deposits[i]) + amount, q)
      && q.total == p.total + amount && FutureUntouched(q)
  {
    hide Settle, Settled, CollateralGain, Compounded;
    SettleEffect(p, i, Compounded(p, p.deposits[i]) + amount, p.total + amount);
  }

  // A withdrawal takes the amount off it, or all there is.
  lemma WithdrawExactly(p: Pool, i: nat, amount: nat, allowed: bool)
    requires Valid(p) && FutureUntouched(p) && i < |p.deposits|
    ensures
      var paid := Min(amount, Compounded(p, p.deposits[i]));
      && (Withdraw(p, i, amount, allowed).Some? <==>
            && p.deposits[i].initialValue > 0 && (amount == 0 || allowed)
            && paid <= p.total && CollateralGain(p, p.deposits[i]) <= p.collateral)
      && (Withdraw(p, i, amount, allowed).Some? ==>
            var q := Withdraw(p, i, amount, allowed).value;
            && Settled(p, i, Compounded(p, p.deposits[i]) - paid, q)
            && q.total == p.total - paid && FutureUntouched(q))
  {
    hide Settle, Settled, CollateralGain, Compounded;
    var paid := Min(amount, Compounded(p, p.deposits[i]));
    SettleEffect(p, i, Compounded(p, p.deposits[i]) - paid, p.total - paid);
  }

  // Moving the gain to the trove leaves it.
  lemma GainToTroveExactly(p: Pool, i: nat, hasTrove: bool)
    requires Valid(p) && FutureUntouched(p) && i < |p.deposits|
    ensures GainToTrove(p, i, hasTrove).Some? <==> hasTrove && 0 < CollateralGain(p, p.deposits[i]) <= p.collateral
    ensures GainToTrove(p, i, hasTrove).Some? ==>
      var q := GainToTrove(p, i, hasTrove).value;
      Settled(p, i, Compounded(p, p.deposits[i]), q) && q.total == p.total && FutureUntouched(q)
  {
    NoDepositNoGain(p, p.deposits[i]);
    hide Settle, Settled, CollateralGain, Compounded;
    SettleEffect(p, i, Compounded(p, p.deposits[i]), p.total);
  }

  lemma NoDepositNoGain(p: Pool, d: Deposit)
    requires GoodDeposit(p, d)
    ensures d.initialValue == 0 ==> CollateralGain(p, d) == 0 == Compounded(p, d)
  {
  }

  // So it is in every state of every run.
  lemma {:induction false} RunUntouched(p: Pool, ops: seq<Op>)
    requires Valid(p) && FutureUntouched(p)
    ensures FutureUntouched(Run(p, ops))
    decreases |ops|
  {
    hide Step, FutureUntouched;
    if ops != [] {
      StepUntouched(p, ops[0]);
      RunUntouched(Step(p, ops[0]), ops[1..]);
    }
  }

  lemma StepUntouched(p: Pool, op: Op)
    requires Valid(p) && FutureUntouched(p)
    ensures FutureUntouched(Step(p, op))
  {
    hide ComputeRewards, UpdateSumAndProduct, Compounded, CollateralGain, Provide, Withdraw, GainToTrove, Offset, FutureUntouched;
    if TryStep(p, op).Some? {
      match op
      case ProvideToSP(i, amount) => ProvideExactly(p, i, amount);
      case WithdrawFromSP(i, amount, allowed) => WithdrawExactly(p, i, amount, allowed);
      case WithdrawGainToTrove(i, hasTrove) => GainToTroveExactly(p, i, hasTrove);
      case OffsetDebt(debt, coll) => OffsetUntouched(p, debt, coll);
    }
  }

  lemma OffsetUntouched(p: Pool, debt: nat, coll: nat)
    requires Valid(p) && FutureUntouched(p)
    ensures Offset(p, debt, coll).Some? ==> FutureUntouched(Offset(p, debt, coll).value)
  {
    hide ComputeRewards, UpdateSumAndProduct, FutureUntouched;
    if Offset(p, debt, coll).Some? && p.total > 0 && debt > 0 {
      OffsetFields(p, debt, coll, ComputeRewards(p, debt, coll).value, Offset(p, debt, coll).value);
    }
  }

  lemma EmptyUntouched(accounts: nat)
    ensures Valid(EmptyPool(accounts)) && FutureUntouched(EmptyPool(accounts))
  {
  }

  // ---- A gain is paid short by less than the truncations take ----

  // What the three truncations can take: less than one unit of S in the second portion and one in the division by P, in
  // parts of 1e18, and less than one unit of collateral.
  function GainTruncation(d: Deposit): real
    requires d.initialValue > 0 ==> d.P > 0
  {
    if d.initialValue == 0 then 0.0 else 1.0 + (1.0 + PerUnit(d)) / UNIT
  }

  // In every epoch, past ones included, and across a change of scale.
  lemma GainAboveEarned(p: Pool, d: Deposit)
    requires GoodDeposit(p, d)
    ensures Earned(p, d) <= CollateralGain(p, d) as real + GainTruncation(d)
  {
    hide EarnedFrom, GainFrom;
    if d.initialValue > 0 {
      var a, b := SumAt(p.sums, d.epoch, d.scale) - d.S, SumAt(p.sums, d.epoch, d.scale + 1);
      FloorBelowReal(b, SCALE_FACTOR);
      GainFromAbove(d.initialValue, a + b / SCALE_FACTOR, d.P, a as real, b as real / SCALE);
    }
  }

  lemma GainFromAbove(v: nat, x: nat, P: nat, first: real, second: real)
    requires P > 0 && first + second <= x as real + 1.0
    ensures EarnedFrom(v as real / P as real, first, second)
            <= GainFrom(v, x, P) as real + 1.0 + (1.0 + v as real / P as real) / UNIT
  {
    hide EarnedFrom;
    NonNegative(v, x);
    WorthBelowNext(v, x, P);
    FloorBelowReal(v * x / P, PRECISION);
    ShortAlgebra(v as real / P as real, x as real, first, second, (v * x / P) as real, GainFrom(v, x, P) as real);
  }

  lemma ShortAlgebra(c: real, x: real, first: real, second: real, z: real, gain: real)
    requires c >= 0.0 && first + second <= x + 1.0 && c * x <= z + 1.0 && z / UNIT <= gain + 1.0
    ensures EarnedFrom(c, first, second) <= gain + 1.0 + (1.0 + c) / UNIT
  {
    RealNonNegative(c, x + 1.0 - (first + second));
    assert c * (x + 1.0 - (first + second)) == c * x + c - c * (first + second);
    QuotientMonotone(c * (first + second), z + 1.0 + c, UNIT);
  }

  // ---- The pool does not run ahead of the deposits ----

  // What the pool holds beyond the worth of the deposits, and so for nobody.
  ghost function Residue(p: Pool): real
    requires Valid(p)
  {
    p.total as real - TotalWorth(p)
  }

  // What settling a deposit rounds off: less than one unit, or all that is left where that is below a 1e-9 part.
  function Rounding(p: Pool, d: Deposit): nat
    requires GoodDeposit(p, d)
  {
    if d.initialValue == 0 then 0 else 1 + if Compounded(p, d) == 0 then d.initialValue / 1_000_000_000 else 0
  }

  // What an offset can leave with nobody: the rounding of the loss, and unless it writes off all deposits the worth of the
  // records a change of scale writes off and one unit of P on the others.
  ghost function OffsetResidue(p: Pool, debt: nat): real
    requires Valid(p) && p.total > 0
  {
    p.total as real / UNIT
    + if LossPerUnit(p, debt) == PRECISION then 0.0
      else TotalWorth(p) - SurvivingWorth(p, NewScale(p, debt)) + UnitOfProduct(p, debt)
  }

  ghost function UnitOfProduct(p: Pool, debt: nat): real
    requires Valid(p) && p.total > 0
  {
    SurvivingWorth(p, NewScale(p, debt)) / p.P as real / (if NewScale(p, debt) then SCALE else 1.0)
  }

  ghost function StepResidue(p: Pool, op: Op): real
    requires Valid(p)
  {
    if TryStep(p, op).None? then 0.0
    else if op.OffsetDebt? then (if p.total == 0 || op.debt == 0 then 0.0 else OffsetResidue(p, op.debt))
    else Rounding(p, p.deposits[op.account]) as real
  }

  ghost function RunResidue(p: Pool, ops: seq<Op>): real
    requires Valid(p)
    decreases |ops|
  {
    if ops == [] then 0.0 else StepResidue(p, ops[0]) + RunResidue(Step(p, ops[0]), ops[1..])
  }

  lemma SettleResidue(p: Pool, i: nat, newValue: nat, newTotal: int, over: real)
    requires Valid(p) && i < |p.deposits| && Settle(p, i, newValue, newTotal).Some?
    requires newTotal - p.total == newValue - Compounded(p, p.deposits[i]) && Residue(p) <= over
    ensures Valid(Settle(p, i, newValue, newTotal).value)
    ensures Residue(Settle(p, i, newValue, newTotal).value) <= over + Rounding(p, p.deposits[i]) as real
  {
    hide RealSum, Compounded, Worth;
    SettleWorth(p, i, newValue, newTotal);
    assert GoodDeposit(p, p.deposits[i]);
    WorthRounded(p, p.deposits[i]);
    WorthBelowStake(p, p.deposits[i]);
    NoDepositNoGain(p, p.deposits[i]);
  }

  lemma OffsetLeaves(p: Pool, debt: nat, coll: nat, over: real)
    requires Valid(p) && p.total > 0 && debt > 0 && Residue(p) <= over && over >= 0.0
    ensures Offset(p, debt, coll).Some? ==>
              Valid(Offset(p, debt, coll).value) && Residue(Offset(p, debt, coll).value) <= over + OffsetResidue(p, debt)
  {
    hide UpdateSumAndProduct, ComputeRewards, TotalWorth, SurvivingWorth, LossPerUnit, NewProduct, Dropped, UnitOfProduct;
    if Offset(p, debt, coll).Some? {
      var r, q := ComputeRewards(p, debt, coll).value, Offset(p, debt, coll).value;
      OffsetEffect(p, debt, coll, r, q);
      OffsetWorth(p, q);
      LossForeseen(p, debt, coll, r);
      SurvivingAtMostTotal(p, q.scale != p.scale);
      SurvivingAtMostTotal(p, NewScale(p, debt));
      var b := BooksOf(p, debt, r, q);
      var v := SurvivingWorth(p, NewScale(p, debt));
      UnitNonNegative(p, debt);
      if q.epoch != p.epoch {
        WrittenOffResidue(b);
      } else {
        ProductForeseen(p, debt, coll, r, q);
        DroppedBelowUnit(p, debt);
        UnitOfProductIs(p, debt);
        ResidueAlgebra(b, v, TotalWorth(p), TotalWorth(q), over, if NewScale(p, debt) then SCALE else 1.0);
      }
    }
  }

  lemma UnitNonNegative(p: Pool, debt: nat)
    requires Valid(p) && p.total > 0
    ensures UnitOfProduct(p, debt) >= 0.0
  {
    hide SurvivingWorth;
    SurvivingAtMostTotal(p, NewScale(p, debt));
    RealQuotient(SurvivingWorth(p, NewScale(p, debt)), p.P as real, 0.0);
  }

  lemma UnitOfProductIs(p: Pool, debt: nat)
    requires Valid(p) && p.total > 0
    ensures UnitOfProduct(p, debt)
            == SurvivingWorth(p, NewScale(p, debt)) / p.P as real / (if NewScale(p, debt) then SCALE else 1.0)
  {
  }

  lemma DroppedBelowUnit(p: Pool, debt: nat)
    requires p.total > 0
    ensures Dropped(p, debt) <= UNIT / (if NewScale(p, debt) then SCALE else 1.0)
  {
    hide NewScale, ProductAfter;
  }

  lemma WrittenOffResidue(b: Books)
    requires Balanced(b) && b.loss == UNIT
    ensures b.total - b.debt <= b.total / UNIT
  {
    assert b.total / UNIT * UNIT == b.total;
  }

  // UNIT * residue after = (UNIT - loss) * (total - v) + v * dropped / P - error + new error
  lemma ResidueAlgebra(b: Books, v: real, worth: real, newWorth: real, over: real, scale: real)
    requires Balanced(b) && b.loss < UNIT && newWorth * b.P == b.newP * v && 0.0 <= v <= worth && scale >= 1.0
    requires b.total - worth <= over && over >= 0.0 && GivenAway(b.P, b.loss, b.newP) <= UNIT / scale
    ensures b.total - b.debt - newWorth <= over + (worth - v + v / b.P / scale + b.total / UNIT)
  {
    hide GivenAway;
    var dropped, f, share := GivenAway(b.P, b.loss, b.newP), UNIT - b.loss, v / b.P;
    RealQuotient(v, b.P, 0.0);
    WorthInShares(b, v, newWorth, share);
    DroppedShare(share, dropped, scale);
    Shrunk(b.loss, f, b.total - v, over + worth - v);
    LeftInUnits(b, f);
    assert b.total / UNIT * UNIT == b.total;
  }

  lemma WorthInShares(b: Books, v: real, newWorth: real, share: real)
    requires Balanced(b) && newWorth * b.P == b.newP * v && share == v / b.P
    ensures UNIT * newWorth == (UNIT - b.loss) * v - share * GivenAway(b.P, b.loss, b.newP)
  {
    assert share * b.P == v;
    SameFactor(newWorth, b.newP * share, b.P);
    assert share * (b.P * (UNIT - b.loss)) == (UNIT - b.loss) * v;
  }

  lemma DroppedShare(share: real, dropped: real, scale: real)
    requires share >= 0.0 && scale >= 1.0 && dropped <= UNIT / scale
    ensures share * dropped <= UNIT * (share / scale)
  {
    RealNonNegative(share, UNIT / scale - dropped);
    assert share * (UNIT / scale) == UNIT * (share / scale);
  }

  lemma Shrunk(loss: real, f: real, x: real, y: real)
    requires x <= y && 0.0 <= y && 0.0 <= loss && f == UNIT - loss && f >= 0.0
    ensures f * x <= UNIT * y
  {
    RealNonNegative(f, y - x);
    RealNonNegative(loss, y);
  }

  lemma LeftInUnits(b: Books, f: real)
    requires Balanced(b) && b.loss < UNIT && f == UNIT - b.loss
    ensures UNIT * (b.total - b.debt) <= f * b.total + b.total
  {
  }

  lemma SameFactor(a: real, b: real, k: real)
    requires k > 0.0 && a * k == b * k
    ensures a == b
  {
    RealSigns(a - b, k);
    assert (a - b) * k == a * k - b * k;
  }

  lemma StepLeaves(p: Pool, op: Op, over: real)
    requires Valid(p) && Residue(p) <= over && over >= 0.0
    ensures Residue(Step(p, op)) <= over + StepResidue(p, op) && StepResidue(p, op) >= 0.0
  {
    hide ComputeRewards, UpdateSumAndProduct, Compounded, CollateralGain, RealSum, Worth, Residue, Settle, Record, OffsetResidue;
    var r := TryStep(p, op);
    if r.Some? {
      match op
      case ProvideToSP(i, amount) =>
        SettleResidue(p, i, Compounded(p, p.deposits[i]) + amount, p.total + amount, over);
      case WithdrawFromSP(i, amount, _) =>
        var w := Min(amount, Compounded(p, p.deposits[i]));
        SettleResidue(p, i, Compounded(p, p.deposits[i]) - w, p.total - w, over);
      case WithdrawGainToTrove(i, _) =>
        SettleResidue(p, i, Compounded(p, p.deposits[i]), p.total, over);
      case OffsetDebt(debt, coll) =>
        if p.total != 0 && debt != 0 {
          OffsetLeaves(p, debt, coll, over);
          ResidueNonNegative(p, debt);
        }
    }
  }

  lemma ResidueNonNegative(p: Pool, debt: nat)
    requires Valid(p) && p.total > 0
    ensures OffsetResidue(p, debt) >= 0.0
  {
    hide UnitOfProduct, SurvivingWorth, TotalWorth;
    SurvivingAtMostTotal(p, NewScale(p, debt));
    UnitNonNegative(p, debt);
  }

  // Over every run the pool exceeds the worth of the deposits by no more than the run's truncations and written-off
  // remainders come to.
  lemma {:induction false} ResidueWithin(p: Pool, ops: seq<Op>, over: real)
    requires Valid(p) && Residue(p) <= over && over >= 0.0
    ensures Residue(Run(p, ops)) <= over + RunResidue(p, ops) && RunResidue(p, ops) >= 0.0
    decreases |ops|
  {
    hide Step, Residue, StepResidue;
    if ops != [] {
      StepLeaves(p, ops[0], over);
      ResidueWithin(Step(p, ops[0]), ops[1..], over + StepResidue(p, ops[0]));
    }
  }

  // From the empty pool, and for the whole numbers the depositors can claim: they are short of the pool by no more than
  // that and the last rounding.
  lemma ClaimsReachPool(accounts: nat, ops: seq<Op>)
    ensures Valid(EmptyPool(accounts))
    ensures
      var q := Run(EmptyPool(accounts), ops);
      q.total as real <= (Sum(Claims(q)) + Sum(RoundedOff(q))) as real + RunResidue(EmptyPool(accounts), ops)
  {
    hide TotalWorth, Run, RunResidue, Sum;
    EmptyPoolFacts(accounts);
    ResidueWithin(EmptyPool(accounts), ops, 0.0);
    WorthAboveClaims(Run(EmptyPool(accounts), ops));
  }

  // ---- Nor does the collateral run ahead of the gains ----

  // What the collateral exceeds all gains and the carried error by, in units of 1e-18.
  ghost function Spare(p: Pool): real
    requires Valid(p)
  {
    UNIT * (p.collateral as real - RealSum(AllEarned(p))) - p.collError as real
  }

  // What an operation can leave with nobody, where the pool exceeds the deposits by at most `over`: the truncations of the
  // gain it pays, or the gain per unit on that excess.
  ghost function StepSpare(p: Pool, op: Op, over: real): real
    requires Valid(p)
  {
    if TryStep(p, op).None? then 0.0
    else if op.OffsetDebt? then Over(StepGain(p, op), over)
    else UNIT * GainTruncation(GoodOne(p, op.account))
  }

  function GoodOne(p: Pool, i: nat): (d: Deposit)
    requires Valid(p) && i < |p.deposits|
    ensures d == p.deposits[i] && GoodDeposit(p, d)
  {
    p.deposits[i]
  }

  ghost function RunSpare(p: Pool, ops: seq<Op>, over: real): real
    requires Valid(p)
    decreases |ops|
  {
    if ops == [] then 0.0
    else StepSpare(p, ops[0], over) + RunSpare(Step(p, ops[0]), ops[1..], over + StepResidue(p, ops[0]))
  }

  lemma SettleSpares(p: Pool, i: nat, newValue: nat, newTotal: int)
    requires Valid(p) && FutureUntouched(p) && i < |p.deposits| && Settle(p, i, newValue, newTotal).Some?
    ensures Valid(Settle(p, i, newValue, newTotal).value)
    ensures Spare(Settle(p, i, newValue, newTotal).value) <= Spare(p) + UNIT * GainTruncation(p.deposits[i])
  {
    SettleKeepsValid(p, i, newValue, newTotal);
    var q := Settle(p, i, newValue, newTotal).value;
    assert GoodDeposit(p, p.deposits[i]);
    GainAboveEarned(p, p.deposits[i]);
    assert Earned(q, Record(p, newValue)) == 0.0;
    hide Earned, CollateralGain, RealSum, GainTruncation;
    forall j | 0 <= j < |p.deposits| && j != i ensures AllEarned(q)[j] == AllEarned(p)[j] {
      assert GoodDeposit(p, p.deposits[j]) && GoodDeposit(q, q.deposits[j]);
      OtherEarned(p, q, p.deposits[j]);
    }
    assert AllEarned(q) == AllEarned(p)[i := 0.0];
    RealSumUpdate(AllEarned(p), i, 0.0);
  }

  lemma OffsetSpares(p: Pool, debt: nat, coll: nat, r: Rewards, q: Pool, over: real)
    requires Valid(p) && FutureUntouched(p) && Offsets(p, debt, coll, r, q) && Residue(p) <= over
    ensures Valid(q) && Spare(q) <= Spare(p) + Over(r.gainPerUnit, over)
  {
    hide Earned, Offset, ComputeRewards, UpdateSumAndProduct, RealSum, Worth, Valid;
    OffsetKeepsValid(p, debt, coll);
    GainAccounting(p, debt, coll, r);
    OffsetFields(p, debt, coll, r, q);
    EachEarns(p, debt, coll, r, q);
    RealSumShift(AllEarned(p), AllEarned(q), Worths(p), r.gainPerUnit as real / UNIT);
    SpareAlgebra(RealSum(AllEarned(p)), TotalWorth(p), p.total as real, r.gainPerUnit as real, coll as real,
                 p.collError as real, r.collError as real, p.collateral as real, over);
  }

  lemma SpareAlgebra(earned: real, worth: real, total: real, gain: real, coll: real, error: real, newError: real, held: real,
                     over: real)
    requires total - worth <= over && gain >= 0.0 && gain * total + newError == coll * UNIT + error
    ensures UNIT * (held + coll - (earned + gain / UNIT * worth)) - newError <= UNIT * (held - earned) - error + gain * over
  {
    assert gain * (total - worth) <= gain * over;
    assert UNIT * (gain / UNIT * worth) == gain * worth;
  }

  lemma StepSpares(p: Pool, op: Op, over: real)
    requires Valid(p) && FutureUntouched(p) && Residue(p) <= over
    ensures Spare(Step(p, op)) <= Spare(p) + StepSpare(p, op, over)
  {
    hide ComputeRewards, UpdateSumAndProduct, Compounded, CollateralGain, RealSum, Earned, Worth, Residue, Spare, Settle, Record;
    hide FutureUntouched, GainTruncation, Over;
    NoGain(over);
    var r := TryStep(p, op);
    if r.Some? {
      match op
      case ProvideToSP(i, amount) => SettleSpares(p, i, Compounded(p, p.deposits[i]) + amount, p.total + amount);
      case WithdrawFromSP(i, amount, _) =>
        var w := Min(amount, Compounded(p, p.deposits[i]));
        SettleSpares(p, i, Compounded(p, p.deposits[i]) - w, p.total - w);
      case WithdrawGainToTrove(i, _) => SettleSpares(p, i, Compounded(p, p.deposits[i]), p.total);
      case OffsetDebt(debt, coll) =>
        if p.total != 0 && debt != 0 {
          OffsetSpares(p, debt, coll, ComputeRewards(p, debt, coll).value, r.value, over);
        }
    }
  }

  // Over every run the collateral held exceeds what the deposits have earned by no more than the truncations of the gains paid
  // and the gains on the pool's excess come to.
  lemma {:induction false} SpareWithin(p: Pool, ops: seq<Op>, over: real)
    requires Valid(p) && FutureUntouched(p) && Residue(p) <= over && over >= 0.0
    ensures Spare(Run(p, ops)) <= Spare(p) + RunSpare(p, ops, over)
    decreases |ops|
  {
    hide Step, Residue, StepResidue, Spare, StepSpare, FutureUntouched;
    if ops != [] {
      StepLeaves(p, ops[0], over);
      StepSpares(p, ops[0], over);
      StepUntouched(p, ops[0]);
      SpareWithin(Step(p, ops[0]), ops[1..], over + StepResidue(p, ops[0]));
    }
  }

  lemma GainsReachCollateral(accounts: nat, ops: seq<Op>)
    ensures Valid(EmptyPool(accounts))
    ensures
      var q := Run(EmptyPool(accounts), ops);
      UNIT * q.collateral as real
      <= UNIT * (Sum(AllGains(q)) as real + RealSum(Truncations(q))) + q.collError as real
         + RunSpare(EmptyPool(accounts), ops, 0.0)
  {
    hide RealSum, Run, RunSpare, Sum, Earned, CollateralGain, GainTruncation, FutureUntouched, Residue, TotalWorth;
    EmptyPoolFacts(accounts);
    EmptyUntouched(accounts);
    EmptySpare(accounts);
    NoResidue(accounts);
    SpareWithin(EmptyPool(accounts), ops, 0.0);
    EarnedBelowGains(Run(EmptyPool(accounts), ops));
  }

  lemma NoResidue(accounts: nat)
    ensures Valid(EmptyPool(accounts)) && Residue(EmptyPool(accounts)) == 0.0
  {
    hide TotalWorth;
    EmptyPoolFacts(accounts);
  }

  lemma EmptySpare(accounts: nat)
    ensures Valid(EmptyPool(accounts)) && Spare(EmptyPool(accounts)) == 0.0
  {
    RealSumZero(AllEarned(EmptyPool(accounts)));
  }

  function Truncations(p: Pool): (ts: seq<real>)
    requires Valid(p)
    ensures |ts| == |p.deposits| && forall i | 0 <= i < |ts| :: ts[i] == GainTruncation(GoodOne(p, i))
  {
    seq(|p.deposits|, i requires 0 <= i < |p.deposits| => GainTruncation(GoodOne(p, i)))
  }

  lemma EarnedBelowGains(p: Pool)
    requires Valid(p)
    ensures RealSum(AllEarned(p)) <= Sum(AllGains(p)) as real + RealSum(Truncations(p))
  {
    hide CollateralGain, Earned, GainTruncation;
    forall i | 0 <= i < |p.deposits| ensures AllEarned(p)[i] <= AllGains(p)[i] as real + Truncations(p)[i] {
      GainAboveEarned(p, GoodOne(p, i));
    }
    MixedSum(AllEarned(p), AllGains(p), Truncations(p));
  }

  lemma {:induction false} MixedSum(xs: seq<real>, ys: seq<int>, zs: seq<real>)
    requires |xs| == |ys| == |zs| && forall i | 0 <= i < |xs| :: xs[i] <= ys[i] as real + zs[i]
    ensures RealSum(xs) <= Sum(ys) as real + RealSum(zs)
  {
    if xs != [] {
      MixedSum(xs[..|xs| - 1], ys[..|ys| - 1], zs[..|zs| - 1]);
    }
  }
}
