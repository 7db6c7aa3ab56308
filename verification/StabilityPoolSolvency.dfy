/** Whether every depositor of the integer Stability Pool can be paid: the exact step at which the
    deposits may outgrow the pool, a bound on the gap over all runs, and a run that opens one. */
module StabilityPoolSolvency {
  import opened Common
  import opened StabilityPool

  const UNIT: real := 1_000_000_000_000_000_000.0
  const SCALE: real := 1_000_000_000.0

  // ---- What a deposit is worth before the final truncation ----

  function ProductSince(p: Pool, d: Deposit): real
    requires GoodDeposit(p, d) && d.initialValue > 0
  {
    if d.epoch < p.epoch then 0.0
    else if d.scale == p.scale then p.P as real
    else if d.scale + 1 == p.scale then p.P as real / SCALE
    else 0.0
  }

  function PerUnit(d: Deposit): real
    requires d.P > 0
  {
    d.initialValue as real / d.P as real
  }

  function Worth(p: Pool, d: Deposit): (w: real)
    requires GoodDeposit(p, d)
    ensures w >= 0.0
  {
    if d.initialValue == 0 then 0.0 else PerUnit(d) * ProductSince(p, d)
  }

  function Worths(p: Pool): (ws: seq<real>)
    requires Valid(p)
    ensures |ws| == |p.deposits| && forall i | 0 <= i < |ws| :: ws[i] == Worth(p, p.deposits[i])
  {
    seq(|p.deposits|, i requires 0 <= i < |p.deposits| => Worth(p, p.deposits[i]))
  }

  function TotalWorth(p: Pool): real
    requires Valid(p)
  {
    RealSum(Worths(p))
  }

  ghost predicate Covered(p: Pool)
    requires Valid(p)
  {
    TotalWorth(p) <= p.total as real
  }

  lemma WorthBounds(p: Pool, d: Deposit)
    requires GoodDeposit(p, d)
    ensures Compounded(p, d) as real <= Worth(p, d)
  {
    if d.initialValue > 0 && d.epoch == p.epoch {
      if d.scale == p.scale {
        FloorOfShare(d.initialValue, p.P, d.P);
      } else if d.scale + 1 == p.scale {
        FloorOfScaledShare(d.initialValue, p.P, d.P);
      }
    }
  }

  lemma FloorOfShare(v: nat, P: nat, P0: nat)
    requires P0 > 0
    ensures (v * P / P0) as real <= v as real / P0 as real * P as real
  {
    ProductAsReal(v, P);
    QuotientOfProduct(v as real, P as real, P0 as real);
    FloorBelowReal(v * P, P0);
  }

  lemma FloorOfScaledShare(v: nat, P: nat, P0: nat)
    requires P0 > 0
    ensures (v * P / P0 / SCALE_FACTOR) as real <= v as real / P0 as real * (P as real / SCALE)
  {
    var x, c, y := v * P / P0, v as real / P0 as real, P as real;
    FloorOfShare(v, P, P0);
    FloorBelowReal(x, SCALE_FACTOR);
    QuotientMonotone(x as real, c * y, SCALE);
    QuotientOfProduct(c, y, SCALE);
  }

  lemma QuotientOfProduct(a: real, b: real, c: real)
    requires c > 0.0
    ensures a * b / c == a / c * b == a * (b / c)
  {
  }

  lemma QuotientMonotone(a: real, b: real, c: real)
    requires c > 0.0 && a <= b
    ensures a / c <= b / c
  {
  }

  lemma FreshWorth(p: Pool, v: nat)
    requires 0 < p.P
    ensures GoodDeposit(p, Record(p, v)) && Worth(p, Record(p, v)) == v as real
  {
    if v > 0 {
      QuotientOfProduct(v as real, p.P as real, p.P as real);
    }
  }

  lemma WorthSameProduct(p: Pool, q: Pool, d: Deposit)
    requires GoodDeposit(p, d) && GoodDeposit(q, d)
    requires q.P == p.P && q.scale == p.scale && q.epoch == p.epoch
    ensures Worth(q, d) == Worth(p, d)
  {
  }

  // A depositor's own operation replaces its worth by the new deposit and touches nobody else's.
  lemma SettleWorth(p: Pool, i: nat, newValue: nat, newTotal: int)
    requires Valid(p) && i < |p.deposits| && Settle(p, i, newValue, newTotal).Some?
    ensures
      var q := Settle(p, i, newValue, newTotal).value;
      Valid(q) && TotalWorth(q) == TotalWorth(p) - Worth(p, p.deposits[i]) + newValue as real
  {
    SettleKeepsValid(p, i, newValue, newTotal);
    var q := Settle(p, i, newValue, newTotal).value;
    FreshWorth(p, newValue);
    WorthSameProduct(p, q, Record(p, newValue));
    forall j | 0 <= j < |p.deposits| && j != i ensures Worths(q)[j] == Worths(p)[j] {
      WorthSameProduct(p, q, p.deposits[j]);
    }
    assert Worths(q) == Worths(p)[i := newValue as real];
    RealSumUpdate(Worths(p), i, newValue as real);
  }

  // ---- The effect of an offset ----

  // The records that keep a worth: a new scale writes off those of the scale before.
  function Survives(p: Pool, newScale: bool, d: Deposit): bool { newScale ==> d.scale == p.scale }

  function SurvivingWorths(p: Pool, newScale: bool): (ws: seq<real>)
    requires Valid(p)
    ensures |ws| == |p.deposits|
    ensures forall i | 0 <= i < |ws| ::
              ws[i] == if Survives(p, newScale, p.deposits[i]) then Worth(p, p.deposits[i]) else 0.0
  {
    seq(|p.deposits|, i requires 0 <= i < |p.deposits| =>
      if Survives(p, newScale, p.deposits[i]) then Worth(p, p.deposits[i]) else 0.0)
  }

  function SurvivingWorth(p: Pool, newScale: bool): real
    requires Valid(p)
  {
    RealSum(SurvivingWorths(p, newScale))
  }

  // The new product in the units of the old one.
  function NewProduct(p: Pool, q: Pool): real {
    if q.scale == p.scale then q.P as real else q.P as real / SCALE
  }

  ghost predicate Offsets(p: Pool, debt: nat, coll: nat, r: Rewards, q: Pool) {
    && p.total > 0 && debt > 0
    && ComputeRewards(p, debt, coll) == Some(r)
    && Offset(p, debt, coll) == Some(q)
  }

  // How an offset moves the records' reference points.
  ghost predicate Moves(p: Pool, q: Pool) {
    && q.deposits == p.deposits && 0 < p.P && 0 < q.P
    && (q.epoch != p.epoch ==> q.epoch == p.epoch + 1 && q.scale == 0)
    && (q.epoch == p.epoch ==> q.scale == p.scale || q.scale == p.scale + 1)
  }

  // The books of one offset as equations between reals: error fed back, loss charged, error left over.
  datatype Books = Books(total: real, debt: real, loss: real, error: real, newError: real, P: real, newP: real)

  ghost function BooksOf(p: Pool, debt: nat, r: Rewards, q: Pool): Books {
    Books(p.total as real, debt as real, r.lossPerUnit as real, p.lossError as real, r.lossError as real,
          p.P as real, NewProduct(p, q))
  }

  ghost predicate Balanced(b: Books) {
    && b.P > 0.0 && 0.0 < b.loss <= UNIT && 0.0 <= b.error && 0.0 <= b.newError <= b.total
    && b.debt <= b.total
    && (b.debt == b.total ==> b.newError == 0.0 && b.loss == UNIT)
    && (b.debt < b.total ==> b.loss * b.total == b.debt * UNIT - b.error + b.newError)
    && (b.loss < UNIT ==> b.newP * UNIT <= b.P * (UNIT - b.loss))
  }

  lemma LossInUnits(n: nat, total: nat, debt: nat, error: nat)
    requires total > 0 && debt < total && n == debt * PRECISION - error
    ensures
      var loss := n / total + 1;
      && 0 < loss <= PRECISION && 0 < loss * total - n <= total
      && loss as real * total as real == debt as real * UNIT - error as real + (loss * total - n) as real
  {
    FloorDivision(n, total);
    QuotientAtLeast(n, total, PRECISION);
    ProductAsReal(n / total + 1, total);
  }

  lemma LossAccounting(p: Pool, debt: nat, coll: nat, r: Rewards)
    requires p.total > 0 && ComputeRewards(p, debt, coll) == Some(r)
    ensures debt <= p.total && 0 < r.lossPerUnit <= PRECISION && r.lossError <= p.total
    ensures debt == p.total ==> r.lossError == 0 && r.lossPerUnit == PRECISION
    ensures debt < p.total ==>
              r.lossPerUnit as real * p.total as real
              == debt as real * UNIT - p.lossError as real + r.lossError as real
  {
    if debt < p.total {
      LossInUnits(debt * PRECISION - p.lossError, p.total, debt, p.lossError);
    }
  }

  lemma TruncationNonNegative(P: nat, newP: nat, loss: nat)
    requires loss <= PRECISION
    ensures newP * PRECISION <= P * (PRECISION - loss) ==> newP as real * UNIT <= P as real * (UNIT - loss as real)
    ensures newP * PRECISION <= P * (PRECISION - loss) * SCALE_FACTOR ==>
              newP as real / SCALE * UNIT <= P as real * (UNIT - loss as real)
  {
    ProductAsReal(P, PRECISION - loss);
    var x := P * (PRECISION - loss);
    assert x as real == P as real * (UNIT - loss as real);
  }

  lemma OffsetEffect(p: Pool, debt: nat, coll: nat, r: Rewards, q: Pool)
    requires Valid(p) && Offsets(p, debt, coll, r, q)
    ensures Valid(q) && Kept(p, q, BooksOf(p, debt, r, q))
  {
    hide Offset, ComputeRewards, UpdateSumAndProduct, Valid;
    OffsetKeepsValid(p, debt, coll);
    ValidProduct(p);
    LossAccounting(p, debt, coll, r);
    OffsetMoves(p, debt, coll, r, q);
    TruncationNonNegative(p.P, q.P, r.lossPerUnit);
  }

  lemma ValidProduct(p: Pool)
    requires Valid(p)
    ensures 0 < p.P <= PRECISION
  {
  }

  lemma OffsetMoves(p: Pool, debt: nat, coll: nat, r: Rewards, q: Pool)
    requires 0 < p.P <= PRECISION && Offsets(p, debt, coll, r, q) && 0 < r.lossPerUnit
    ensures Moves(p, q) && q.total == p.total - debt && q.lossError == r.lossError
    ensures q.epoch != p.epoch <==> r.lossPerUnit == PRECISION
    ensures q.epoch == p.epoch ==>
              && r.lossPerUnit < PRECISION
              && (q.scale == p.scale ==> q.P * PRECISION <= p.P * (PRECISION - r.lossPerUnit))
              && (q.scale != p.scale ==> q.P * PRECISION <= p.P * (PRECISION - r.lossPerUnit) * SCALE_FACTOR)
  {
    hide ComputeRewards;
    ProductShrinks(p.(collError := r.collError, lossError := r.lossError), r.gainPerUnit, r.lossPerUnit);
  }

  lemma OffsetWorth(p: Pool, q: Pool)
    requires Valid(p) && Valid(q) && Moves(p, q)
    ensures q.epoch != p.epoch ==> TotalWorth(q) == 0.0
    ensures q.epoch == p.epoch ==> TotalWorth(q) * p.P as real == NewProduct(p, q) * SurvivingWorth(p, q.scale != p.scale)
  {
    hide RealSum, Worth, NewProduct;
    if q.epoch != p.epoch {
      NothingSurvives(p, q);
      RealSumZero(Worths(q));
    } else {
      EachWorth(p, q);
      RealSumProportion(SurvivingWorths(p, q.scale != p.scale), Worths(q), NewProduct(p, q), p.P as real);
    }
  }

  lemma NothingSurvives(p: Pool, q: Pool)
    requires Valid(p) && Valid(q) && Moves(p, q) && q.epoch != p.epoch
    ensures forall i | 0 <= i < |p.deposits| :: Worths(q)[i] == 0.0
  {
    forall i | 0 <= i < |p.deposits| ensures Worths(q)[i] == 0.0 {
      assert GoodDeposit(p, p.deposits[i]);
    }
  }

  lemma EachWorth(p: Pool, q: Pool)
    requires Valid(p) && Valid(q) && Moves(p, q) && q.epoch == p.epoch
    ensures forall i | 0 <= i < |p.deposits| ::
              Worths(q)[i] * p.P as real == NewProduct(p, q) * SurvivingWorths(p, q.scale != p.scale)[i]
  {
    hide Worth, NewProduct;
    forall i | 0 <= i < |p.deposits|
      ensures Worths(q)[i] * p.P as real == NewProduct(p, q) * SurvivingWorths(p, q.scale != p.scale)[i]
    {
      assert GoodDeposit(p, p.deposits[i]) && GoodDeposit(q, q.deposits[i]);
      OneWorth(p, q, p.deposits[i]);
    }
  }

  lemma OneWorth(p: Pool, q: Pool, d: Deposit)
    requires GoodDeposit(p, d) && GoodDeposit(q, d) && Moves(p, q) && q.epoch == p.epoch
    ensures Worth(q, d) * p.P as real == NewProduct(p, q) * (if Survives(p, q.scale != p.scale, d) then Worth(p, d) else 0.0)
  {
    if d.initialValue > 0 && d.epoch == p.epoch {
      if d.scale == p.scale {
        Rescale(PerUnit(d), NewProduct(p, q), p.P as real, 1.0);
      } else if d.scale + 1 == p.scale && q.scale == p.scale {
        Rescale(PerUnit(d), q.P as real, p.P as real, SCALE);
      }
    }
  }

  lemma Rescale(c: real, newP: real, P: real, unit: real)
    requires unit > 0.0
    ensures c * (newP / unit) * P == newP * (c * (P / unit))
  {
  }

  lemma SurvivingAtMostTotal(p: Pool, newScale: bool)
    requires Valid(p)
    ensures 0.0 <= SurvivingWorth(p, newScale) <= TotalWorth(p)
    ensures !newScale ==> SurvivingWorth(p, newScale) == TotalWorth(p)
  {
    RealSumAtMost(SurvivingWorths(p, newScale), Worths(p));
    var zeros := seq(|p.deposits|, _ => 0.0);
    RealSumZero(zeros);
    RealSumAtMost(zeros, SurvivingWorths(p, newScale));
    if !newScale {
      assert SurvivingWorths(p, newScale) == Worths(p);
    }
  }

  // ---- What an offset will do, from the state before it ----

  function LossNumerator(p: Pool, debt: nat): int { debt * PRECISION - p.lossError }

  function LossPerUnit(p: Pool, debt: nat): int
    requires p.total > 0
  {
    if debt == p.total then PRECISION else LossNumerator(p, debt) / p.total + 1
  }

  function ErrorAfter(p: Pool, debt: nat): int
    requires p.total > 0
  {
    if debt == p.total then 0 else p.total - LossNumerator(p, debt) % p.total
  }

  // The product after the loss, times 1e18.
  function ProductAfter(p: Pool, debt: nat): int
    requires p.total > 0
  {
    p.P * (PRECISION - LossPerUnit(p, debt))
  }

  predicate NewScale(p: Pool, debt: nat)
    requires p.total > 0
  {
    ProductAfter(p, debt) / PRECISION < SCALE_FACTOR
  }

  // The part of that which the division by 1e18 drops.
  function Dropped(p: Pool, debt: nat): real
    requires p.total > 0
  {
    if NewScale(p, debt) then (ProductAfter(p, debt) * SCALE_FACTOR % PRECISION) as real / SCALE
    else (ProductAfter(p, debt) % PRECISION) as real
  }

  // The error fed back from the offset before is no larger than the new error, the cover already there for the
  // deposits that keep a worth, and what truncating the product gives away, put together.
  ghost predicate FeedbackAbsorbed(p: Pool, debt: nat)
    requires Valid(p) && p.total > 0
  {
    var v := SurvivingWorth(p, NewScale(p, debt));
    p.lossError as real
    <= Room(ErrorAfter(p, debt) as real, LossPerUnit(p, debt) as real, p.total as real, v, Dropped(p, debt), p.P as real)
  }

  ghost function Room(newError: real, loss: real, total: real, v: real, dropped: real, P: real): real
    requires P > 0.0
  {
    newError + (UNIT - loss) * (total - v) + v * dropped / P
  }

  // The same on the books of the offset.
  ghost predicate ErrorBorne(b: Books, v: real)
    requires b.P > 0.0
  {
    b.error <= Room(b.newError, b.loss, b.total, v, GivenAway(b.P, b.loss, b.newP), b.P)
  }

  ghost function GivenAway(P: real, loss: real, newP: real): real { P * (UNIT - loss) - newP * UNIT }

  // One offset leaves the worths covered exactly when the fed-back error is absorbed.
  lemma OffsetCoveredExactly(p: Pool, debt: nat, coll: nat)
    requires Valid(p) && p.total > 0 && debt > 0
    ensures
      Offset(p, debt, coll).Some? ==>
        var q := Offset(p, debt, coll).value;
        Valid(q) && (Covered(q) <==> LossPerUnit(p, debt) == PRECISION || FeedbackAbsorbed(p, debt))
  {
    hide UpdateSumAndProduct, ComputeRewards, Covered, FeedbackAbsorbed, ErrorBorne, SurvivingWorth, LossPerUnit;
    if Offset(p, debt, coll).Some? {
      var r, q := ComputeRewards(p, debt, coll).value, Offset(p, debt, coll).value;
      OffsetEffect(p, debt, coll, r, q);
      CoveredByBooks(p, q, BooksOf(p, debt, r, q));
      LossForeseen(p, debt, coll, r);
      if r.lossPerUnit < PRECISION {
        AbsorbedOnBooks(p, debt, coll, r, q);
      }
    }
  }

  lemma LossForeseen(p: Pool, debt: nat, coll: nat, r: Rewards)
    requires p.total > 0 && ComputeRewards(p, debt, coll) == Some(r)
    ensures r.lossPerUnit == LossPerUnit(p, debt) && r.lossError == ErrorAfter(p, debt)
  {
    if debt < p.total {
      Remainder(LossNumerator(p, debt), p.total);
    }
  }

  lemma Remainder(a: nat, b: nat)
    requires b > 0
    ensures (a / b + 1) * b - a == b - a % b
  {
  }

  lemma AbsorbedOnBooks(p: Pool, debt: nat, coll: nat, r: Rewards, q: Pool)
    requires Valid(p) && Offsets(p, debt, coll, r, q) && r.lossPerUnit < PRECISION
    ensures ErrorBorne(BooksOf(p, debt, r, q), SurvivingWorth(p, q.scale != p.scale)) <==> FeedbackAbsorbed(p, debt)
  {
    hide ComputeRewards, Offset, SurvivingWorth, Dropped, ErrorAfter, LossPerUnit, NewProduct, NewScale, Room, GivenAway;
    LossForeseen(p, debt, coll, r);
    ProductForeseen(p, debt, coll, r, q);
  }

  lemma ProductForeseen(p: Pool, debt: nat, coll: nat, r: Rewards, q: Pool)
    requires 0 < p.P && Offsets(p, debt, coll, r, q) && r.lossPerUnit < PRECISION && r.lossPerUnit == LossPerUnit(p, debt)
    ensures (q.scale != p.scale) == NewScale(p, debt)
    ensures GivenAway(p.P as real, r.lossPerUnit as real, NewProduct(p, q)) == Dropped(p, debt)
  {
    hide ComputeRewards, LossPerUnit;
    var x: nat := p.P * (PRECISION - r.lossPerUnit);
    ProductAsReal(p.P, PRECISION - r.lossPerUnit);
    assert x as real == p.P as real * (UNIT - r.lossPerUnit as real);
    DroppedAsReal(x, PRECISION);
    DroppedAsReal(x * SCALE_FACTOR, PRECISION);
    assert q.P == if NewScale(p, debt) then x * SCALE_FACTOR / PRECISION else x / PRECISION;
  }

  lemma DroppedAsReal(x: nat, unit: nat)
    requires unit > 0
    ensures (x % unit) as real == x as real - (x / unit) as real * unit as real
  {
    ProductAsReal(x / unit, unit);
    assert x % unit == x - x / unit * unit;
  }

  // An offset writes all deposits off not only where it takes the whole pool: rounding the loss up reaches 1e18 per
  // unit as soon as what is left is within the rounding, and what is left then belongs to nobody.
  lemma AllWrittenOffExactly(p: Pool, debt: nat, coll: nat)
    requires Valid(p) && p.total > 0 && debt > 0
    ensures
      Offset(p, debt, coll).Some? ==>
        var q := Offset(p, debt, coll).value;
        && Valid(q) && q.total == p.total - debt
        && (q.epoch != p.epoch <==> debt == p.total || (p.total - debt) * PRECISION + p.lossError <= p.total)
        && (q.epoch != p.epoch ==> TotalWorth(q) == 0.0 && Sum(Claims(q)) == 0)
  {
    hide UpdateSumAndProduct, ComputeRewards, TotalWorth, LossPerUnit;
    if Offset(p, debt, coll).Some? {
      var r, q := ComputeRewards(p, debt, coll).value, Offset(p, debt, coll).value;
      OffsetEffect(p, debt, coll, r, q);
      OffsetWorth(p, q);
      LossForeseen(p, debt, coll, r);
      WholeLoss(p, debt, coll, r);
      ClaimsBelowWorth(q);
      SumNonNegative(Claims(q));
    }
  }

  lemma WholeLoss(p: Pool, debt: nat, coll: nat, r: Rewards)
    requires p.total > 0 && ComputeRewards(p, debt, coll) == Some(r)
    ensures r.lossPerUnit <= PRECISION
    ensures r.lossPerUnit == PRECISION <==> debt == p.total || (p.total - debt) * PRECISION + p.lossError <= p.total
  {
    if debt < p.total {
      QuotientAtLeast(LossNumerator(p, debt), p.total, PRECISION - 1);
      QuotientAtLeast(LossNumerator(p, debt), p.total, PRECISION);
    }
  }

  // For the whole numbers the depositors can claim the condition is enough, one way: rounding the claims down may
  // still bring them within a pool that does not cover their worth, which then falls short by no more than that
  // rounding. The exact condition on a given state is that of WithdrawAllExactly.
  lemma ClaimsAfterOffset(p: Pool, debt: nat, coll: nat)
    requires Valid(p) && p.total > 0 && debt > 0
    ensures
      Offset(p, debt, coll).Some? ==>
        var q := Offset(p, debt, coll).value;
        && Valid(q)
        && (LossPerUnit(p, debt) == PRECISION || FeedbackAbsorbed(p, debt) ==> Sum(Claims(q)) <= q.total)
        && (Sum(Claims(q)) <= q.total ==> TotalWorth(q) <= (q.total + Sum(RoundedOff(q))) as real)
  {
    hide UpdateSumAndProduct, ComputeRewards, FeedbackAbsorbed, LossPerUnit, TotalWorth;
    OffsetCoveredExactly(p, debt, coll);
    if Offset(p, debt, coll).Some? {
      ClaimsBelowWorth(Offset(p, debt, coll).value);
      WorthAboveClaims(Offset(p, debt, coll).value);
    }
  }

  ghost predicate Kept(p: Pool, q: Pool, b: Books) {
    && Moves(p, q) && Balanced(b)
    && b.total == p.total as real && b.total - b.debt == q.total as real
    && b.error == p.lossError as real && b.newError == q.lossError as real
    && b.P == p.P as real && b.newP == NewProduct(p, q)
    && (q.epoch != p.epoch <==> b.loss == UNIT)
  }

  lemma CoveredByBooks(p: Pool, q: Pool, b: Books)
    requires Valid(p) && Valid(q) && Kept(p, q, b)
    ensures Covered(q) <==> b.loss == UNIT || ErrorBorne(b, SurvivingWorth(p, q.scale != p.scale))
  {
    hide RealSum;
    OffsetWorth(p, q);
    if q.epoch == p.epoch {
      CoverAlgebra(b, SurvivingWorth(p, q.scale != p.scale), TotalWorth(q));
    }
  }

  lemma CoverAlgebra(b: Books, v: real, newWorth: real)
    requires Balanced(b) && b.loss < UNIT && newWorth * b.P == b.newP * v
    ensures newWorth <= b.total - b.debt <==> ErrorBorne(b, v)
  {
    var t := v * (b.P * (UNIT - b.loss) - b.newP * UNIT) / b.P;
    assert t == v * (UNIT - b.loss) - newWorth * UNIT by {
      assert v * (b.P * (UNIT - b.loss) - b.newP * UNIT) == (v * (UNIT - b.loss) - newWorth * UNIT) * b.P;
    }
    assert b.newError + (UNIT - b.loss) * (b.total - v) + t - b.error
        == UNIT * b.total - b.loss * b.total + b.newError - b.error - newWorth * UNIT;
  }

  // Cover is only ever lost at an offset that feeds a non-zero error back.
  lemma CoverKeptWithoutFeedback(p: Pool, debt: nat, coll: nat)
    requires Valid(p) && p.total > 0 && debt > 0 && Covered(p) && p.lossError == 0
    ensures Offset(p, debt, coll).Some? ==> Valid(Offset(p, debt, coll).value) && Covered(Offset(p, debt, coll).value)
  {
    hide UpdateSumAndProduct, ComputeRewards, ErrorBorne;
    if Offset(p, debt, coll).Some? {
      var r, q := ComputeRewards(p, debt, coll).value, Offset(p, debt, coll).value;
      OffsetEffect(p, debt, coll, r, q);
      CoveredByBooks(p, q, BooksOf(p, debt, r, q));
      SurvivingAtMostTotal(p, q.scale != p.scale);
      if r.lossPerUnit < PRECISION {
        NoFeedbackAbsorbed(BooksOf(p, debt, r, q), SurvivingWorth(p, q.scale != p.scale));
      }
    }
  }

  lemma NoFeedbackAbsorbed(b: Books, v: real)
    requires Balanced(b) && b.loss < UNIT && b.error == 0.0 && 0.0 <= v <= b.total
    ensures ErrorBorne(b, v)
  {
    NonNegativeProduct(UNIT - b.loss, b.total - v, 1.0);
    NonNegativeProduct(v, b.P * (UNIT - b.loss) - b.newP * UNIT, b.P);
  }

  lemma NonNegativeProduct(a: real, b: real, c: real)
    requires a >= 0.0 && b >= 0.0 && c > 0.0
    ensures a * b >= 0.0 && a * b / c >= 0.0
  {
  }

  // ---- Why the loss is rounded up ----

  // A pool with one deposit, and an offset of debt at some loss per unit, with no collateral.
  function OneDeposit(total: nat): Pool {
    EmptyPool(1).(deposits := [Deposit(total, 0, PRECISION, 0, 0)], total := total)
  }

  function WithLoss(p: Pool, debt: nat, loss: nat): Option<Pool>
    requires debt <= p.total
  {
    match UpdateSumAndProduct(p, 0, loss)
    case None => None
    case Some(q) => Some(q.(total := p.total - debt))
  }

  // Rounded down, the very first offset leaves the deposit uncovered unless the loss is a whole number of units,
  // and the deposit claims more than the pool holds from a remainder of 1e18 on. Rounded up it never does
  // (CoverKeptWithoutFeedback).
  lemma RoundingDownBreaksCover(total: nat, debt: nat, loss: nat)
    requires 0 < debt < total && loss == debt * PRECISION / total
    ensures loss <= PRECISION - SCALE_FACTOR ==>
              var r := WithLoss(OneDeposit(total), debt, loss);
              && r.Some? && Valid(r.value)
              && (Covered(r.value) <==> debt * PRECISION % total == 0)
              && (Sum(Claims(r.value)) <= r.value.total <==> debt * PRECISION % total < PRECISION)
  {
    if loss <= PRECISION - SCALE_FACTOR {
      FloorDivision(debt * PRECISION, total);
      UnitLoss(OneDeposit(total), loss);
      var q := WithLoss(OneDeposit(total), debt, loss).value;
      hide WithLoss, UpdateSumAndProduct;
      AloneCovered(q, total, debt, loss);
      AloneClaims(q, total, debt, loss);
    }
  }

  lemma UnitLoss(p: Pool, loss: nat)
    requires p.P == PRECISION && loss <= PRECISION - SCALE_FACTOR
    ensures UpdateSumAndProduct(p, 0, loss) ==
            Some(p.(P := PRECISION - loss, sums := p.sums[(p.epoch, p.scale) := SumAt(p.sums, p.epoch, p.scale)]))
  {
    assert p.P * (PRECISION - loss) / PRECISION == PRECISION - loss;
  }

  ghost predicate Alone(q: Pool, total: nat, debt: nat, loss: nat) {
    && q.deposits == [Deposit(total, 0, PRECISION, 0, 0)] && q.scale == 0 && q.epoch == 0 && debt < total
    && q.total == total - debt && SCALE_FACTOR <= q.P == PRECISION - loss && loss * total <= debt * PRECISION
    && debt * PRECISION % total == debt * PRECISION - loss * total
  }

  lemma OneTerm(xs: seq<real>)
    requires |xs| == 1
    ensures RealSum(xs) == xs[0]
  {
    assert xs[..0] == [];
  }

  lemma AloneCovered(q: Pool, total: nat, debt: nat, loss: nat)
    requires Alone(q, total, debt, loss)
    ensures Valid(q) && (Covered(q) <==> debt * PRECISION % total == 0)
  {
    var d := q.deposits[0];
    assert GoodDeposit(q, d);
    OneTerm(Worths(q));
    ProductAsReal(total, q.P);
    assert PerUnit(d) == total as real / UNIT;
    QuotientOfProduct(total as real, q.P as real, UNIT);
    assert TotalWorth(q) == (total * q.P) as real / UNIT;
    assert total * q.P == total * PRECISION - loss * total;
    RealQuotient((total * q.P) as real, UNIT, (total - debt) as real);
    assert TotalWorth(q) * UNIT == (total * q.P) as real;
  }

  lemma AloneClaims(q: Pool, total: nat, debt: nat, loss: nat)
    requires Alone(q, total, debt, loss)
    ensures Valid(q) && (Sum(Claims(q)) <= q.total <==> debt * PRECISION % total < PRECISION)
  {
    var d := q.deposits[0];
    assert GoodDeposit(q, d);
    assert Claims(q)[..0] == [];
    var stake := total * q.P / PRECISION;
    assert total * q.P == total * PRECISION - loss * total;
    QuotientAtLeast(total * q.P, PRECISION, total - debt + 1);
    NotDust(total, q.P);
    assert Sum(Claims(q)) == Compounded(q, d) == stake;
  }

  lemma NotDust(total: nat, P: nat)
    requires P >= SCALE_FACTOR
    ensures total * P / PRECISION >= total / 1_000_000_000
  {
    assert total * P >= total * SCALE_FACTOR;
    QuotientAtLeast(total * P, PRECISION, total / 1_000_000_000);
  }

  // ---- The bound over all runs ----

  // The uncovered part never exceeds m / 1e18, where m bounds the pool at every offset so far.
  ghost predicate GapWithin(p: Pool, m: nat)
    requires Valid(p)
  {
    && p.lossError <= m
    && UNIT * (p.total as real - TotalWorth(p)) - p.lossError as real >= -(m as real)
  }

  lemma OffsetGap(p: Pool, debt: nat, coll: nat, r: Rewards, q: Pool, m: nat)
    requires Valid(p) && Offsets(p, debt, coll, r, q) && GapWithin(p, m) && p.total <= m
    ensures Valid(q) && GapWithin(q, m)
  {
    OffsetEffect(p, debt, coll, r, q);
    GapByBooks(p, q, BooksOf(p, debt, r, q), m);
  }

  lemma GapByBooks(p: Pool, q: Pool, b: Books, m: nat)
    requires Valid(p) && Valid(q) && Kept(p, q, b) && GapWithin(p, m) && p.total <= m
    ensures GapWithin(q, m)
  {
    hide RealSum, NewProduct, TotalWorth, SurvivingWorth;
    OffsetWorth(p, q);
    SurvivingAtMostTotal(p, q.scale != p.scale);
    if q.epoch == p.epoch {
      GapAlgebra(b, SurvivingWorth(p, q.scale != p.scale), TotalWorth(p), TotalWorth(q), m as real);
    }
  }

  lemma GapAlgebra(b: Books, v: real, worth: real, newWorth: real, m: real)
    requires Balanced(b) && b.loss < UNIT && b.error <= m && 0.0 <= v <= worth && newWorth * b.P == b.newP * v
    requires UNIT * (b.total - worth) - b.error >= -m
    ensures UNIT * (b.total - b.debt - newWorth) - b.newError >= -m
  {
    ShrunkWorth(b.newP, b.P, v, worth, newWorth, UNIT - b.loss);
    var f := b.loss / UNIT;
    assert UNIT * (b.total - b.debt - newWorth) - b.newError >= (UNIT - b.loss) * (b.total - worth) - b.error;
    GapShrinks(f, b.total - worth, b.error, m);
  }

  lemma GapShrinks(f: real, gap: real, error: real, m: real)
    requires 0.0 <= f <= 1.0 && error <= m && UNIT * gap - error >= -m
    ensures UNIT * (1.0 - f) * gap - error >= -m
  {
    assert (1.0 - f) * (UNIT * gap - error + m) >= 0.0;
    assert f * (m - error) >= 0.0;
  }

  lemma ShrunkWorth(newP: real, P: real, v: real, worth: real, newWorth: real, f: real)
    requires P > 0.0 && 0.0 <= v <= worth && f >= 0.0 && newP * UNIT <= P * f && newWorth * P == newP * v
    ensures UNIT * newWorth <= f * worth
  {
    assert newP * UNIT * v <= P * f * v;
    assert UNIT * newWorth * P <= f * v * P;
    assert UNIT * newWorth <= f * v by { RealQuotient(f * v * P, P, UNIT * newWorth); assert f * v * P / P == f * v; }
    assert f * v <= f * worth;
  }

  lemma SettleGap(p: Pool, i: nat, newValue: nat, newTotal: int, m: nat)
    requires Valid(p) && i < |p.deposits| && Settle(p, i, newValue, newTotal).Some?
    requires newTotal - p.total == newValue - Compounded(p, p.deposits[i])
    requires GapWithin(p, m)
    ensures Valid(Settle(p, i, newValue, newTotal).value)
    ensures GapWithin(Settle(p, i, newValue, newTotal).value, m)
  {
    SettleWorth(p, i, newValue, newTotal);
    assert GoodDeposit(p, p.deposits[i]);
    WorthBounds(p, p.deposits[i]);
  }

  lemma StepGap(p: Pool, op: Op, m: nat)
    requires Valid(p) && GapWithin(p, m) && p.total <= m
    ensures GapWithin(Step(p, op), m)
  {
    hide ComputeRewards, UpdateSumAndProduct, Compounded, CollateralGain, RealSum, Worth;
    var r := TryStep(p, op);
    if r.Some? {
      match op
      case ProvideToSP(i, amount) =>
        SettleGap(p, i, Compounded(p, p.deposits[i]) + amount, p.total + amount, m);
      case WithdrawFromSP(i, amount, _) =>
        var w := Min(amount, Compounded(p, p.deposits[i]));
        SettleGap(p, i, Compounded(p, p.deposits[i]) - w, p.total - w, m);
      case WithdrawGainToTrove(i, _) =>
        SettleGap(p, i, Compounded(p, p.deposits[i]), p.total, m);
      case OffsetDebt(debt, coll) =>
        if p.total != 0 && debt != 0 {
          OffsetGap(p, debt, coll, ComputeRewards(p, debt, coll).value, r.value, m);
        }
    }
  }

  // The largest pool total seen along a run.
  function Peak(p: Pool, ops: seq<Op>): (m: nat)
    requires Valid(p)
    ensures m >= p.total
    decreases |ops|
  {
    if ops == [] then p.total
    else
      var rest := Peak(Step(p, ops[0]), ops[1..]);
      if rest > p.total then rest else p.total
  }

  lemma {:induction false} RunGap(p: Pool, ops: seq<Op>, m: nat)
    requires Valid(p) && GapWithin(p, m) && Peak(p, ops) <= m
    ensures GapWithin(Run(p, ops), m)
    decreases |ops|
  {
    if ops != [] {
      StepGap(p, ops[0], m);
      RunGap(Step(p, ops[0]), ops[1..], m);
    }
  }

  lemma EmptyPoolFacts(accounts: nat)
    ensures Valid(EmptyPool(accounts)) && TotalWorth(EmptyPool(accounts)) == 0.0
    ensures Covered(EmptyPool(accounts)) && GapWithin(EmptyPool(accounts), 0)
  {
    RealSumZero(Worths(EmptyPool(accounts)));
  }

  function Claims(p: Pool): (cs: seq<int>)
    requires Valid(p)
    ensures |cs| == |p.deposits|
    ensures forall i | 0 <= i < |cs| :: cs[i] == Compounded(p, p.deposits[i])
  {
    seq(|p.deposits|, i requires 0 <= i < |p.deposits| => Compounded(p, p.deposits[i]) as int)
  }

  lemma {:induction false} SumBelowRealSum(xs: seq<int>, ys: seq<real>)
    requires |xs| == |ys| && forall i | 0 <= i < |xs| :: xs[i] as real <= ys[i]
    ensures Sum(xs) as real <= RealSum(ys)
  {
    if xs != [] {
      SumBelowRealSum(xs[..|xs| - 1], ys[..|ys| - 1]);
    }
  }

  lemma ClaimsBelowWorth(p: Pool)
    requires Valid(p)
    ensures Sum(Claims(p)) as real <= TotalWorth(p)
  {
    forall i | 0 <= i < |p.deposits| ensures Claims(p)[i] as real <= Worths(p)[i] {
      assert GoodDeposit(p, p.deposits[i]);
      WorthBounds(p, p.deposits[i]);
    }
    SumBelowRealSum(Claims(p), Worths(p));
  }

  // What rounding takes from each deposit at most: one unit, or all that is left where that is below a 1e-9 part.
  function RoundedOff(p: Pool): (cs: seq<int>)
    requires Valid(p)
    ensures |cs| == |p.deposits|
    ensures forall i | 0 <= i < |cs| ::
              cs[i] == 1 + if Compounded(p, p.deposits[i]) == 0 then p.deposits[i].initialValue / 1_000_000_000 else 0
  {
    seq(|p.deposits|, i requires 0 <= i < |p.deposits| =>
      1 + if Compounded(p, p.deposits[i]) == 0 then p.deposits[i].initialValue / 1_000_000_000 else 0)
  }

  lemma WorthAboveClaims(p: Pool)
    requires Valid(p)
    ensures TotalWorth(p) <= (Sum(Claims(p)) + Sum(RoundedOff(p))) as real
  {
    hide Compounded, Worth;
    var raised := seq(|p.deposits|, i requires 0 <= i < |p.deposits| => Claims(p)[i] + RoundedOff(p)[i]);
    forall i | 0 <= i < |p.deposits| ensures Worths(p)[i] <= raised[i] as real {
      var d := p.deposits[i];
      assert GoodDeposit(p, d);
      WorthRounded(p, d);
      assert raised[i] == Claims(p)[i] + RoundedOff(p)[i];
      assert Claims(p)[i] == Compounded(p, d);
      assert RoundedOff(p)[i] == 1 + if Compounded(p, d) == 0 then d.initialValue / 1_000_000_000 else 0;
    }
    RealSumBelowSum(Worths(p), raised);
    SumOfPairs(Claims(p), RoundedOff(p), raised);
  }

  lemma WorthRounded(p: Pool, d: Deposit)
    requires GoodDeposit(p, d)
    ensures Worth(p, d) <= (Compounded(p, d) + 1 + if Compounded(p, d) == 0 then d.initialValue / 1_000_000_000 else 0) as real
  {
    hide Worth, Compounded, Stake;
    StakeOrNothing(p, d);
    WorthBelowStake(p, d);
  }

  // A deposit is written off where its worth is below a 1e-9 part of what was put in, and never from one unit above that on.
  lemma DustExactly(p: Pool, d: Deposit)
    requires GoodDeposit(p, d)
    ensures
      var dust := d.initialValue / 1_000_000_000;
      && (Compounded(p, d) == 0 || Compounded(p, d) >= dust)
      && (Worth(p, d) < dust as real ==> Compounded(p, d) == 0)
      && (Worth(p, d) >= (dust + 1) as real ==> Worth(p, d) <= (Compounded(p, d) + 1) as real)
  {
    hide Worth, Compounded, Stake;
    StakeOrNothing(p, d);
    WorthBelowStake(p, d);
    WorthBounds(p, d);
  }

  // The compounded stake before the one below a 1e-9 part is dropped.
  function Stake(p: Pool, d: Deposit): nat
    requires GoodDeposit(p, d) && d.initialValue > 0
  {
    if d.epoch < p.epoch || d.scale + 1 < p.scale then 0
    else if d.scale == p.scale then d.initialValue * p.P / d.P
    else d.initialValue * p.P / d.P / SCALE_FACTOR
  }

  lemma StakeOrNothing(p: Pool, d: Deposit)
    requires GoodDeposit(p, d)
    ensures d.initialValue == 0 ==> Compounded(p, d) == 0
    ensures d.initialValue > 0 && d.epoch == p.epoch ==>
              Compounded(p, d) == if Stake(p, d) < d.initialValue / 1_000_000_000 then 0 else Stake(p, d)
    ensures d.initialValue > 0 && d.epoch < p.epoch ==> Compounded(p, d) == 0 == Stake(p, d)
  {
  }

  lemma WorthBelowStake(p: Pool, d: Deposit)
    requires GoodDeposit(p, d)
    ensures d.initialValue == 0 ==> Worth(p, d) == 0.0
    ensures d.initialValue > 0 ==> Worth(p, d) <= (Stake(p, d) + 1) as real && d.epoch <= p.epoch
    ensures d.initialValue > 0 && d.epoch < p.epoch ==> Worth(p, d) == 0.0
  {
    if d.initialValue > 0 && d.epoch == p.epoch {
      if d.scale == p.scale {
        WorthBelowNext(d.initialValue, p.P, d.P);
      } else if d.scale + 1 == p.scale {
        ScaledWorthBelowNext(d.initialValue, p.P, d.P);
      }
    }
  }

  lemma WorthBelowNext(v: nat, P: nat, P0: nat)
    requires P0 > 0
    ensures v as real / P0 as real * P as real <= (v * P / P0 + 1) as real
  {
    ProductAsReal(v, P);
    QuotientOfProduct(v as real, P as real, P0 as real);
    FloorBelowReal(v * P, P0);
  }

  lemma ScaledWorthBelowNext(v: nat, P: nat, P0: nat)
    requires P0 > 0
    ensures v as real / P0 as real * (P as real / SCALE) <= (v * P / P0 / SCALE_FACTOR + 1) as real
  {
    var x, c, y := v * P / P0, v as real / P0 as real, P as real;
    WorthBelowNext(v, P, P0);
    QuotientOfProduct(c, y, SCALE);
    NextScaled(x, c * y);
  }

  lemma NextScaled(x: nat, w: real)
    requires w <= (x + 1) as real
    ensures w / SCALE <= (x / SCALE_FACTOR + 1) as real
  {
    assert x + 1 <= (x / SCALE_FACTOR + 1) * SCALE_FACTOR;
  }

  lemma {:induction false} RealSumBelowSum(xs: seq<real>, ys: seq<int>)
    requires |xs| == |ys| && forall i | 0 <= i < |xs| :: xs[i] <= ys[i] as real
    ensures RealSum(xs) <= Sum(ys) as real
  {
    if xs != [] {
      RealSumBelowSum(xs[..|xs| - 1], ys[..|ys| - 1]);
    }
  }

  lemma {:induction false} SumOfPairs(xs: seq<int>, ys: seq<int>, zs: seq<int>)
    requires |xs| == |ys| == |zs| && forall i | 0 <= i < |xs| :: zs[i] == xs[i] + ys[i]
    ensures Sum(zs) == Sum(xs) + Sum(ys)
  {
    if xs != [] {
      SumOfPairs(xs[..|xs| - 1], ys[..|ys| - 1], zs[..|zs| - 1]);
    }
  }

  // After any run of deposits, withdrawals and liquidations, however long, what the depositors could
  // claim exceeds the pool by at most a 1e-18 part of the largest pool the run has seen.
  lemma ClaimsWithinPeak(accounts: nat, ops: seq<Op>)
    ensures Valid(EmptyPool(accounts))
    ensures
      var q := Run(EmptyPool(accounts), ops);
      PRECISION * (Sum(Claims(q)) - q.total) + q.lossError <= Peak(EmptyPool(accounts), ops)
  {
    EmptyPoolFacts(accounts);
    var p := EmptyPool(accounts);
    var q := Run(p, ops);
    RunGap(p, ops, Peak(p, ops));
    ClaimsBelowWorth(q);
  }

  // ---- A run that opens the gap ----

  const OPENING_RUN := [
    ProvideToSP(0, 1_000_000_000_000_000_000_000_000),
    OffsetDebt(100_000_000_000_000_000_000_000, 55_000_000_000_000_000_000),
    OffsetDebt(450_000_000_000_000_005_499_999, 247_500_000_000_000_000_000)]

  const DEPOSITED := EmptyPool(1).(
    deposits := [Deposit(1_000_000_000_000_000_000_000_000, 0, PRECISION, 0, 0)],
    total := 1_000_000_000_000_000_000_000_000)
  const OFFSET_ONCE := DEPOSITED.(
    total := 900_000_000_000_000_000_000_000, P := 899_999_999_999_999_999,
    lossError := 1_000_000_000_000_000_000_000_000, collateral := 55_000_000_000_000_000_000,
    sums := map[(0, 0) := 55_000_000_000_000 * PRECISION])
  const OFFSET_TWICE := OFFSET_ONCE.(
    total := 449_999_999_999_999_994_500_001, P := 449_999_999_999_999_995, lossError := 1_000_000_000_000_000_000,
    collateral := 302_500_000_000_000_000_000,
    sums := map[(0, 0) := 55_000_000_000_000 * PRECISION + 275_000_000_000_000 * 899_999_999_999_999_999])

  // One depositor, two partial offsets: the compounded deposit ends 499,999 wei above the pool, and
  // withdrawing it reverts.
  lemma GapIsReal()
    ensures Valid(EmptyPool(1)) && Run(EmptyPool(1), OPENING_RUN) == OFFSET_TWICE && Valid(OFFSET_TWICE)
    ensures Compounded(OFFSET_TWICE, OFFSET_TWICE.deposits[0]) == OFFSET_TWICE.total + 499_999
    ensures forall amount | amount > OFFSET_TWICE.total :: Withdraw(OFFSET_TWICE, 0, amount, true) == None
  {
    hide Run;
    GapSteps();
    RunFour(EmptyPool(1), DEPOSITED, OFFSET_ONCE, OFFSET_TWICE);
    GapClaim();
  }

  lemma GapSteps()
    ensures Valid(EmptyPool(1)) && Valid(DEPOSITED) && Valid(OFFSET_ONCE) && Valid(OFFSET_TWICE)
    ensures Step(EmptyPool(1), OPENING_RUN[0]) == DEPOSITED
    ensures Step(DEPOSITED, OPENING_RUN[1]) == OFFSET_ONCE
    ensures Step(OFFSET_ONCE, OPENING_RUN[2]) == OFFSET_TWICE
  {
    FirstDeposit();
    hide ComputeRewards, UpdateSumAndProduct, Compounded, CollateralGain;
    assert map[][(0, 0) := 55_000_000_000_000 * PRECISION] == OFFSET_ONCE.sums;
    OffsetComputed(DEPOSITED, 100_000_000_000_000_000_000_000, 55_000_000_000_000_000_000, 55_000_000_000_000,
                   100_000_000_000_000_001, OFFSET_ONCE);
    assert OFFSET_ONCE.sums[(0, 0) := OFFSET_TWICE.sums[(0, 0)]] == OFFSET_TWICE.sums;
    OffsetComputed(OFFSET_ONCE, 450_000_000_000_000_005_499_999, 247_500_000_000_000_000_000, 275_000_000_000_000,
                   500_000_000_000_000_005, OFFSET_TWICE);
  }

  lemma FirstDeposit()
    ensures Valid(EmptyPool(1)) && Step(EmptyPool(1), OPENING_RUN[0]) == DEPOSITED
  {
    assert Step(EmptyPool(1), OPENING_RUN[0]).deposits == DEPOSITED.deposits;
  }

  lemma GapClaim()
    requires Valid(OFFSET_TWICE)
    ensures Compounded(OFFSET_TWICE, OFFSET_TWICE.deposits[0]) == OFFSET_TWICE.total + 499_999
    ensures forall amount | amount > OFFSET_TWICE.total :: Withdraw(OFFSET_TWICE, 0, amount, true) == None
  {
    assert 1_000_000_000_000_000_000_000_000 * 449_999_999_999_999_995 / PRECISION == 449_999_999_999_999_995_000_000;
  }

  // Evaluating an offset from its quotients.
  lemma OffsetComputed(p: Pool, debt: nat, coll: nat, gain: nat, loss: nat, q: Pool)
    requires Valid(p) && 0 < debt < p.total && 0 < loss < PRECISION && p.lossError <= debt * PRECISION
    requires (loss - 1) * p.total <= debt * PRECISION - p.lossError < loss * p.total
    requires gain * p.total <= coll * PRECISION + p.collError < (gain + 1) * p.total
    requires SCALE_FACTOR <= q.P && q.P * PRECISION <= p.P * (PRECISION - loss) < (q.P + 1) * PRECISION
    requires q == p.(total := p.total - debt, P := q.P, lossError := loss * p.total - (debt * PRECISION - p.lossError),
                     collError := coll * PRECISION + p.collError - gain * p.total, collateral := p.collateral + coll,
                     sums := p.sums[(p.epoch, p.scale) := SumAt(p.sums, p.epoch, p.scale) + gain * p.P])
    ensures Offset(p, debt, coll) == Some(q)
  {
    hide ComputeRewards, UpdateSumAndProduct;
    RewardsComputed(p, debt, coll, gain, loss);
    ProductComputed(p.(lossError := q.lossError, collError := q.collError), gain, loss, q.P);
  }

  lemma RewardsComputed(p: Pool, debt: nat, coll: nat, gain: nat, loss: nat)
    requires 0 < debt < p.total && 0 < loss && p.lossError <= debt * PRECISION
    requires (loss - 1) * p.total <= debt * PRECISION - p.lossError < loss * p.total
    requires gain * p.total <= coll * PRECISION + p.collError < (gain + 1) * p.total
    ensures ComputeRewards(p, debt, coll) ==
            Some(Rewards(gain, loss, coll * PRECISION + p.collError - gain * p.total,
                         loss * p.total - (debt * PRECISION - p.lossError)))
  {
    hide ComputeRewards;
    RewardsAre(p, debt, coll);
    QuotientIs(debt * PRECISION - p.lossError, p.total, loss - 1);
    QuotientIs(coll * PRECISION + p.collError, p.total, gain);
  }

  lemma ProductComputed(p: Pool, gain: nat, loss: nat, newP: nat)
    requires loss < PRECISION && SCALE_FACTOR <= newP && newP * PRECISION <= p.P * (PRECISION - loss) < (newP + 1) * PRECISION
    ensures UpdateSumAndProduct(p, gain, loss) ==
            Some(p.(P := newP, sums := p.sums[(p.epoch, p.scale) := SumAt(p.sums, p.epoch, p.scale) + gain * p.P]))
  {
    QuotientIs(p.P * (PRECISION - loss), PRECISION, newP);
  }

  lemma RunFour(p0: Pool, p1: Pool, p2: Pool, p3: Pool)
    requires Valid(p0) && Valid(p1) && Valid(p2) && Valid(p3)
    requires Step(p0, OPENING_RUN[0]) == p1 && Step(p1, OPENING_RUN[1]) == p2 && Step(p2, OPENING_RUN[2]) == p3
    ensures Run(p0, OPENING_RUN) == p3
  {
    hide Step, TryStep, Run;
    RunCons(p0, OPENING_RUN[0], OPENING_RUN[1..]);
    RunCons(p1, OPENING_RUN[1], OPENING_RUN[2..]);
    RunCons(p2, OPENING_RUN[2], []);
    assert OPENING_RUN == [OPENING_RUN[0]] + OPENING_RUN[1..];
    assert OPENING_RUN[1..] == [OPENING_RUN[1]] + OPENING_RUN[2..];
    assert OPENING_RUN[2..] == [OPENING_RUN[2]] + [];
  }

  lemma RunCons(p: Pool, op: Op, rest: seq<Op>)
    requires Valid(p)
    ensures Run(p, [op] + rest) == Run(Step(p, op), rest)
    ensures rest == [] ==> Run(p, [op] + rest) == Step(p, op)
  {
    hide Step, TryStep;
    assert ([op] + rest)[1..] == rest;
  }
}
