/** Constants, an option type, sums over sequences and the few facts about division that the
    other modules share. */
module Common {
  // BaseMath.DECIMAL_PRECISION: every ratio in the contracts is an 18-digit decimal.
  const PRECISION: nat := 1_000_000_000_000_000_000

  // None stands for a Solidity revert: the transaction leaves no trace.
  datatype Option<+T> = None | Some(value: T)

  function Min(a: nat, b: nat): nat {
    if a < b then a else b
  }

  function Sum(xs: seq<int>): int {
    if xs == [] then 0 else Sum(xs[..|xs| - 1]) + xs[|xs| - 1]
  }

  function RealSum(xs: seq<real>): real {
    if xs == [] then 0.0 else RealSum(xs[..|xs| - 1]) + xs[|xs| - 1]
  }

  lemma {:induction false} SumUpdate(xs: seq<int>, i: nat, v: int)
    requires i < |xs|
    ensures Sum(xs[i := v]) == Sum(xs) - xs[i] + v
  {
    var n := |xs| - 1;
    if i == n {
      assert xs[i := v][..n] == xs[..n];
    } else {
      SumUpdate(xs[..n], i, v);
      assert xs[i := v][..n] == xs[..n][i := v];
    }
  }

  lemma {:induction false} SumCons(x: int, xs: seq<int>)
    ensures Sum([x] + xs) == x + Sum(xs)
  {
    if xs == [] {
      assert [x] + xs == [x] && [x][..0] == [];
    } else {
      var n := |xs| - 1;
      SumCons(x, xs[..n]);
      assert ([x] + xs)[..n + 1] == [x] + xs[..n];
    }
  }

  lemma {:induction false} SumAtMost(xs: seq<int>, ys: seq<int>)
    requires |xs| == |ys| && forall i | 0 <= i < |xs| :: xs[i] <= ys[i]
    ensures Sum(xs) <= Sum(ys)
  {
    if xs != [] {
      SumAtMost(xs[..|xs| - 1], ys[..|ys| - 1]);
    }
  }

  lemma {:induction false} SumZero(xs: seq<int>)
    requires forall i | 0 <= i < |xs| :: xs[i] == 0
    ensures Sum(xs) == 0
  {
    if xs != [] {
      SumZero(xs[..|xs| - 1]);
    }
  }

  lemma {:induction false} SumNonNegative(xs: seq<int>)
    requires forall i | 0 <= i < |xs| :: xs[i] >= 0
    ensures Sum(xs) >= 0
    ensures forall i | 0 <= i < |xs| :: xs[i] <= Sum(xs)
  {
    if xs != [] {
      SumNonNegative(xs[..|xs| - 1]);
      forall i | 0 <= i < |xs| ensures xs[i] <= Sum(xs) {
        if i < |xs| - 1 {
          assert xs[i] == xs[..|xs| - 1][i];
        }
      }
    }
  }

  // Raising every item by k times its weight raises the sum by k times the total weight.
  lemma {:induction false} SumShift(xs: seq<int>, ys: seq<int>, weights: seq<int>, k: int)
    requires |xs| == |ys| == |weights|
    requires forall i | 0 <= i < |xs| :: ys[i] == xs[i] + k * weights[i]
    ensures Sum(ys) == Sum(xs) + k * Sum(weights)
  {
    if xs != [] {
      var n := |xs| - 1;
      SumShift(xs[..n], ys[..n], weights[..n], k);
    }
  }

  lemma {:induction false} RealSumUpdate(xs: seq<real>, i: nat, v: real)
    requires i < |xs|
    ensures RealSum(xs[i := v]) == RealSum(xs) - xs[i] + v
  {
    var n := |xs| - 1;
    if i == n {
      assert xs[i := v][..n] == xs[..n];
    } else {
      RealSumUpdate(xs[..n], i, v);
      assert xs[i := v][..n] == xs[..n][i := v];
    }
  }

  lemma {:induction false} RealSumAtMost(xs: seq<real>, ys: seq<real>)
    requires |xs| == |ys| && forall i | 0 <= i < |xs| :: xs[i] <= ys[i]
    ensures RealSum(xs) <= RealSum(ys)
  {
    if xs != [] {
      RealSumAtMost(xs[..|xs| - 1], ys[..|ys| - 1]);
    }
  }

  lemma {:induction false} RealSumZero(xs: seq<real>)
    requires forall i | 0 <= i < |xs| :: xs[i] == 0.0
    ensures RealSum(xs) == 0.0
  {
    if xs != [] {
      RealSumZero(xs[..|xs| - 1]);
    }
  }

  // ys == xs + k * weights, item by item.
  lemma {:induction false} RealSumShift(xs: seq<real>, ys: seq<real>, weights: seq<real>, k: real)
    requires |xs| == |ys| == |weights|
    requires forall i | 0 <= i < |xs| :: ys[i] == xs[i] + k * weights[i]
    ensures RealSum(ys) == RealSum(xs) + k * RealSum(weights)
  {
    if xs != [] {
      var n := |xs| - 1;
      RealSumShift(xs[..n], ys[..n], weights[..n], k);
    }
  }

  // ys in proportion to xs, item by item: b parts of ys are a parts of xs.
  lemma {:induction false} RealSumProportion(xs: seq<real>, ys: seq<real>, a: real, b: real)
    requires |xs| == |ys| && forall i | 0 <= i < |xs| :: ys[i] * b == a * xs[i]
    ensures RealSum(ys) * b == a * RealSum(xs)
  {
    if xs != [] {
      RealSumProportion(xs[..|xs| - 1], ys[..|ys| - 1], a, b);
    }
  }

  // ---- Products and quotients ----

  lemma NonNegative(a: nat, b: nat)
    ensures a * b >= 0
  {
  }

  lemma RealNonNegative(a: real, b: real)
    requires a >= 0.0 && b >= 0.0
    ensures a * b >= 0.0
  {
  }

  lemma Signs(d: int, k: int)
    requires k > 0
    ensures (d > 0 ==> d * k > 0) && (d < 0 ==> d * k < 0)
  {
  }

  lemma RealSigns(d: real, k: real)
    requires k >= 0.0
    ensures k > 0.0 ==> (d > 0.0 ==> d * k > 0.0) && (d < 0.0 ==> d * k < 0.0)
    ensures k == 0.0 || d == 0.0 ==> d * k == 0.0
  {
  }

  lemma ScaleUp(a: int, b: int, k: nat)
    requires a <= b
    ensures a * k <= b * k && k * a <= k * b
  {
  }

  lemma ScaleUpStrictly(a: int, b: int, k: nat)
    requires a < b && k > 0
    ensures a * k < b * k
  {
  }

  lemma CancelPositive(a: int, b: int, k: int)
    requires k > 0 && a * k <= b * k
    ensures a <= b
  {
    Signs(a - b, k);
    assert (a - b) * k == a * k - b * k;
  }

  lemma CancelStrictly(a: int, b: int, k: int)
    requires k > 0 && a * k < b * k
    ensures a < b
  {
    Signs(b - a, k);
    assert (b - a) * k == b * k - a * k;
  }

  // Two numbers in 1e-18 parts.
  function Share(x: nat, y: nat): nat {
    NonNegative(x, y);
    x * y / PRECISION
  }

  lemma FloorDivision(a: nat, b: nat)
    requires b > 0
    ensures a / b * b <= a < (a / b + 1) * b
  {
  }

  // A quotient is at least q exactly when the numerator reaches q times the divisor.
  lemma QuotientAtLeast(a: nat, b: nat, q: nat)
    requires b > 0
    ensures a / b >= q <==> a >= q * b
  {
    FloorDivision(a, b);
    if a / b >= q {
      assert a / b * b >= q * b;
    }
  }

  lemma QuotientIs(a: nat, b: nat, q: nat)
    requires q * b <= a < (q + 1) * b
    ensures a / b == q
  {
    QuotientAtLeast(a, b, q);
    QuotientAtLeast(a, b, q + 1);
  }

  lemma FullShare(a: nat, b: nat)
    requires b > 0
    ensures a * b / b == a
  {
    QuotientIs(a * b, b, a);
  }

  lemma RealQuotient(a: real, b: real, q: real)
    requires b > 0.0
    ensures q * b <= a <==> q <= a / b
  {
    assert a / b * b == a;
    if q <= a / b {
      assert q * b <= a / b * b;
    }
  }

  lemma ProductAsReal(a: int, b: int)
    ensures (a * b) as real == a as real * b as real
  {
  }

  lemma FloorBelowReal(a: nat, b: nat)
    requires b > 0
    ensures (a / b) as real <= a as real / b as real < (a / b) as real + 1.0
  {
    FloorDivision(a, b);
    var q := a / b;
    ProductAsReal(q, b);
    ProductAsReal(q + 1, b);
    RealQuotient(a as real, b as real, q as real);
    RealQuotient(a as real, b as real, (q + 1) as real);
  }
}
