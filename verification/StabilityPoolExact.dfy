/** The product/sum bookkeeping in exact arithmetic against the plain model it stands for: a loop that
    shrinks every deposit and credits every depositor at each liquidation. */
module StabilityPoolExact {
  import opened Common

  // The O(1) bookkeeping: a product P, a sum S per epoch, and snapshots of both with each deposit.
  datatype Deposit = Deposit(initial: real, P: real, S: real, epoch: nat)

  datatype Pool = Pool(deposits: seq<Deposit>, total: real, collateral: real, P: real, sums: seq<real>)
  {
    // `sums` holds one sum per epoch; the last is the current one.
    function Epoch(): int { |sums| - 1 }
  }

  // The plain model: what each depositor has left and has gained.
  datatype Account = Account(deposit: real, gain: real)

  datatype Op =
    | Provide(account: nat, amount: real)
    | Withdraw(account: nat, amount: real)
    | Offset(debt: real, coll: real)

  ghost predicate GoodDeposit(p: Pool, d: Deposit) {
    d.initial >= 0.0 && (d.initial > 0.0 ==> d.P > 0.0 && d.epoch <= p.Epoch())
  }

  ghost predicate Valid(p: Pool) {
    p.P > 0.0 && |p.sums| > 0 && forall i | 0 <= i < |p.deposits| :: GoodDeposit(p, p.deposits[i])
  }

  function Compounded(p: Pool, d: Deposit): (r: real)
    requires p.P > 0.0 && GoodDeposit(p, d)
    ensures r >= 0.0
  {
    if d.initial == 0.0 || d.epoch < p.Epoch() then 0.0 else d.initial * p.P / d.P
  }

  function Gain(p: Pool, d: Deposit): real
    requires GoodDeposit(p, d)
  {
    if d.initial == 0.0 then 0.0 else d.initial * (p.sums[d.epoch] - d.S) / d.P
  }

  function Settle(p: Pool, i: nat, newValue: real, newTotal: real): Pool
    requires Valid(p) && i < |p.deposits|
  {
    p.(deposits := p.deposits[i := Deposit(newValue, p.P, p.sums[p.Epoch()], p.Epoch())],
       total := newTotal, collateral := p.collateral - Gain(p, p.deposits[i]))
  }

  function Smaller(a: real, b: real): real { if a < b then a else b }

  // An operation with arguments the contract refuses changes nothing.
  function Step(p: Pool, op: Op): (q: Pool)
    requires Valid(p)
    ensures Valid(q)
  {
    hide Compounded, Gain, Settle, Liquidate;
    match op
    case Provide(i, amount) =>
      if i >= |p.deposits| || amount <= 0.0 then p
      else
        var c := Compounded(p, p.deposits[i]);
        SettleKeepsValid(p, i, c + amount, p.total + amount);
        Settle(p, i, c + amount, p.total + amount)
    case Withdraw(i, amount) =>
      if i >= |p.deposits| || amount < 0.0 then p
      else
        var c := Compounded(p, p.deposits[i]);
        SettleKeepsValid(p, i, c - Smaller(amount, c), p.total - Smaller(amount, c));
        Settle(p, i, c - Smaller(amount, c), p.total - Smaller(amount, c))
    case Offset(debt, coll) =>
      if p.total <= 0.0 || debt <= 0.0 || debt > p.total || coll < 0.0 then p
      else LiquidateKeepsValid(p, debt, coll); Liquidate(p, debt, coll)
  }

  lemma SettleKeepsValid(p: Pool, i: nat, newValue: real, newTotal: real)
    requires Valid(p) && i < |p.deposits| && newValue >= 0.0
    ensures Valid(Settle(p, i, newValue, newTotal))
  {
    hide Gain;
    var q := Settle(p, i, newValue, newTotal);
    forall j | 0 <= j < |q.deposits| ensures GoodDeposit(q, q.deposits[j]) {
      assert j != i ==> q.deposits[j] == p.deposits[j];
    }
  }

  lemma LiquidateKeepsValid(p: Pool, debt: real, coll: real)
    requires Valid(p) && p.total > 0.0 && debt <= p.total
    ensures Valid(Liquidate(p, debt, coll))
  {
    var q := Liquidate(p, debt, coll);
    assert q.P > 0.0 by {
      ProductStaysPositive(p.P, p.total, debt);
    }
    forall j | 0 <= j < |q.deposits| ensures GoodDeposit(q, q.deposits[j]) {
      assert GoodDeposit(p, p.deposits[j]);
    }
  }

  lemma ProductStaysPositive(P: real, total: real, debt: real)
    requires P > 0.0 && total > 0.0
    ensures debt < total ==> P * (1.0 - debt / total) > 0.0
  {
    RealQuotient(debt, total, 1.0);
  }

  // The offset: S grows before P shrinks, and a pool emptied to 0 starts a new epoch.
  function Liquidate(p: Pool, debt: real, coll: real): Pool
    requires p.total > 0.0 && |p.sums| > 0
  {
    var e := p.Epoch();
    var sums := p.sums[e := p.sums[e] + coll / p.total * p.P];
    var q := p.(total := p.total - debt, collateral := p.collateral + coll, sums := sums);
    if debt == p.total then q.(P := 1.0, sums := sums + [0.0])
    else q.(P := p.P * (1.0 - debt / p.total))
  }

  function Deposits(accounts: seq<Account>): (xs: seq<real>)
    ensures |xs| == |accounts| && forall i | 0 <= i < |xs| :: xs[i] == accounts[i].deposit
  {
    seq(|accounts|, i requires 0 <= i < |accounts| => accounts[i].deposit)
  }

  function AccountGains(accounts: seq<Account>): (xs: seq<real>)
    ensures |xs| == |accounts| && forall i | 0 <= i < |xs| :: xs[i] == accounts[i].gain
  {
    seq(|accounts|, i requires 0 <= i < |accounts| => accounts[i].gain)
  }

  // One depositor's part of a liquidation, in proportion to the deposit.
  function Absorb(a: Account, total: real, debt: real, coll: real): Account
    requires total > 0.0
  {
    Account(a.deposit - debt * (a.deposit / total), a.gain + coll * (a.deposit / total))
  }

  function PlainStep(accounts: seq<Account>, op: Op): seq<Account> {
    match op
    case Provide(i, amount) =>
      if i >= |accounts| || amount <= 0.0 then accounts
      else accounts[i := Account(accounts[i].deposit + amount, 0.0)]
    case Withdraw(i, amount) =>
      if i >= |accounts| || amount < 0.0 then accounts
      else accounts[i := Account(accounts[i].deposit - Smaller(amount, accounts[i].deposit), 0.0)]
    case Offset(debt, coll) =>
      var total := RealSum(Deposits(accounts));
      if total <= 0.0 || debt <= 0.0 || debt > total || coll < 0.0 then accounts
      else seq(|accounts|, i requires 0 <= i < |accounts| => Absorb(accounts[i], total, debt, coll))
  }

  // The two agree on every deposit and every gain; the pool total is the sum of the deposits, and the
  // collateral held is the sum of the gains not yet paid out.
  ghost predicate Agree(p: Pool, accounts: seq<Account>) {
    && Valid(p) && |accounts| == |p.deposits|
    && (forall i | 0 <= i < |accounts| :: AgreeOn(p, p.deposits[i], accounts[i]))
    && p.total == RealSum(Deposits(accounts))
    && p.collateral == RealSum(AccountGains(accounts))
  }

  ghost predicate AgreeOn(p: Pool, d: Deposit, a: Account)
    requires p.P > 0.0 && GoodDeposit(p, d)
  {
    Compounded(p, d) == a.deposit >= 0.0 && Gain(p, d) == a.gain
  }

  lemma SettleAgrees(p: Pool, accounts: seq<Account>, i: nat, newValue: real)
    requires Agree(p, accounts) && i < |accounts| && newValue >= 0.0
    ensures Agree(Settle(p, i, newValue, p.total - accounts[i].deposit + newValue), accounts[i := Account(newValue, 0.0)])
  {
    hide Compounded, Gain, RealSum;
    var q := Settle(p, i, newValue, p.total - accounts[i].deposit + newValue);
    var after := accounts[i := Account(newValue, 0.0)];
    assert AgreeOn(p, p.deposits[i], accounts[i]);
    SettledAgreesOn(p, q, newValue);
    forall j | 0 <= j < |accounts| && j != i ensures GoodDeposit(q, q.deposits[j]) && AgreeOn(q, q.deposits[j], after[j]) {
      assert GoodDeposit(p, p.deposits[j]) && AgreeOn(p, p.deposits[j], accounts[j]);
      OtherAgreesOn(p, q, p.deposits[j], accounts[j]);
    }
    assert Deposits(after) == Deposits(accounts)[i := newValue];
    assert AccountGains(after) == AccountGains(accounts)[i := 0.0];
    RealSumUpdate(Deposits(accounts), i, newValue);
    RealSumUpdate(AccountGains(accounts), i, 0.0);
  }

  // A record made just now is worth its value and has earned nothing.
  lemma SettledAgreesOn(p: Pool, q: Pool, newValue: real)
    requires p.P > 0.0 && |p.sums| > 0 && newValue >= 0.0 && q.P == p.P && q.sums == p.sums
    ensures
      var d := Deposit(newValue, p.P, p.sums[p.Epoch()], p.Epoch());
      GoodDeposit(q, d) && AgreeOn(q, d, Account(newValue, 0.0))
  {
    if newValue > 0.0 {
      assert newValue * p.P / p.P == newValue;
    }
  }

  lemma OtherAgreesOn(p: Pool, q: Pool, d: Deposit, a: Account)
    requires p.P > 0.0 && GoodDeposit(p, d) && AgreeOn(p, d, a) && q.P == p.P && q.sums == p.sums
    ensures GoodDeposit(q, d) && AgreeOn(q, d, a)
  {
  }

  lemma OffsetShare(d0: real, P: real, P0: real, debt: real, coll: real, total: real, S: real, S0: real, a: Account)
    requires P0 > 0.0 && total > 0.0
    requires a.deposit == d0 * P / P0 && a.gain == d0 * (S - S0) / P0
    ensures
      var b := Absorb(a, total, debt, coll);
      && d0 * (P * (1.0 - debt / total)) / P0 == b.deposit == a.deposit * (1.0 - debt / total)
      && d0 * (S + coll / total * P - S0) / P0 == b.gain
      && (debt == total ==> b.deposit == 0.0)
  {
    assert d0 * (P * (1.0 - debt / total)) == d0 * P * (1.0 - debt / total);
    assert d0 * (S + coll / total * P - S0) == d0 * (S - S0) + coll / total * (d0 * P);
  }

  lemma OffsetAgreesOn(p: Pool, debt: real, coll: real, d: Deposit, a: Account)
    requires p.P > 0.0 && |p.sums| > 0 && 0.0 < debt <= p.total && coll >= 0.0
    requires GoodDeposit(p, d) && AgreeOn(p, d, a)
    ensures
      var q := Liquidate(p, debt, coll);
      q.P > 0.0 && GoodDeposit(q, d) && AgreeOn(q, d, Absorb(a, p.total, debt, coll))
  {
    ProductStaysPositive(p.P, p.total, debt);
    if d.initial > 0.0 && d.epoch == p.Epoch() {
      hide AgreeOn;
      OffsetAgreesOnCurrent(p, debt, coll, d, a);
    } else {
      hide Absorb;
      AbsorbNothing(a, p.total, debt, coll);
    }
  }

  lemma OffsetAgreesOnCurrent(p: Pool, debt: real, coll: real, d: Deposit, a: Account)
    requires p.P > 0.0 && |p.sums| > 0 && 0.0 < debt <= p.total && coll >= 0.0
    requires GoodDeposit(p, d) && AgreeOn(p, d, a) && d.initial > 0.0 && d.epoch == p.Epoch()
    ensures
      var q := Liquidate(p, debt, coll);
      q.P > 0.0 && GoodDeposit(q, d) && AgreeOn(q, d, Absorb(a, p.total, debt, coll))
  {
    hide Absorb;
    ProductStaysPositive(p.P, p.total, debt);
    OffsetShare(d.initial, p.P, d.P, debt, coll, p.total, p.sums[d.epoch], d.S, a);
    Fraction(debt, p.total, a.deposit);
  }

  lemma AbsorbNothing(a: Account, total: real, debt: real, coll: real)
    requires total > 0.0 && a.deposit == 0.0
    ensures Absorb(a, total, debt, coll) == a
  {
  }

  lemma Fraction(part: real, whole: real, x: real)
    requires 0.0 < part <= whole && x >= 0.0
    ensures x * (1.0 - part / whole) >= 0.0
  {
    assert part / whole <= whole / whole == 1.0;
  }

  lemma OffsetTotals(accounts: seq<Account>, after: seq<Account>, total: real, debt: real, coll: real)
    requires total == RealSum(Deposits(accounts)) > 0.0 && |after| == |accounts|
    requires forall i | 0 <= i < |accounts| :: after[i] == Absorb(accounts[i], total, debt, coll)
    ensures RealSum(Deposits(after)) == total - debt
    ensures RealSum(AccountGains(after)) == RealSum(AccountGains(accounts)) + coll
  {
    hide RealSum;
    var ws := Deposits(accounts);
    forall i | 0 <= i < |accounts|
      ensures Deposits(after)[i] == ws[i] + -(debt / total) * ws[i]
      ensures AccountGains(after)[i] == AccountGains(accounts)[i] + coll / total * ws[i]
    {
    }
    RealSumShift(ws, Deposits(after), ws, -(debt / total));
    RealSumShift(AccountGains(accounts), AccountGains(after), ws, coll / total);
  }

  lemma OffsetAgrees(p: Pool, accounts: seq<Account>, debt: real, coll: real)
    requires Agree(p, accounts) && 0.0 < debt <= p.total && coll >= 0.0
    ensures Agree(Liquidate(p, debt, coll), PlainStep(accounts, Offset(debt, coll)))
  {
    hide RealSum;
    var q, after := Liquidate(p, debt, coll), PlainStep(accounts, Offset(debt, coll));
    OffsetTotals(accounts, after, p.total, debt, coll);
    EachOffsetAgrees(p, accounts, debt, coll, after);
    hide Compounded, Gain;
    ProductStaysPositive(p.P, p.total, debt);
  }

  lemma EachOffsetAgrees(p: Pool, accounts: seq<Account>, debt: real, coll: real, after: seq<Account>)
    requires Agree(p, accounts) && 0.0 < debt <= p.total && coll >= 0.0 && |after| == |accounts|
    requires forall i | 0 <= i < |accounts| :: after[i] == Absorb(accounts[i], p.total, debt, coll)
    ensures
      var q := Liquidate(p, debt, coll);
      forall i | 0 <= i < |accounts| :: GoodDeposit(q, q.deposits[i]) && AgreeOn(q, q.deposits[i], after[i])
  {
    hide RealSum, Compounded, Gain, Absorb;
    var q := Liquidate(p, debt, coll);
    forall i | 0 <= i < |accounts| ensures GoodDeposit(q, q.deposits[i]) && AgreeOn(q, q.deposits[i], after[i]) {
      assert GoodDeposit(p, p.deposits[i]) && AgreeOn(p, p.deposits[i], accounts[i]);
      OffsetAgreesOn(p, debt, coll, p.deposits[i], accounts[i]);
    }
  }

  // One operation of either kind keeps the two in agreement.
  lemma StepAgrees(p: Pool, accounts: seq<Account>, op: Op)
    requires Agree(p, accounts)
    ensures Agree(Step(p, op), PlainStep(accounts, op))
  {
    hide Agree, Settle, Compounded, Liquidate, Absorb;
    AgreeMeans(p, accounts);
    match op
    case Provide(i, amount) =>
      if i < |accounts| && amount > 0.0 {
        SettleAgrees(p, accounts, i, accounts[i].deposit + amount);
      }
    case Withdraw(i, amount) =>
      if i < |accounts| && amount >= 0.0 {
        SettleAgrees(p, accounts, i, accounts[i].deposit - Smaller(amount, accounts[i].deposit));
      }
    case Offset(debt, coll) =>
      if p.total > 0.0 && 0.0 < debt <= p.total && coll >= 0.0 {
        OffsetAgrees(p, accounts, debt, coll);
      }
  }

  lemma AgreeMeans(p: Pool, accounts: seq<Account>)
    requires Agree(p, accounts)
    ensures Valid(p) && |accounts| == |p.deposits| && p.total == RealSum(Deposits(accounts))
    ensures forall i | 0 <= i < |accounts| :: Compounded(p, p.deposits[i]) == accounts[i].deposit >= 0.0
  {
    hide Compounded, Gain, RealSum;
    forall i | 0 <= i < |accounts| ensures Compounded(p, p.deposits[i]) == accounts[i].deposit >= 0.0 {
      assert AgreeOn(p, p.deposits[i], accounts[i]);
    }
  }

  // ---- Runs ----

  const NOBODY := Deposit(0.0, 0.0, 0.0, 0)

  function Run(n: nat, ops: seq<Op>): (p: Pool)
    ensures Valid(p)
  {
    if ops == [] then Pool(seq(n, _ => NOBODY), 0.0, 0.0, 1.0, [0.0])
    else Step(Run(n, ops[..|ops| - 1]), ops[|ops| - 1])
  }

  function PlainRun(n: nat, ops: seq<Op>): seq<Account> {
    if ops == [] then seq(n, _ => Account(0.0, 0.0))
    else PlainStep(PlainRun(n, ops[..|ops| - 1]), ops[|ops| - 1])
  }

  // Over every run of deposits, withdrawals and liquidations the O(1) bookkeeping gives every depositor
  // exactly the deposit and the gain of the plain loop, the deposits add up to the pool, and the gains
  // not yet paid out add up to the collateral held.
  lemma {:induction false} RunsAgree(n: nat, ops: seq<Op>)
    ensures Agree(Run(n, ops), PlainRun(n, ops))
  {
    if ops == [] {
      RealSumZero(Deposits(PlainRun(n, ops)));
      RealSumZero(AccountGains(PlainRun(n, ops)));
    } else {
      hide Step, PlainStep, Agree;
      var k := |ops| - 1;
      RunsAgree(n, ops[..k]);
      StepAgrees(Run(n, ops[..k]), PlainRun(n, ops[..k]), ops[k]);
    }
  }
}
