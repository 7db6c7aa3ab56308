/** The order of two troves over whole runs: truncation does not add up. */
module OrderOverRuns {
  import opened Common
  import opened TroveLedger
  import opened SystemRuns
  import opened IntegerOrder

  // Two active troves whose records a run leaves alone, whatever else it does: what separates their ratios before truncation
  // changes with the gain of the two accumulators alone, and the nominal ratios the list is sorted by are out of order by
  // less than what is missing, in parts of the two debts, as after a single redistribution.
  lemma OrderOverRun(s: Ledger, ops: seq<Op>, i: nat, j: nat)
    requires Inv(s) && i < |s.troves| && j < |s.troves| && s.troves[i].status.Active? && s.troves[j].status.Active?
    requires |Run(s, ops).troves| == |s.troves|
    requires Run(s, ops).troves[i] == s.troves[i] && Run(s, ops).troves[j] == s.troves[j]
    ensures
      var r, a, b := Run(s, ops), s.troves[i], s.troves[j];
      && GoodTrove(s, a) && GoodTrove(s, b) && GoodTrove(r, a) && GoodTrove(r, b)
      && var margin := Margin(s, a, b) + (r.LColl - s.LColl) * (a.stake * ExactDebt(s, b) - b.stake * ExactDebt(s, a))
                       - (r.LDebt - s.LDebt) * Imbalance(s, a, b);
      var missing := PRECISION * (ExactColl(r, a) + ExactDebt(r, b)) - margin;
      var d, d1 := ExactDebt(r, a) / PRECISION, ExactDebt(r, b) / PRECISION;
      && Margin(r, a, b) == margin && Imbalance(r, a, b) == Imbalance(s, a, b)
      && (missing <= 0 ==> NICR(r, a) >= NICR(r, b))
      && (NICR(r, b) - NICR(r, a) - 1) * (d * d1) * (PRECISION * PRECISION) < NICR_PRECISION * missing
  {
    hide Inv, Run, NICR, Margin, Imbalance, ExactColl, ExactDebt, GoodTrove;
    InvGoodPair(s, i, j);
    InvGoodPair(Run(s, ops), i, j);
    MarginBetween(s, Run(s, ops), s.troves[i], s.troves[j]);
    NominalByMargin(Run(s, ops), s.troves[i], s.troves[j]);
  }

  lemma InvGoodPair(s: Ledger, i: nat, j: nat)
    requires Inv(s) && i < |s.troves| && j < |s.troves|
    ensures GoodTrove(s, s.troves[i]) && GoodTrove(s, s.troves[j])
  {
  }
}
