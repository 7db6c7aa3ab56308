# Threshold USD: what the accounting keeps

A Dafny model of the accounting of Threshold USD, a collateralised debt protocol: troves, liquidations by
offset and by redistribution, redemptions, the Stability Pool, the sorted list of troves and the fee clock,
with the off-chain scripts beside them. The contracts are modelled in their own integers, with their own
truncation, carried errors and reverts. Where the documentation promises a law of exact arithmetic, that law is
proved over the reals as well, and for the integers it is stated when it holds, how far truncation takes the
numbers from it, and by which run.

## How it is laid out

| file | what it holds |
|---|---|
| `StabilityPool.dfy` | deposits, product `P`, sums `S`, epochs and scales; the contract as a class proved against functions on its state |
| `StabilityPoolSolvency.dfy`, `StabilityPoolPayout.dfy` | whether depositors can be paid: exact conditions per call, bounds over all runs, a run that fails |
| `ProductStall.dfy` | a run of openings, deposits and liquidations that brings `P` to 1 and makes the next liquidation revert |
| `StabilityPoolAccounts.dfy` | what an operation leaves its account with; the lower bounds on all runs |
| `StabilityPoolExact.dfy` | `P` and `S` over the reals against the plain loop they stand for |
| `CorrectedStakes.dfy` | redistribution over the reals: one ratio for all stakes, and why the list stays in order |
| `SortedTroves.dfy` | the doubly linked list with hints |
| `TroveLedger.dfy`, `Liquidation.dfy`, `Borrowing.dfy`, `Redemption.dfy` | troves and pools in integers: every operation, and what it keeps |
| `LiquidationTable.dfy`, `OperationRules.dfy` | who gets what in a liquidation, row by row and over a batch; when exactly every operation goes through and what it changes |
| `SystemRuns.dfy`, `RunSteps.dfy` | all operations as one state machine; the steps that the example runs are made of |
| `DebtCover.dfy`, `PendingDebtGap.dfy` | exactly when the default pool can pay every pending debt; a run in which it cannot |
| `IntegerOrder.dfy`, `IntegerOrderGap.dfy`, `OrderOverRuns.dfy` | when an integer redistribution keeps two troves in order, and how far they slip, in one call and over whole runs; a run in which they do |
| `SortedLedger.dfy` | the list as an order of the ledger's troves: where a redemption starts, whom it visits, and exactly when each operation leaves the list sorted |
| `ListRuns.dfy` | the list over whole runs: how each operation moves ids, and when the list is in order all along |
| `SkippedRewards.dfy`, `EdgeVisit.dfy` | runs at ordinary prices: a top-up that leaves the list out of order and hints that are not honoured; a redemption from a trove below MCR |
| `Registers.dfy`, `TroveManager.dfy` | the owners array and the list as registers of the active troves; the trove manager as a class over both: batch liquidation, redemption along the list and borrower calls, statement by statement |
| `FeeDecay.dfy` | the base rate, its clock and `_decPow` |
| `StakeDrift.dfy`, `MacroRedemption.dfy`, `BNConverter.dfy`, `MarketModel.dfy` | the scripts |

Accounts are indices; in the classes with a list account 0 is the null address. `None` is a Solidity revert; in
the classes a method returns `ok == false` where the transaction reverts. Prices, fees and hints are arbitrary
inputs. thUSD outside the Stability Pool and the gas pool is one number, whoever holds it.

## Where the code and its description differ

The model follows the code.

- The Stability Pool rounds losses up and feeds the rounding back into the next offset. The feedback can leave
  compounded deposits above the pool (`GapIsReal`: 499,999 wei, and the depositor cannot withdraw all). What
  each deposit is worth before its last truncation stays within the pool exactly under the condition of
  `OffsetCoveredExactly`, read off the state before the offset; over every run the gap is at most a 1e-18 part
  of the largest pool (`ClaimsWithinPeak`). Rounding down instead would lose cover at the first offset
  (`RoundingDownBreaksCover`).
- An offset that leaves next to nothing charges 1e18 per unit, as if it had emptied the pool: all deposits end
  at 0 and what is left belongs to nobody (`AllWrittenOffExactly`; an offset of 2000e18 against a pool of
  2000e18 + 1 strands one wei).
- A comment gives 1e9 as the least value of `P`. `P` can fall to 1 and an offset then revert
  (`ProductFloorExactly`, `ProductStallsExactly`). `ProductCanStall` is such a run: three liquidations of 2000 thUSD
  each, against pools of 3000 wei more, of which the third cannot be carried out.
- `hasPendingRewards` looks at the collateral accumulator alone. A redistribution of much debt and very little
  collateral is then skipped by the troves, and restaking them can leave the default pool short of their pending
  debt: `PendingDebtGap` is a run at a price of 2000 and a tenth less. `StepPayableExactly` says for every operation when
  it does, in terms of the state before it, and `RunPayableExactly` for every run; `LiquidateSyncedExactly` says
  when a liquidation lets the accumulators fall out of step.
- The same troves are put back into the list at a ratio that does not count their pending debt, while the list is
  read by ratios that do. After an adjustment, a moved gain or a partial redemption the list is in order again
  exactly when the trove's new lower neighbour is not above the ratio that counts it (`AdjustOrderExactly`,
  `GainOrderExactly`, `RedeemKeepsOrder`); `TopUpLosesOrder` is a run in which it is. Redemption hints count that
  debt and the redemption does not: the hints are honoured where no trove that the amount reaches has its rewards
  skipped (`HintsAreHonoured`), and `HintsNotHonoured` is a case in which one has.
- A redistribution is said to keep all troves in the order of their ratios. Over the reals it does
  (`OrderIsKept`). In the contracts' integers it does where the margin of `NominalOrderAfter` is there; without
  it two troves can change places, at ordinary prices by one unit of the nominal ratio (`IntegerOrderGap`). It is
  never more than that where their ratios before truncation stay in order and the first has at most ten units of
  collateral for each thUSD (`OrderSlipsByOne`). `LiquidateOrderExactly` says for a whole liquidation when the list is
  in order after it, and `RunInOrderExactly` for every run, step by step.
- An iteration limit given to `getRedemptionHints` is said to cap the loop. A limit that is used up while a trove and
  an amount are left is decremented below 0 and reverts (`GetRedemptionHints`); `ListHintsAreHonoured` is about the
  calls that do not revert.
- Redemptions are said to visit troves with ICR >= MCR in ascending order. The list is ordered by nominal ratios,
  which decide the comparison with MCR for every trove but one that has exactly the nominal ratio at the edge;
  unless the price divides MCR * 1e20 there are two troves of that ratio on either side of MCR
  (`RatiosAgreeExactly`). A redemption visits such a trove below MCR, and no other (`VisitedAboveMCR`), exactly when
  it starts at its equal and is for more than the debts between (`BelowMCRVisitedExactly`). `EdgeVisit` is a run in
  which it does, at a price of 2000 and a tenth less, one the price feed can give, with 1 wei between the two troves.
- README.md:1364-1368 lists a surplus that a Recovery Mode batch forgets to take out of its running TCR. The code
  takes it out: the running totals are exact at every step (`BatchStepKeeps`, `LiquidateKeepsInv`).
- README.md:174 has Recovery Mode do nothing from the TCR up. The code liquidates troves below MCR whatever the TCR
  (`RecoveryTable`).
- README.md:1028 gives a decay of 1% an hour. The parameter in the code halves the base rate in twelve hours
  (`HalfLifeIsTwelveHours`).
- README.md:597 gives a reserve of 50 thUSD and README.md:847 of 200; the code uses 200.
- With no PCV set, a borrowing fee is added to the debt and minted to nobody, and a redemption fee stays in the
  active pool; with the bootstrap loan, these are the terms by which supply and debt differ
  (`EveryRunKeepsTheBooks`).

## Model

| member | source | states |
|---|---|---|
| StabilityPool.CompoundedAtMostInitial | packages/contracts/contracts/StabilityPool.sol:527-569 | a compounded deposit never exceeds the deposit made, across scale and epoch changes |
| StabilityPool.ProductShrinks | packages/contracts/contracts/StabilityPool.sol:404-452 | after an offset P, in the units of its scale, is at most P times the factor, never 0 and never above 1e18 |
| StabilityPool.SettleKeepsValid | packages/contracts/contracts/StabilityPool.sol:601-623 | paying out and re-recording a deposit keeps every snapshot consistent with P, S, scale and epoch |
| StabilityPool.OffsetKeepsValid | packages/contracts/contracts/StabilityPool.sol:347-452 | an offset keeps every snapshot consistent, so no later read underflows or divides by zero |
| StabilityPool.Run | packages/contracts/contracts/StabilityPool.sol:257-358 | validity holds in every state of every run of deposits, withdrawals and offsets |
| StabilityPool.Contract.constructor | packages/contracts/contracts/StabilityPool.sol:167-180 | a new pool is empty, with P = 1e18 |
| StabilityPool.Contract.GetCompoundedDeposit | packages/contracts/contracts/StabilityPool.sol:516-569 | the contract's branches compute the compounded deposit, at most the initial one |
| StabilityPool.Contract.GetCollateralGain | packages/contracts/contracts/StabilityPool.sol:480-508 | the contract's two portions compute the collateral gain, which is what the deposit has earned to within its three truncations, from below and above (`GainAboveEarned`, `GainBelowEarned`) |
| StabilityPool.Contract.UpdateDepositAndSnapshots | packages/contracts/contracts/StabilityPool.sol:601-623 | records the deposit with fresh snapshots, or clears it at 0, and touches no other |
| StabilityPool.Contract.ProvideToSP | packages/contracts/contracts/StabilityPool.sol:257-275 | the whole new state, when it reverts, and that validity is kept; the deposit is what it had come to and the amount (`ProvideExactly`) |
| StabilityPool.Contract.WithdrawFromSP | packages/contracts/contracts/StabilityPool.sol:283-304 | the whole new state, when it reverts, and that validity is kept |
| StabilityPool.Contract.WithdrawCollateralGainToTrove | packages/contracts/contracts/StabilityPool.sol:310-338 | the whole new state, when it reverts, and that validity is kept |
| StabilityPool.Contract.ComputeRewardsPerUnitStaked | packages/contracts/contracts/StabilityPool.sol:362-401 | gain and loss per unit with both carried errors, and when it reverts |
| StabilityPool.Contract.UpdateRewardSumAndProduct | packages/contracts/contracts/StabilityPool.sol:404-452 | the new P, S, scale and epoch, and when it reverts |
| StabilityPool.Contract.OffsetDebt | packages/contracts/contracts/StabilityPool.sol:347-358 | the whole new state of an offset, unchanged if it reverts |
| StabilityPoolSolvency.WorthBounds | packages/contracts/contracts/StabilityPool.sol:527-569 | a compounded deposit is at most its worth before the last truncation |
| StabilityPoolSolvency.DustExactly | packages/contracts/contracts/StabilityPool.sol:552-568 | a deposit is written off where its worth is below a 1e-9 part of what was put in, and never from one unit above that on |
| StabilityPoolSolvency.OffsetCoveredExactly | packages/contracts/contracts/StabilityPool.sol:362-452 | after an offset the deposits' worth before their last truncation is within the pool if and only if the loss per unit is 1e18, or the fed-back error is within the new error (a remainder of the loss numerator), the cover left on the surviving deposits and what truncating P drops: all read off the state before |
| StabilityPoolSolvency.ClaimsAfterOffset | packages/contracts/contracts/StabilityPool.sol:362-452 | for the whole numbers that depositors can claim the same condition is sufficient, one way; and if the claims are within the pool, the worth is within it up to what the truncation of each claim takes |
| StabilityPoolSolvency.AllWrittenOffExactly | packages/contracts/contracts/StabilityPool.sol:384-440 | an offset charges 1e18 per unit, starts a new epoch and leaves all deposits at 0 if and only if it takes the whole pool, or what is left times 1e18 and the fed-back error are within the pool's total: the remainder is then stranded |
| StabilityPoolSolvency.RoundingDownBreaksCover | packages/contracts/contracts/StabilityPool.sol:387-400 | with the loss rounded down, the first offset leaves a fresh deposit's worth above the pool if and only if debt * 1e18 is not a multiple of the total, and its claim from a remainder of 1e18 on |
| StabilityPoolSolvency.CoverKeptWithoutFeedback | packages/contracts/contracts/StabilityPool.sol:387-400 | with no error fed back, rounding the loss up keeps the deposits covered |
| StabilityPoolSolvency.ClaimsWithinPeak | packages/contracts/fuzzTests/PoolManager_AllDepositorsCanWithdrawTest.js:12-17 | over every run the compounded deposits exceed the pool by at most a 1e-18 part of the largest pool seen |
| StabilityPoolSolvency.GapIsReal | packages/contracts/fuzzTests/PoolManager_AllDepositorsCanWithdrawTest.js:165-205 | a run of one deposit and two offsets, with their collateral, after which the depositor cannot withdraw everything |
| StabilityPoolPayout.WithdrawAllExactly | packages/contracts/fuzzTests/PoolManager_AllDepositorsCanWithdrawTest.js:165-205 | a round of withdrawals in a given order succeeds if and only if the pool holds what is taken and the collateral what is owed, whatever the order; and what it leaves |
| StabilityPoolPayout.EveryoneCanWithdraw | packages/contracts/fuzzTests/PoolManager_AllDepositorsCanWithdrawTest.js:12-17 | with the claims held, everyone withdraws everything in any order and ends at deposit 0 |
| StabilityPoolPayout.AttemptWithdrawAllDeposits | packages/contracts/fuzzTests/PoolManager_AllDepositorsCanWithdrawTest.js:165-205 | the withdrawal loop on the contract object: exactly when it gets through, and what it pays |
| StabilityPoolPayout.OffsetEarns | packages/contracts/contracts/StabilityPool.sol:404-425 | an offset earns each deposit its worth times the gain per unit, whatever scale it was made at |
| StabilityPoolPayout.GainsNeverExceedCollateral | packages/contracts/contracts/StabilityPool.sol:480-508 | where offsets find the deposits covered, all collateral gains together never exceed the collateral held |
| StabilityPoolPayout.GainsWithinPeak | packages/contracts/contracts/StabilityPool.sol:480-508 | over every run they exceed it by at most the largest pool times the collateral paid per unit times 1e-36 |
| StabilityPoolPayout.ProductStallsExactly | packages/contracts/contracts/StabilityPool.sol:404-452 | the update of P fails if and only if P times the factor is below 1e9 and not 0 |
| StabilityPoolPayout.OffsetSucceedsExactly | packages/contracts/contracts/StabilityPool.sol:347-401 | with P at 1e9 or more an offset succeeds if and only if the debt is within the pool and, unless it empties it, not below the fed-back error |
| StabilityPoolPayout.OffsetExactly | packages/contracts/contracts/StabilityPool.sol:347-452 | the same for every P: an offset reverts if and only if it asks for too much, the fed-back error exceeds the loss, or the product would be stored as 0 |
| StabilityPoolPayout.GainBelowEarned | packages/contracts/contracts/StabilityPool.sol:490-508 | a gain is never more than what the deposit has earned |
| StabilityPoolAccounts.GainAboveEarned | packages/contracts/contracts/StabilityPool.sol:490-508 | nor less than that but for the three truncations, in every epoch, past ones included, and across a change of scale |
| StabilityPoolAccounts.ProvideExactly | packages/contracts/contracts/StabilityPool.sol:257-275 | a provision goes through if and only if it is for something and the gain is there; then the deposit is what it had come to and the amount, the gain is paid and back at 0, and every other account's deposit and gain are what they were |
| StabilityPoolAccounts.WithdrawExactly | packages/contracts/contracts/StabilityPool.sol:283-304 | likewise a withdrawal, which takes off the amount or all there is, and reverts where withdrawals are suspended |
| StabilityPoolAccounts.GainToTroveExactly | packages/contracts/contracts/StabilityPool.sol:310-338 | likewise moving the gain to the trove, which leaves the deposit |
| StabilityPoolAccounts.RunUntouched | packages/contracts/contracts/StabilityPool.sol:404-452 | in every state of every run no sum is recorded for an epoch or a scale ahead, which is what those three need |
| StabilityPoolAccounts.ResidueWithin | packages/contracts/contracts/StabilityPool.sol:362-452 | the other side of the cover: over every run the pool exceeds the deposits' worth by no more than the sum of what settling rounds off, changes of scale write off, and one unit of P and of the loss per offset |
| StabilityPoolAccounts.ClaimsReachPool | packages/contracts/contracts/StabilityPool.sol:516-569 | so the whole numbers the depositors can claim reach the pool but for that and the last rounding |
| StabilityPoolAccounts.SpareWithin | packages/contracts/contracts/StabilityPool.sol:362-401 | the other side of the gains: over every run the collateral held exceeds what the deposits have earned by no more than the truncations of the gains paid and the gain on the pool's excess |
| StabilityPoolAccounts.GainsReachCollateral | packages/contracts/contracts/StabilityPool.sol:480-508 | so what the depositors can be paid reaches the collateral but for that and the last truncations |
| StabilityPoolPayout.ProductFloorExactly | packages/contracts/contracts/StabilityPool.sol:60-73 | P stays at 1e9 or more if and only if P times the factor is at least 1e18 or the loss per unit is 1e18 |
| ProductStall.StallingRunEnds | packages/contracts/contracts/StabilityPool.sol:60-73 | four openings, three deposits and two liquidations at a price of 2000 and a tenth less, all valid, reach the state below |
| ProductStall.ProductCanStall | packages/contracts/contracts/StabilityPool.sol:60-73 | in it P is 1, the pool holds 3000 wei more than the debt of a trove below MCR, and the liquidation of that trove reverts |
| StabilityPoolExact.SettleAgrees | README.md:963-973 | a deposit or withdrawal keeps lazy and plain bookkeeping equal |
| StabilityPoolExact.OffsetAgrees | README.md:950-973 | so does a liquidation, for every depositor at once, and when it empties the pool |
| StabilityPoolExact.RunsAgree | README.md:950-973 | over every run each deposit and each gain equals the plain model's, deposits sum to the pool, unpaid gains to the collateral |
| CorrectedStakes.RedistributeKeepsInv | README.md:1038-1068 | a redistribution and the snapshots after it keep one stake ratio for all troves |
| CorrectedStakes.StepKeepsInv | README.md:1050-1068 | so does every opening, adjustment, closing and liquidation |
| CorrectedStakes.ChangeEffect | packages/contracts/contracts/BorrowerOperations.sol:174-394 | opening, adjusting and closing change the entire amounts of their trove as asked and no others, whatever is pending |
| CorrectedStakes.OneRatioForAll | README.md:1050-1068 | in every reachable state each active trove's stake is the one its entire collateral would get now |
| CorrectedStakes.RedistributeKeepsOrder | README.md:1034-1036 | a redistribution keeps the order of any two ratios, in both directions |
| CorrectedStakes.OrderIsKept | README.md:1034-1036 | over every run two troves left alone keep their order, and equal ratios stay equal |
| CorrectedStakes.RawStakesBreakOrder | README.md:1044-1048 | a run from the empty system with stakes equal to raw collateral, in which the last redistribution reverses two troves it does not touch |
| SortedTroves.InsertKeepsSorted | packages/contracts/contracts/SortedTroves.sol:106-143 | inserting at a slot keeps the list sorted from high to low |
| SortedTroves.AnySlotIsPlainInsertion | packages/contracts/contracts/SortedTroves.sol:296-312 | whichever slot the hints lead to, the list of ratios is that of plain sorted insertion |
| SortedTroves.MonotoneChangeKeepsSorted | README.md:671-683 | ratios that change without changing order leave the list sorted: used for the troves an operation does not touch |
| SortedTroves.LinkInKeepsLinked | packages/contracts/contracts/SortedTroves.sol:118-139 | the link updates of an insertion keep forward and backward links inverse |
| SortedTroves.LinkOutKeepsLinked | packages/contracts/contracts/SortedTroves.sol:165-195 | so do those of a removal |
| SortedTroves.List.ValidInsertPositionMeaning | packages/contracts/contracts/SortedTroves.sol:296-312 | hints are accepted if and only if they are the neighbours of a slot |
| SortedTroves.List.DescendList | packages/contracts/contracts/SortedTroves.sol:320-337 | the descent ends at a slot, sorted list or not |
| SortedTroves.List.AscendList | packages/contracts/contracts/SortedTroves.sol:344-361 | the ascent ends at a slot |
| SortedTroves.List.FindInsertPosition | packages/contracts/contracts/SortedTroves.sol:372-403 | for any hints, missing, stale or the trove's own id, the search ends at a slot |
| SortedTroves.List.Insert | packages/contracts/contracts/SortedTroves.sol:106-143 | when it reverts, where the id ends up, that a sorted list stays sorted and good hints are used as they are |
| SortedTroves.List.LinkNode | packages/contracts/contracts/SortedTroves.sol:118-139 | the link updates put the id between the two neighbours |
| SortedTroves.List.Remove | packages/contracts/contracts/SortedTroves.sol:162-198 | removes exactly that id, if it is there |
| SortedTroves.List.ReInsert | packages/contracts/contracts/SortedTroves.sol:206-219 | the id moves to a slot for its new ratio and the list is sorted again |
| SortedTroves.List.RemoveAndRestore | packages/contracts/contracts/SortedTroves.sol:106-198 | removing and reinserting with the old neighbours as hints restores the list |
| TroveLedger.ClaimOfPending | packages/contracts/contracts/TroveManager.sol:1073-1098 | truncation withholds less than one unit of a trove's pending rewards |
| TroveLedger.PendingCollInPool | packages/contracts/errorAccumulationTest/errorAccumulationTest.js:258-288 | with claims covered the default pool can pay the pending collateral of any trove |
| TroveLedger.PendingDebtInPool | packages/contracts/errorAccumulationTest/errorAccumulationTest.js:258-288 | likewise for pending debt |
| TroveLedger.ApplyPendingKeeps | packages/contracts/contracts/TroveManager.sol:1033-1058 | applying rewards keeps all books and totals, and cannot revert while claims are covered |
| TroveLedger.SetTroveKeeps | packages/contracts/contracts/TroveManager.sol:1148-1175 | a new stake keeps the books up to the change made, and fails only for lack of a stake snapshot |
| TroveLedger.CloseOutKeeps | packages/contracts/contracts/TroveManager.sol:1218-1235 | closing keeps the books with the trove's holdings in hand; it fails exactly for the last trove while minting is allowed |
| TroveLedger.TakeOutKeeps | packages/contracts/contracts/TroveManager.sol:285-317 | so does taking a liquidated trove out with its pending rewards |
| TroveLedger.RedistributeKeeps | packages/contracts/contracts/TroveManager.sol:1177-1211 | a redistribution hands out all of its debt and collateral up to errors below the total stakes, and leaves the slack of the claims unchanged |
| TroveLedger.RedistributeSyncedExactly | packages/contracts/contracts/TroveManager.sol:1100-1109 | it keeps the two accumulators in step if and only if it raises the collateral one, or neither, or all active troves lag already |
| Liquidation.OffsetConserves | packages/contracts/contracts/TroveManager.sol:402-433 | debt = offset + redistributed, collateral = gas share + pool share + redistributed, offset = min(debt, pool) |
| Liquidation.CappedOffsetConserves | packages/contracts/contracts/TroveManager.sol:438-460 | the capped row conserves and never underflows; how the cap is split is in `RecoveryTable` |
| Liquidation.RecoveryConserves | packages/contracts/contracts/TroveManager.sol:320-397 | every row of the Recovery Mode table conserves, and which rows do nothing |
| Liquidation.OffsetKeepsRatio | README.md:889-893 | offset and redistributed parts carry the trove's ratio, short by less than one unit |
| Liquidation.RowsMeet | README.md:157-174 | at SP = debt the pure and the mixed row agree, in the case the Recovery Mode table leaves out |
| LiquidationTable.NormalTable | README.md:157-163 | the Normal Mode table for every debt, collateral and Stability Pool: what the caller, the Stability Pool and the other troves get of a trove below MCR, and nothing for its owner |
| LiquidationTable.RecoveryTable | README.md:165-174 | the Recovery Mode table likewise, for all ratios: which row applies, who gets what in it, and the capped row with the caller's share of the cap, the Stability Pool's rest of it and the owner's surplus above it |
| Liquidation.BatchStepKeeps | packages/contracts/contracts/TroveManager.sol:660-748 | every step of a batch in either mode keeps the books, and in Recovery Mode the running totals exact |
| Liquidation.Batch | packages/contracts/contracts/TroveManager.sol:660-748 | so does a batch of any length, over any addresses, repeated or inactive ones included |
| LiquidationTable.StepByTable | packages/contracts/contracts/TroveManager.sol:660-744 | a step of a batch takes the trove if and only if it is active, can be liquidated and is not the last one in Recovery Mode, with the row that applies, and credits its owner alone |
| LiquidationTable.BatchByTable | packages/contracts/contracts/TroveManager.sol:660-771 | every batch is a sequence of rows: each that of the table for the trove as it was before the batch, with the Stability Pool, the ratio and the mode the rows before it left; the totals are their sum, their owners are credited, and nobody else is touched |
| LiquidationTable.TakenExactly | packages/contracts/contracts/TroveManager.sol:660-744 | and every id adds its row if and only if it is due after the rows of the ids before it |
| LiquidationTable.StepRevertsExactly | packages/contracts/contracts/TroveManager.sol:285-389 | a step reverts if and only if the trove is due and its pending debt is not in the default pool, or it is the last one in Normal Mode while troves can be opened |
| LiquidationTable.NormalTotals | README.md:157-163 | in Normal Mode a whole batch offsets all its debt as far as the Stability Pool reaches, leaves no surplus, and gives the caller 200 thUSD a trove and a two-hundredth of the collateral to within 199 wei a trove |
| Liquidation.SettleKeeps | packages/contracts/contracts/TroveManager.sol:637-657 | offset, redistribution, surplus, snapshots and gas payment place everything the batch took |
| Liquidation.LiquidateKeepsInv | packages/contracts/contracts/TroveManager.sol:614-658 | a whole liquidation keeps all books; who got what; the ratio tracked inside is the ratio afterwards |
| LiquidationTable.LiquidationByTable | packages/contracts/contracts/TroveManager.sol:614-658 | a whole liquidation closes the troves of its rows, credits their owners, and moves the sum of the rows: to the Stability Pool, the caller, the surplus pool and the accumulators |
| LiquidationTable.LiquidateExactly | packages/contracts/contracts/TroveManager.sol:614-658 | it goes through if and only if its batch does and takes a trove, the Stability Pool takes its part, and stakes are left for a redistribution |
| Liquidation.LiquidateSyncedExactly | packages/contracts/contracts/TroveManager.sol:614-658 | when, in terms of its totals, a liquidation leaves the two accumulators in step |
| Liquidation.FullOffsetNeverLowersTCR | README.md:165-174 | offsetting a trove at or below the TCR never lowers the truncated TCR |
| Liquidation.RatioBelow | packages/contracts/contracts/Dependencies/LiquityMath.sol:99-108 | a comparison of truncated ratios decides the exact one |
| Liquidation.PartialOffsetOnTCR | README.md:165-174 | offsetting a part of such a trove, in proportion, lowers it by no more than the gas share does |
| Liquidation.RecoveryStepOnTCR | packages/contracts/contracts/TroveManager.sol:660-716 | what a Recovery Mode step does to the TCR in each row; a mixed offset of a trove below the TCR lowers it by its gas share at most, a full one not at all |
| Borrowing.OpenKeeps | packages/contracts/contracts/BorrowerOperations.sol:174-236 | opening keeps all books and never leads from Normal to Recovery Mode |
| OperationRules.OpenExactly | packages/contracts/contracts/BorrowerOperations.sol:174-236 | an opening goes through if and only if the trove is at or above MCR and the system at or above CCR, in Recovery Mode the trove at or above CCR, and the rest of what the call asks for is there |
| OperationRules.OpenEffect | packages/contracts/contracts/BorrowerOperations.sol:174-236 | the new trove, its debt with the reserve and the fee, waived in Recovery Mode, and what it adds to pools and tokens; the other troves are untouched |
| Borrowing.AdjustKeeps | packages/contracts/contracts/BorrowerOperations.sol:287-358 | so does any adjustment, while on the mint list |
| OperationRules.AdjustExactly | packages/contracts/contracts/BorrowerOperations.sol:287-358 | an adjustment goes through if and only if it asks for something, the mode allows the new amounts, and collateral, debt, tokens and the right to mint are there |
| OperationRules.AdjustEffect | packages/contracts/contracts/BorrowerOperations.sol:287-358 | the new collateral and debt, the tokens moved and the fee, waived in Recovery Mode; the other troves are untouched |
| OperationRules.AdjustedWithinMode | packages/contracts/contracts/BorrowerOperations.sol:539-580 | on the mint list an adjustment in Recovery Mode never lowers the collateral and raises the debt only to a ratio from CCR and from the old ratio on; in Normal Mode the trove ends at or above MCR and the system at or above CCR |
| Borrowing.MoveTokensKeeps | packages/contracts/contracts/BorrowerOperations.sol:462-480 | token and collateral movements match the change of the trove |
| Borrowing.CloseKeeps | packages/contracts/contracts/BorrowerOperations.sol:360-394 | so does closing |
| OperationRules.CloseExactly | packages/contracts/contracts/BorrowerOperations.sol:360-394 | closing goes through if and only if it is not in Recovery Mode or into it, not the last trove, and the tokens are there; and what it takes out of pools and tokens |
| Borrowing.ClaimSurplusKeeps | packages/contracts/contracts/BorrowerOperations.sol:399-402 | a claim pays out exactly the account's surplus |
| OperationRules.ClaimExactly | packages/contracts/contracts/CollSurplusPool.sol:80-92 | if and only if there is a surplus the whole of it is paid out, that account's and no other's |
| Borrowing.ProvideKeeps | packages/contracts/contracts/StabilityPool.sol:257-275 | a deposit moves thUSD and changes nothing else in the books |
| Borrowing.WithdrawKeeps | packages/contracts/contracts/StabilityPool.sol:283-304 | likewise a withdrawal |
| Borrowing.GainToTroveKeeps | packages/contracts/contracts/StabilityPool.sol:310-338 | moving a gain into a trove keeps the books of both sides |
| OperationRules.GainToTroveEffect | packages/contracts/contracts/BorrowerOperations.sol:244-249 | the whole gain becomes collateral of the depositor's trove, and no debt or deposit changes |
| OperationRules.TakeLoanExactly | packages/contracts/contracts/BorrowerOperations.sol:162-165 | the bootstrap loan is minted against no trove's debt |
| OperationRules.PayLoanExactly | packages/contracts/contracts/PCV.sol:156-163 | a payment goes through if and only if something is owed and the tokens are there, and burns no more than is owed |
| Redemption.RedeemOneKeeps | packages/contracts/contracts/TroveManager.sol:787-861 | one redemption keeps the books with what is drawn and burned in hand; a partial one takes all that remains |
| Redemption.RedeemOneVisits | packages/contracts/contracts/TroveManager.sol:787-861 | its effect on the trove, the surplus, the gas pool and the supply, at the debt the visit finds, rewards skipped or not; and that nothing else changes |
| Redemption.RedeemOneDecides | packages/contracts/contracts/TroveManager.sol:801-828 | when it closes the trove, and when the hint or the minimum debt cancels it, at the debt the visit finds |
| OperationRules.RedeemOneExactly | packages/contracts/contracts/TroveManager.sol:787-844 | a visit goes through if and only if the rewards can be applied, the collateral covers the lot, and the trove can be closed or, at a right hint, restaked |
| Redemption.RedeemLoopKeeps | packages/contracts/contracts/TroveManager.sol:947-971 | the loop keeps all books |
| Redemption.RedeemLoopEffect | README.md:182-208 | for every queue of distinct active troves: a prefix is closed, only the next trove can be partly redeemed and exactly when its debt is more than what is left, thUSD burned = debt cancelled above the reserves, collateral at face value less truncation, nothing else touched |
| Redemption.ReachedExactly | README.md:182-208 | a redemption comes to a trove of the queue if and only if it is for more than the debts, above the reserves, of the troves before it |
| Redemption.CancelKeepsEarlierSteps | README.md:785-793 | a mismatch with the hinted NICR leaves exactly the outcome of the shorter queue |
| Redemption.HintsAreHonoured | packages/contracts/contracts/HintHelpers.sol:63-119 | redeeming the truncated amount with the computed hint, on the same state, is never cancelled and redeems all of it, where every trove that the amount reaches has at its visit the debt the hints count |
| Redemption.HintsKeepBack | packages/contracts/contracts/HintHelpers.sol:83-119 | what the hints keep back of the amount, in closed form: what the queue cannot take, or what would leave the next trove less than the least debt |
| Redemption.HintsTakeAll | packages/contracts/contracts/HintHelpers.sol:52-58 | so the truncated amount is the largest: no amount above it, up to the one asked for, is redeemed in full on that queue, with any hint |
| Redemption.SyncedSkipsNone | packages/contracts/contracts/TroveManager.sol:1100-1109 | that is so for every queue and amount while the accumulators are in step |
| Redemption.HintsOfPrefix | packages/contracts/contracts/HintHelpers.sol:83-119 | hints computed within an iteration limit are those of any longer part of the queue: a redemption with as many iterations sees all the troves they count |
| Redemption.OutcomeByDebts | packages/contracts/contracts/TroveManager.sol:947-971 | the debts in the queue alone decide how many troves a redemption closes and how much is left for the next one, which gives that part if and only if its collateral covers it, enough debt remains and the hint is right |
| Redemption.RedeemKeeps | packages/contracts/contracts/TroveManager.sol:896-997 | a whole redemption, fee included, keeps all books |
| OperationRules.RedeemExactly | packages/contracts/contracts/TroveManager.sol:896-997 | a redemption goes through if and only if the feed is not active, TCR >= MCR, the amount is there, the loop goes through and the fee is less than what is drawn; and what it burns and pays |
| SystemRuns.StepKeeps | packages/contracts/contracts/BorrowerOperations.sol:162-402 | every operation of the system keeps the invariant; debt claims too while the accumulators are in step, and only a liquidation can take them out of step |
| SystemRuns.Run | packages/contracts/contracts/TroveManager.sol:614-997 | so does every run, reverted calls included |
| SystemRuns.EveryRunKeepsTheBooks | README.md:845-861 | in every state of every run: supply = debt + loan - unminted fees, gas pool = 200 thUSD per active trove, pools match troves; pending collateral is payable, and the pool exceeds the claims by at least the carried error, itself below totalStakes at the last redistribution, and by less than that total plus one unit per reward application |
| SystemRuns.SyncedRunPaysDebt | packages/contracts/contracts/TroveManager.sol:1033-1109 | while the accumulators stay in step the default pool can pay every pending debt, within the same closed bounds |
| DebtCover.AdjustPayableExactly | packages/contracts/contracts/BorrowerOperations.sol:287-358 | after an adjustment the pool covers the debt claims if and only if what the new stake adds to the claims of a trove whose rewards were skipped is within the slack before it |
| DebtCover.GainToTrovePayableExactly | packages/contracts/contracts/StabilityPool.sol:310-338 | likewise for moving a gain into a trove |
| DebtCover.RedeemPayableExactly | packages/contracts/contracts/TroveManager.sol:896-997 | likewise for a redemption, read off the queue's debts and the amount: the new claims of the trove that gives the last part, against the slack and what the troves before it free |
| DebtCover.SlackAfterRedemption | packages/contracts/contracts/TroveManager.sol:947-971 | a redemption adds to the slack what the closed troves' claims free, and takes off what the partly redeemed one claims with its new stake where its rewards are skipped |
| DebtCover.LiquidateSlack | packages/contracts/contracts/TroveManager.sol:614-658 | a liquidation never lowers the slack |
| DebtCover.StepPayableExactly | packages/contracts/contracts/TroveManager.sol:1033-1109 | for every operation: the claims stay covered if and only if a condition on the state before it holds |
| DebtCover.RunPayableExactly | packages/contracts/contracts/TroveManager.sol:1033-1109 | for every run: they are covered throughout if and only if every step that goes through meets that condition |
| DebtCover.EveryPendingDebtPayable | packages/contracts/contracts/TroveManager.sol:778-782 | from the empty system such a run leaves every pending debt payable, in step or not |
| PendingDebtGap.GapIsReached | packages/contracts/contracts/TroveManager.sol:1100-1109 | two openings, a deposit, a liquidation and a top-up at a price of 2000 and a tenth less, all valid, reach the state below |
| PendingDebtGap.PendingDebtExceedsPool | packages/contracts/contracts/TroveManager.sol:778-782 | in it 19,999,999 wei of debt are pending against 10,000,000 in the default pool, and the trove cannot be taken out |
| IntegerOrder.RedistributeOrderExactly | README.md:1034-1036 | the ratios before truncation stay in order across an integer redistribution if and only if the margin before it, with what the rewards add, makes up for the stakes' imbalance |
| IntegerOrder.RedistributionKeepsImbalance | README.md:1050-1068 | a redistribution leaves the imbalance of any two stakes as it is: what truncation did at staking is not fed on |
| IntegerOrder.MarginBetween | README.md:1034-1036 | between any two ledgers the margin of two records differs by the gain of the two accumulators alone, however many redistributions that took |
| IntegerOrder.FreshStakesAlmostBalanced | packages/contracts/contracts/TroveManager.sol:1148-1175 | stakes cut from the same snapshots are out of proportion by at most one unit of stake, and not at all before the first liquidation |
| IntegerOrder.BalancedOrderIsKept | README.md:1034-1036 | stakes in proportion keep the order of the ratios before truncation, both ways, whatever is redistributed |
| IntegerOrder.NominalOrderAfter | README.md:1034-1036 | with a margin on entire collateral, debt and stake before the call two troves keep their order in the list; without it they slip by less than what is missing, in parts of the two debts |
| IntegerOrder.NominalOrderNeeds | README.md:1034-1036 | and they keep it only if that margin is there up to one unit of the nominal ratio and the truncation |
| IntegerOrder.OrderSlipsByOne | README.md:1034-1036 | where the ratios before truncation stay in order they slip by one unit of the nominal ratio at most |
| IntegerOrderGap.OrderRunEnds | packages/contracts/contracts/TroveManager.sol:1177-1211 | three openings and a liquidation at prices of 40,000 and 20,000, all valid, reach the state below |
| IntegerOrderGap.OrderIsLost | README.md:1034-1036 | in it two troves that were in order by one unit are out of order by one unit |
| OrderOverRuns.OrderOverRun | README.md:1034-1036 | over every run that leaves two troves' records alone their margin is that, and their nominal ratios are in order with enough of it and otherwise slip by less than what is missing, as after one redistribution |
| SortedLedger.RatiosAgreeExactly | packages/contracts/contracts/Dependencies/LiquityMath.sol:88-108 | a trove with no lower nominal ratio than one at or above MCR is at or above MCR, for all troves, if and only if the price divides MCR * 1e20 |
| SortedLedger.VisitedAboveMCR | README.md:182-208 | on the list in order, every trove a redemption can visit, from a valid hint or the walk, has ICR >= MCR or exactly the nominal ratio at the edge; where the price divides MCR * 1e20 the troves it can visit are those with ICR >= MCR and no others |
| SortedLedger.BelowMCRVisitedExactly | README.md:182-208 | for a given list and amount: a redemption visits a trove below MCR if and only if the trove it starts at has the nominal ratio at the edge, the other has it too and is below MCR, and the amount exceeds the debts of the troves before it |
| EdgeVisit.EdgeRunEnds | packages/contracts/contracts/TroveManager.sol:932-971 | three openings and a redemption at a price of 2000 and at 1e36 / 555555555555556, all valid |
| EdgeVisit.TroveBelowMCRIsRedeemed | README.md:182-208 | in that run the list is in order, the walk stops at a trove at MCR, and the redemption goes on to one below MCR and closes it |
| SortedLedger.QueueAscends | README.md:182-208 | they are distinct active troves in ascending order of their ratios |
| SortedLedger.RatioAtVisit | packages/contracts/contracts/TroveManager.sol:947-971 | each still has at its visit the ICR it had at the start, so the bound holds there, rewards skipped or not |
| SortedLedger.FirstHintIsTheWalk | packages/contracts/contracts/TroveManager.sol:863-873 | on the list in order a first hint is accepted if and only if it is where the walk stops, as long as no listed trove at the edge is below MCR |
| SortedLedger.EntryExactly | packages/contracts/contracts/TroveManager.sol:932-945 | a redemption starts at the hinted trove if it is at or above MCR with the next one below, and otherwise at the lowest trove at or above MCR |
| SortedLedger.RedemptionKeepsSorted | README.md:202-208 | after the loop the list without the closed troves is sorted by the ratios after it; with the partly redeemed one put back at any slot for the hinted ratio it is sorted if and only if the trove's lower neighbour is not above its own ratio, known before the call |
| SortedLedger.RedeemKeepsOrder | packages/contracts/contracts/TroveManager.sol:896-997 | the same for the whole call; without skipped rewards the two ratios are one and the list is in order again |
| SortedLedger.ListHintsAreHonoured | packages/contracts/contracts/HintHelpers.sol:63-119 | hints computed along the list, walk and iteration limit included, start a redemption of as many iterations where they say, are never cancelled and redeem the truncated amount, where no trove they reach skips rewards |
| SortedLedger.OpenKeepsOrder | packages/contracts/contracts/BorrowerOperations.sol:174-236 | the list stays sorted when a trove is opened and inserted at a slot |
| SortedTroves.InsertSortsExactly | packages/contracts/contracts/SortedTroves.sol:106-143 | an id put at a slot for more than its ratio leaves the list sorted if and only if its lower neighbour has no higher ratio |
| SortedLedger.RatioAfterChange | packages/contracts/contracts/TroveManager.sol:1148-1175 | the ratio a trove has after new collateral, debt and stake, from the state before: it counts the debt that stays pending where rewards are skipped |
| SortedLedger.AdjustOrderExactly | packages/contracts/contracts/BorrowerOperations.sol:287-358 | adjusted and put back at a slot for the ratio of its new collateral and debt, a trove leaves the list in order if and only if its lower neighbour is not above that ratio |
| SortedLedger.AdjustKeepsOrder | packages/contracts/contracts/BorrowerOperations.sol:287-358 | where no debt stays pending on it the list is in order again |
| SortedLedger.GainOrderExactly | packages/contracts/contracts/BorrowerOperations.sol:244-249 | likewise if and only if, when a collateral gain is moved into it |
| SkippedRewards.OrderRunEnds | packages/contracts/contracts/BorrowerOperations.sol:287-358 | the run of the pending debt up to its liquidation, an opening and a top-up, all valid, reach the state below |
| SkippedRewards.TopUpLosesOrder | packages/contracts/contracts/BorrowerOperations.sol:337-342 | before the top-up the list is in order; after it the only slot for the ratio the list is told is above a trove with a higher ratio |
| SkippedRewards.HintsNotHonoured | packages/contracts/contracts/HintHelpers.sol:63-119 | on that run's state the hints for 10,000,000 wei lead to a redemption that is cancelled |
| SortedLedger.CloseKeepsOrder | packages/contracts/contracts/BorrowerOperations.sol:360-394 | when one is closed and removed |
| SortedTroves.NeighboursDecide | packages/contracts/contracts/SortedTroves.sol:24-31 | a list is sorted if and only if no id is above the one before it |
| SortedLedger.LiquidateOrderExactly | packages/contracts/contracts/TroveManager.sol:614-658 | after a liquidation the survivors are in order if and only if none, with its share of the redistribution, is above the survivor before it; the share is computed from the records before the call, the batch totals and the stakes left |
| SortedLedger.LiquidateKeepsOrder | packages/contracts/contracts/TroveManager.sol:614-658 | they are if every two neighbours have, before the call, the margin of the redistribution |
| ListRuns.StepOrderExactly | packages/contracts/contracts/SortedTroves.sol:24-31 | every operation, with the list changed as the contracts change it, leaves a list in order that way if and only if a condition on the state and the list before it holds |
| ListRuns.RunInOrderExactly | packages/contracts/contracts/SortedTroves.sol:24-31 | over every run the list is in order in all states if and only if every call meets that condition |
| ListRuns.FromEmptyList | packages/contracts/contracts/SortedTroves.sol:24-31 | so it is from the empty system on |
| ListRuns.OutcomeForeseen | packages/contracts/contracts/TroveManager.sol:947-971 | which ids a redemption takes out of the list, and which one it puts back, is decided by the list, the debts and the amount |
| ListRuns.RewardsAppliedOrderly | packages/contracts/contracts/BorrowerOperations.sol:287-358 | the condition holds for every change of a trove whose rewards are not skipped |
| ListRuns.MarginOrderly | packages/contracts/contracts/TroveManager.sol:614-658 | and for every liquidation with the margin between its survivors |
| Registers.RemovalKeepsListed | packages/contracts/contracts/TroveManager.sol:1277-1300 | moving the last owner into the gap keeps every index right and lists every active trove once |
| Registers.AdditionKeepsListed | packages/contracts/contracts/TroveManager.sol:1263-1275 | so does appending an owner |
| Registers.ClosingKeepsRegistered | packages/contracts/contracts/TroveManager.sol:1218-1235 | closing a trove keeps owners array and list both holding exactly the active troves |
| Registers.OpeningKeepsRegistered | packages/contracts/contracts/BorrowerOperations.sol:216-225 | so does opening one |
| Registers.ReinsertionKeepsRegistered | packages/contracts/contracts/SortedTroves.sol:206-219 | and reinsertion |
| TroveManager.Contract.MovePendingTroveRewardsToActivePool | packages/contracts/contracts/TroveManager.sol:778-782 | the pools after the move, and when it reverts |
| TroveManager.Contract.ApplyPendingRewards | packages/contracts/contracts/TroveManager.sol:1033-1058 | the whole new state |
| TroveManager.Contract.GetEntireDebtAndColl | packages/contracts/contracts/TroveManager.sol:1112-1128 | stored plus pending debt and collateral |
| TroveManager.Contract.SetCollDebtAndStake | packages/contracts/contracts/TroveManager.sol:1148-1175 | the whole new state, stake snapshots missing or not |
| TroveManager.Contract.RemoveTroveOwner | packages/contracts/contracts/TroveManager.sol:1281-1300 | the owners array and the indices afterwards |
| TroveManager.Contract.CloseTrove | packages/contracts/contracts/TroveManager.sol:1218-1235 | the closed record; the trove leaves the owners array and the sorted list, and nobody else does |
| TroveManager.Contract.RedistributeDebtAndColl | packages/contracts/contracts/TroveManager.sol:1177-1211 | the whole new state with both carried errors |
| TroveManager.Contract.LiquidateNormalMode | packages/contracts/contracts/TroveManager.sol:285-317 | the values and the state without the trove |
| TroveManager.Contract.LiquidateRecoveryMode | packages/contracts/contracts/TroveManager.sol:320-397 | the same in Recovery Mode, and nothing for the last trove |
| TroveManager.Contract.GetTotalsFromBatchLiquidate_NormalMode | packages/contracts/contracts/TroveManager.sol:718-748 | the loop computes the batch, and fails when it does |
| TroveManager.Contract.GetTotalFromBatchLiquidate_RecoveryMode | packages/contracts/contracts/TroveManager.sol:660-716 | the same for the loop that may return to Normal Mode midway |
| TroveManager.Contract.SettleTotals | packages/contracts/contracts/TroveManager.sol:637-657 | the whole new state after the totals are placed |
| TroveManager.Contract.BatchLiquidateTroves | packages/contracts/contracts/TroveManager.sol:614-658 | the whole call is the ledger's liquidation; the invariant and both registers are kept, the list is what it was without the closed troves, and if it was in order it is so again if and only if no survivor, with its share, is above the one before it |
| TroveManager.Contract.RedeemCollateralFromTrove | packages/contracts/contracts/TroveManager.sol:787-844 | the whole new state of one redemption, and its lot; a closed trove leaves the list, a partly redeemed one moves to a slot for its new ratio, and a cancelled one stays |
| TroveManager.Contract.ApplyAndRedeem | packages/contracts/contracts/TroveManager.sol:953-963 | one turn of the loop: rewards applied, then redeemed |
| TroveManager.Contract.IsValidFirstRedemptionHint | packages/contracts/contracts/TroveManager.sol:863-873 | reading the list's links, whether the hinted trove is at MCR and the one below is not |
| TroveManager.Contract.FindRedemptionStart | packages/contracts/contracts/TroveManager.sol:932-943 | the hinted trove, or the end of the walk from the tail along the links |
| TroveManager.Contract.RedeemAlongList | packages/contracts/contracts/TroveManager.sol:945-971 | the loop, following the links of the list it changes, computes the ledger's sequence and leaves that list: the closed troves taken out, the partly redeemed one at a slot |
| TroveManager.Contract.RedeemCollateral | packages/contracts/contracts/TroveManager.sol:896-997 | the whole call is the ledger's redemption from the first hint or the walk; the invariant and both registers are kept, and a list in order is in order again if and only if the trove below the partly redeemed one has no higher ratio |
| TroveManager.Contract.OpenTrove | packages/contracts/contracts/BorrowerOperations.sol:174-236 | the whole call with its hints; the trove stands at a slot for its ratio, the invariant and both registers are kept, and a list in order stays in order |
| TroveManager.Contract.AdjustTrove | packages/contracts/contracts/BorrowerOperations.sol:287-358 | likewise for the trove taken out and put back: the list is in order again if and only if the trove below it has no higher ratio, and that ratio is read off the state before |
| TroveManager.Contract.CloseOwnTrove | packages/contracts/contracts/BorrowerOperations.sol:360-394 | the whole call; the trove is taken out, the invariant and both registers are kept, and a list in order stays in order |
| FeeDecay.DecPowLoop | packages/contracts/contracts/Dependencies/LiquityMath.sol:60-83 | the squaring loop computes the recursive power, cap included |
| FeeDecay.MinutesAreCapped | packages/contracts/contracts/Dependencies/LiquityMath.sol:43-64 | beyond a thousand years nothing decays any further, and up to then every minute counts |
| FeeDecay.DecMulNear | packages/contracts/contracts/Dependencies/LiquityMath.sol:37-41 | a rounded product is within half a unit of the exact one and stays at or below 1 |
| FeeDecay.DecPowError | packages/contracts/contracts/Dependencies/LiquityMath.sol:60-83 | the power is within half a unit per minute of the exact one, whatever the exponent |
| FeeDecay.HalfLifeIsTwelveHours | packages/contracts/contracts/TroveManager.sol:40-44 | the parameter halves the base rate in 720 minutes |
| FeeDecay.DecayLowers | packages/contracts/contracts/TroveManager.sol:1415-1427 | decay never raises the base rate, and leaves it alone within a minute |
| FeeDecay.GriefingBound | README.md:1024-1026 | for every sequence of fee events the minutes counted, m, satisfy 60 m <= elapsed, and elapsed < 120 m once m >= 1 |
| FeeDecay.CountedAtLeastHalf | README.md:1024-1026 | at any time at least half of the minutes passed count, and no more than all |
| FeeDecay.HalfIsReached | packages/contracts/contracts/TroveManager.sol:1430-1437 | an operation every 119 seconds does reach that half |
| FeeDecay.DecayIsExact | packages/contracts/contracts/TroveManager.sol:1439-1448 | one decay is within one and a half units a minute of the exact one |
| FeeDecay.DecayComposes | packages/contracts/contracts/TroveManager.sol:1415-1448 | so is any sequence of them: how the time is split does not matter |
| FeeDecay.RaisedByHalf | packages/contracts/contracts/TroveManager.sol:1334-1354 | a redemption raises the decayed rate by half the redeemed fraction, rounded down, up to 1, and reverts if and only if the fraction is below 2e-18 and the rate has decayed to 0 |
| FeeDecay.FeesCompose | packages/contracts/contracts/TroveManager.sol:1334-1354 | over every sequence of borrowing operations and redemptions the rate is that of exact decays and raises, to within one and a half units a minute counted and half a unit a redemption |
| FeeDecay.FeeClock.CalcDecayedBaseRate | packages/contracts/contracts/TroveManager.sol:1439-1448 | the decayed rate |
| FeeDecay.FeeClock.UpdateLastFeeOpTime | packages/contracts/contracts/TroveManager.sol:1430-1437 | the clock moves only when a minute has passed |
| FeeDecay.FeeClock.DecayBaseRateFromBorrowing | packages/contracts/contracts/TroveManager.sol:1415-1427 | the whole new state; the rate stays at or below 1 |
| FeeDecay.FeeClock.UpdateBaseRateFromRedemption | packages/contracts/contracts/TroveManager.sol:1334-1353 | the whole new fee state; the rate rises by half the redeemed fraction up to 1, and exactly when the assert fails |
| StakeDrift.DriftIsBounded | packages/contracts/errorAccumulationTest/errorAccumulationTest.js:842-866 | after n rounds 0 <= S* - S and (S* - S) C0 < n Cn: the drift has one direction and does not feed on itself |
| StakeDrift.RatioNeverRises | packages/contracts/errorAccumulationTest/errorAccumulationTest.js:842-866 | stakes over collateral never rises |
| StakeDrift.NewStakeAtMostColl | packages/contracts/errorAccumulationTest/errorAccumulationTest.js:842-866 | from S <= C on, every new stake is at most its collateral |
| StakeDrift.Simulate | packages/contracts/errorAccumulationTest/errorAccumulationTest.js:842-866 | the loop computes the recurrence |
| MacroRedemption.Redeem | packages/contracts/macroModel/macro_model.py:318-334 | the loop stops at the first trove the pool does not cover, and runs out exactly when there is none |
| MacroRedemption.RedemptionIsExact | packages/contracts/macroModel/macro_model.py:321-334 | exactly the pool is cancelled, for the ether of the dropped troves and the residual's worth |
| MacroRedemption.OneStop | packages/contracts/macroModel/macro_model.py:320-326 | there is at most one place to stop |
| MacroRedemption.PoolIsTheSmaller | packages/contracts/macroModel/macro_model.py:304-315 | the redemption pool is the change in supply or the share of what is outside the stability pool, whichever is smaller |
| MacroRedemption.ResidualInRange | packages/contracts/macroModel/macro_model.py:328-330 | the residual is in [0, supply of the next trove), and dropped troves have the lowest ratios |
| MacroRedemption.RatioAfterResidual | packages/contracts/macroModel/macro_model.py:331-334 | the ratio of that trove does not fall if and only if nothing is taken or its collateral is worth its debt |
| MacroRedemption.LoopLeavesATrove | packages/contracts/macroModel/macro_model.py:304-315 | less than the whole supply is redeemed, so a trove is left; the stability pool may exceed the supply unless the ratio is negative |
| BNConverter.MakeBNIsExact | packages/contracts/utils/BNConverter.js:17-32 | makeBN returns value times 10^precision, and throws exactly when there are more decimals |
| BNConverter.MakeDecimalIsExact | packages/contracts/utils/BNConverter.js:47-64 | makeDecimal returns n / 10^digits if and only if digits >= 1 or n = 0 |
| BNConverter.IntegerRoundTrip | packages/contracts/utils/BNConverter.js:17-64 | integer to string and back is the identity if and only if digits >= 1 |
| BNConverter.StringRoundTrip | packages/contracts/utils/BNConverter.js:17-64 | string to integer and back keeps the value |
| MarketModel.StepKeepsSound | packages/contracts/model/model_v2.py:53-63 | after every step issuance = supply, price in [0, 1.1], redeemed within the previous supply; a step fails exactly at supply 0 |
| MarketModel.RedeemedExactly | packages/contracts/model/model_v2.py:53-63 | the redeemed part of the supply is what price and fee leave to 1, nothing from 1 on and everything from 0 down |
| MarketModel.MomentumIsGrowth | packages/contracts/model/model_v2.py:30-50 | momentum is the growth of the ether price over the lookback, with the entry a negative index reads where the series is as long as the lookback |
| MarketModel.StepClears | packages/contracts/model/model_v2.py:175-229 | a whole step clears the market below the ceiling, keeps the value of what is left at it, and issues by momentum alone at a price clamped to 0 |
| MarketModel.MarketClears | packages/contracts/model/model_v2.py:81-108 | where the price is not clamped, issuance before the ceiling is demand less redemption |
| MarketModel.CeilingClears | packages/contracts/model/model_v2.py:118-125 | the excess issuance keeps the value of the supply at the ceiling price |
| MarketModel.StepRunsDry | packages/contracts/model/model_v2.py:102-116 | exactly when a step leaves an issuance of 0, on which the next one fails |
| MarketModel.Data.Advance | packages/contracts/model/model_v2.py:175-229 | one turn appends one sound entry to every series but the base fee |
| MarketModel.Data.Script | packages/contracts/model/model_v2.py:171-229 | the script does so for every price, or stops at a supply of 0 |

## Left out

- GainsNeverExceedCollateral: holds where offsets find the deposits covered, because without that the gap of `GapIsReal` earns collateral too; `GainsWithinPeak` bounds the excess over every run.
- SyncedRunPaysDebt: holds while the accumulators stay in step; `RunPayableExactly` has the exact condition, and `PendingDebtGap` a run that fails it.
- ClaimsAfterOffset: one way for the whole-number claims, because rounding them down can hide a missing wei; what a given state can pay is exact in `WithdrawAllExactly`.
- OrderIsKept: exact arithmetic, on values; the integer version, its condition and a run that breaks it are in `IntegerOrder` and `IntegerOrderGap`. As a list can get out of order, its search is proved to end at a slot of any list, sorted or not.
- NominalOrderAfter: the margin is sufficient and, up to one unit of the nominal ratio and the truncation, necessary (`NominalOrderNeeds`), because the two quotients are truncated on their own; `LiquidateOrderExactly` compares the quotients themselves.
- LiquidateKeepsOrder: one way, because a margin leaves room for the truncation; `LiquidateOrderExactly` has the exact condition.
- MarginOrderly: one way, as the condition itself is `StepOrderExactly`.
- RewardsAppliedOrderly: one way, for the same reason.
- FirstHintIsTheWalk: where a listed trove at the edge is below MCR the hint can name another trove than the walk, which the code accepts.
- RunsAgree: exact arithmetic, on values, with epochs and without scales, which only serve integer precision.
- EveryRunKeepsTheBooks: the redemption queue is an input, any distinct active troves; that it is the part of the list above the start is in `SortedLedger` and `TroveManager.Contract.RedeemCollateral`.
- AdjustKeeps: stays in Normal Mode only while the contract is on the mint list, as the code skips the checks otherwise.
- HintsAreHonoured: hints computed and used on the same state; where a visit skips rewards they can still be honoured by chance, if a truncated ratio comes out the same.
- Overflow of 256-bit words, which reverts, is not modelled: numbers are unbounded.
- liquidateTroves(n) and the single-trove entry point: the same two liquidation steps over the list's tail, or over one trove.
- Limits the caller sets on fees, the fee rates' floors and ceilings, and the check that a redeemer holds no more than the system debt.
- thUSD balances by holder, permits, ownership, the mint list's delays and PCV payouts: only totals matter here.
- The price feed: price and feed status are inputs to each step.
- getApproxHint, gas measurements, deployment, front end, subgraph and B.Protocol.
- Reentrancy and the order of external calls inside one transaction: a transaction is one step.
- The Stability Pool inside `TroveManager.Contract` is a value; its updates in place are those of `StabilityPool.Contract`.
- In `macro_model.py`: random draws, power laws, opening and adjusting troves, and the partition of liquidated troves; the sorted frame is an input.
- In `BNConverter.js`: signs, exponents and other forms decimal.js accepts count as refused, and its own printing is not modelled.
- `model.py` and the price generators of `model_v2.py`, whose prices are inputs.
