# Verified model of the Jupiter canisters

This project models the money-splitting, interval-cache, ranked-index and journal code of the Jupiter
canisters (Relay, Faucet, Historian, Disburser) and proves properties of it with Dafny 4.11. Verify it with
`dafny verify dfyconfig.toml`.

| file | what it models |
|---|---|
| `Machine.dfy` | fixed-width integers, saturating operations, floor-division and summation facts |
| `Ordering.dfy` | the library sorts, uniqueness of a strict order, filtering, iteration order of ordered sets |
| `LargestRemainder.dfy` | Relay: sharing an under-funded round |
| `RelayPlans.dfy`, `SpendAllPlans.dfy`, `SurplusPlans.dfy` | Relay: top-up, spend-everything, surplus and splitter plans |
| `SplitterJournal.dfy` | Relay: the splitter journal with its fencing token |
| `SkipRanges.dfy` | Faucet: the skip-range cache |
| `FaucetShares.dfy`, `PayoutJobs.dfy` | Faucet: pot shares, time weighting, payout-job accounting |
| `DisburserSplit.dfy` | Disburser: age-bonus split, memos, payout plan |
| `HistorianData.dfy`, `RankedSummaries.dfy` | Historian: summaries and their incremental ranking |
| `CommitmentHistory.dfy`, `RecentFeeds.dfy`, `Normalization.dfy` | Historian: bounded histories, feeds, normalisation |
| `Pagination.dfy`, `PrefixSearch.dfy`, `RefreshLease.dfy` | Historian: cursor queries, prefix search, module-hash lease |

Conventions. `U32`, `U64` and `U128` are bounded integers, and saturation is written out where the source
saturates. A principal is its rank in the source's total order on principals, so ordered maps iterate as
`Ascending` does. `sort_unstable` is a method that promises only a sorted rearrangement. Calls into ledgers,
indexes, the cycles minter and the clock are arbitrary inputs of the steps. The stable-storage fallbacks of
the Historian are an immutable map. Where the source keeps an object that its functions update, the model is
a class whose methods are proved against specification functions, and the lemmas are about those functions.

## What the proofs found

- The Relay's total desired gross saturates at `u64::MAX` (`canisters/relay/src/logic.rs:470-473`). The planner
  is solvent for every balance if and only if the true total need fits in 64 bits (`SolvencyCondition`).
  The sharing itself sums to the balance if and only if the floor shares alone do not exceed it (`Exactness`);
  `SaturatedTotalOverspends` is a concrete saturated input where they do.
- A fully funded amount is the least that covers its target if and only if that amount plus the fee fits in
  64 bits (`FullFundingCovers`), and the 101% target is exact if and only if burn × 101 is at most
  2^128 − 56 (`HeadroomIsExact`).
- The third pass of the top-up planner (`canisters/relay/src/logic.rs:495-501`) never marks anything: every
  unfunded entry already has a reason, so no canister is ever reported with `insufficient_balance_for_topups`
  (the plan's own surplus reason is). The model keeps the pass and proves its branch dead.
- A splitter plan can be refused because a share does not exceed the fee only when the fee is at least
  11 111 111 e8s, about a ninth of an ICP (`SplitterAccepted`, `SplitterFeeBoundIsSharp`).
- The Faucet's saturating test of the pot (`canisters/faucet/src/scheduler/route_accounting.rs:772`) is the
  exact one unless the pot is `u64::MAX` and the sum overflows (`PotGuardIsExact`).
- A well-formed skip-range map is determined by the ids it covers (`CoverageDetermines`), so the
  coverage contract of insertion fixes the resulting map.
- Normalisation leaves a state unchanged exactly when the read-model invariant holds (`NormalizeIdempotent`).
- The splitter journal by itself lets a second quarantine of one number replace the first entry
  (`QuarantineOverwrites` says exactly when). The driver's check before installing a job
  (`canisters/relay/src/scheduler/splitter.rs:119-123`) makes entries permanent (`EntriesArePermanent`).

## Model

| member | source | states |
|---|---|---|
| LargestRemainder.ProportionalTopupGrossAllocations | canisters/relay/src/logic.rs:633-679 | the loops return the specified largest-remainder shares and the outer loop makes at most one pass |
| LargestRemainder.TopUpPass | canisters/relay/src/logic.rs:660-676 | one pass over the order hands out exactly the units the floors left, one per canister |
| LargestRemainder.Exactness | canisters/relay/src/logic.rs:633-679 | shares sum to the balance if and only if the floor shares do not exceed it, and always when the true total fits in 64 bits |
| LargestRemainder.Quota | canisters/relay/src/logic.rs:640-650 | each share is the floor of its exact quota or that plus one, never above the desire, and exact when the quota is whole |
| LargestRemainder.Fairness | canisters/relay/src/logic.rs:654-676 | a strictly larger desire, or an equal one listed earlier, never gets a smaller share |
| LargestRemainder.ToppedUpFirst | canisters/relay/src/logic.rs:654-659 | a topped-up canister has a positive remainder and precedes every other by remainder, then position |
| LargestRemainder.LeftoverReaches | canisters/relay/src/logic.rs:660-676 | there are at least as many positive remainders as leftover units, and they come first in the order |
| LargestRemainder.SharesSatisfyRule | canisters/relay/src/logic.rs:633-679 | the shares satisfy the loop-free largest-remainder rule |
| LargestRemainder.RuleIsUnique | canisters/relay/src/logic.rs:633-679 | at most one vector satisfies that rule |
| LargestRemainder.SaturatedTotalOverspends | canisters/relay/src/logic.rs:470-473 | a concrete saturated total for which the shares exceed the balance |
| RelayPlans.BuildAllocationPlan | canisters/relay/src/logic.rs:422-514 | every entry, the funding flag and the surplus reason of the top-up plan, and that every entry reflects the observations of its canister |
| RelayPlans.BurnsAreObserved | canisters/relay/src/logic.rs:590-631 | over the observations alone: burn is zero without a previous reading, otherwise it makes up the drop from previous reading plus minted cycles to the current one; readings and deficit are the recorded ones; the target adds the burn, with or without headroom |
| RelayPlans.BurnPlansCover | canisters/relay/src/logic.rs:598-600 | the entries are the observed canisters, ascending and once each |
| RelayPlans.TopupReasons | canisters/relay/src/logic.rs:452-501 | zero burn is reported exactly for a zero target, no reason exactly for paid entries, otherwise a share within the fee; full funding pays every need unless the fee is u64::MAX |
| RelayPlans.PriceTopups | canisters/relay/src/logic.rs:452-469 | desired gross amounts and the pricing skip reasons |
| RelayPlans.FundTopups | canisters/relay/src/logic.rs:475-494 | funded entries carry their allotment and amount, the others a reason |
| RelayPlans.TopupPlanSolvent | canisters/relay/src/logic.rs:422-514 | amount plus fee is the gross share of each funded entry and gross shares sum to at most the balance |
| RelayPlans.SolvencyCondition | canisters/relay/src/logic.rs:470-494 | solvent for every balance if and only if the total need fits in 64 bits |
| RelayPlans.FullFundingCovers | canisters/relay/src/logic.rs:291-296 | a fully funded amount covers the target and one e8s less would not, if and only if it fits with the fee in 64 bits |
| RelayPlans.UnderFundingIsCapped | canisters/relay/src/logic.rs:481-514 | an under-funded round pays nobody more than the priced need, blocks surplus and gives every unfunded entry a reason |
| RelayPlans.HeadroomIsExact | canisters/relay/src/logic.rs:276-289 | the target is burn × 101% rounded up if and only if the product stays clear of 128-bit saturation, and never more |
| RelayPlans.TargetIsNeed | canisters/relay/src/logic.rs:590-631 | the target is the carried deficit plus burn × 101% rounded up |
| RelayPlans.CeilDivExact | canisters/relay/src/logic.rs:283-296 | for rates below 2^64 the padded ceiling is exact up to the 64-bit cap |
| RelayPlans.PlanningRateFits | canisters/relay/src/logic.rs:303-317 | a CMC-reported or bootstrap rate is positive and below 2^64 |
| RelayPlans.PlanningRateIsFresh | canisters/relay/src/logic.rs:298-317 | a plan is priced at the CMC's report exactly when it is non-zero, representable and at most 14 days old, else at the bootstrap rate |
| RelayPlans.BurnPlans | canisters/relay/src/logic.rs:590-631 | one plan per observed canister, in principal order, as specified |
| SpendAllPlans.BuildSpendAllCyclesPlan | canisters/relay/src/logic.rs:517-588 | every entry and the surplus reason of the spend-everything plan, and that every entry reflects the observations of its canister |
| SpendAllPlans.SpendAllEntry | canisters/relay/src/logic.rs:548-576 | each gross share is the floor of its exact proportion, and it is paid less one fee exactly when it is at least two fees and more than one; the reasons say which |
| SpendAllPlans.SpendTopups | canisters/relay/src/logic.rs:561-576 | the loop gives each needy canister its proportional share and pays it when fee-efficient |
| SpendAllPlans.TotalPositiveNeed | canisters/relay/src/logic.rs:532-536 | the sum over positive targets is the sum over all targets |
| SpendAllPlans.SpendAllSolvent | canisters/relay/src/logic.rs:548-576 | gross shares sum to at most the balance and paid entries are amount plus fee with amount at least the fee |
| SpendAllPlans.SpendAllExhausts | canisters/relay/src/logic.rs:548-560 | without 128-bit saturation less than one e8s per canister stays unspent |
| SurplusPlans.BuildSurplusPlan | canisters/relay/src/logic.rs:681-714 | shares only with a usable estimate, no skip reason if and only if some transfer pays, and which reason for which balance |
| SurplusPlans.SurplusSolvent | canisters/relay/src/logic.rs:716-749 | one transfer per recipient to its own target; equal shares stay within the balance, leave less than one e8s per recipient, and pay exactly when 1 ICP remains after the fee |
| SurplusPlans.SplitterConserves | canisters/relay/src/logic.rs:171-224 | the percentage, rounded down, goes to the default account and the rest to subaccount one; amounts and fees add up to the balance and creation times differ |
| SurplusPlans.SplitterRefusals | canisters/relay/src/logic.rs:171-199 | exactly when a plan is accepted, for every fee, and which refusal is given otherwise |
| SurplusPlans.SplitterAccepted | canisters/relay/src/logic.rs:171-199 | below one ninth of an ICP of fee, a plan is accepted if and only if the number, the net 1 ICP and the clock allow it |
| SurplusPlans.SplitterFeeBoundIsSharp | canisters/relay/src/logic.rs:195-197 | at the next fee a smallest admissible balance is refused |
| SplitterJournal.StableJournal.ClaimActiveJob | canisters/relay/src/splitter_state.rs:163-189 | outcome and new state of a claim, including refusal and exhaustion; a claimed job differs from the expected one in its revision and in an attempt recorded on the marked leg only |
| SplitterJournal.StableJournal.ActiveJobIfClaimMatches | canisters/relay/src/splitter_state.rs:191-196 | returns the active job if and only if it equals the claim |
| SplitterJournal.StableJournal.SetActiveJob | canisters/relay/src/splitter_state.rs:157-159 | replaces the active job and nothing else |
| SplitterJournal.StableJournal.ClearActiveJob | canisters/relay/src/splitter_state.rs:198-200 | removes and returns the active job, nothing else |
| SplitterJournal.StableJournal.QuarantineActiveJob | canisters/relay/src/splitter_state.rs:206-225 | moves the active job under its own splitter number |
| SplitterJournal.RunIsConsistent | canisters/relay/src/splitter_state.rs:73-80 | over every run no stored revision exceeds the counter and every quarantined job is keyed by its own number |
| SplitterJournal.ClaimMarksItsLeg | canisters/relay/src/splitter_state.rs:177-187 | in a run a claim leaves the expected job active under the next revision, with only the marked leg's attempt added |
| SplitterJournal.ClaimStepAttempts | canisters/relay/src/splitter_state.rs:181-186 | a claim step turns a leg's attempt flag on only when its mark names that leg |
| SplitterJournal.AttemptHasCause | canisters/relay/src/splitter_state.rs:161-187 | over every run a recorded attempt goes back to a claim marking that leg or a guarded update, with no installation since |
| SplitterJournal.ProgressHasCause | canisters/relay/src/splitter_state.rs:28-62 | over every run a leg that is not ready, or was uncertain, goes back to a guarded update since installation |
| SplitterJournal.ClaimsIncrease | canisters/relay/src/splitter_state.rs:163-189 | claim revisions strictly increase along every run |
| SplitterJournal.StaleClaimNeverMatches | canisters/relay/src/splitter_state.rs:161-200 | once a later claim succeeds, or the job is cleared, quarantined or replaced, the earlier claim never matches or updates again |
| SplitterJournal.ClaimHoldsUntilSuperseded | canisters/relay/src/splitter_state.rs:161-196 | until then the job keeps the claim's revision through all guarded updates |
| SplitterJournal.FencedForever | canisters/relay/src/splitter_state.rs:78-79 | an issued token the active job no longer carries never comes back |
| SplitterJournal.QuarantineKeepsNumbers | canisters/relay/src/splitter_state.rs:206-225 | quarantined numbers are never lost |
| SplitterJournal.QuarantineOverwrites | canisters/relay/src/splitter_state.rs:206-225 | exactly when a quarantine leaves all earlier entries as they were |
| SplitterJournal.EntriesArePermanent | canisters/relay/src/scheduler/splitter.rs:118-161 | under the driver's install check no quarantined entry is ever overwritten |
| SkipRanges.SkipRangeCache.Insert | canisters/faucet/src/state.rs:642-695 | insertion is the specified one on a well-formed map, errors leave the map alone, coverage never leaves the inserted ids |
| SkipRanges.ScanSuccessors | canisters/faucet/src/state.rs:664-685 | three successors suffice: the scan finds every touched entry or at least three |
| SkipRanges.SkipRangeCache.Containing | canisters/faucet/src/state.rs:617-635 | finds an interval if and only if the id is covered, and all of it is covered |
| SkipRanges.SkipRangeCache.Clear | canisters/faucet/src/state.rs:743-747 | empties the map and the evidence |
| SkipRanges.GivesUpExactly | canisters/faucet/src/state.rs:637-641 | new ids stay uncovered if and only if the range touches more than two entries; old coverage is kept and nothing else is covered |
| SkipRanges.CoverageDetermines | canisters/faucet/src/state.rs:637-695 | two well-formed maps with the same coverage are equal |
| SkipRanges.MergeIsExact | canisters/faucet/src/state.rs:686-693 | replacing the touched entries by their hull covers exactly old ids and the range |
| SkipRanges.MergeIsWellFormed | canisters/faucet/src/state.rs:686-693 | and keeps entries disjoint and never adjacent, including at u64::MAX |
| SkipRanges.RunIsSound | canisters/faucet/src/state.rs:612-747 | over every run the map is well formed and covers only ids inserted since the last clear, and all of them if no insertion gave up |
| FaucetShares.PotIsNeverOverspent | canisters/faucet/src/logic.rs:97-106 | shares sum to at most the pot, and leave less than one e8s per commitment when the denominator is exact |
| FaucetShares.NextShareFits | canisters/faucet/src/logic.rs:97-106 | paid in order, the next share fits in what is left of the pot |
| FaucetShares.ShareIsCappedFloor | canisters/faucet/src/logic.rs:97-106 | for all inputs the share is the floor of the exact quotient up to the 64-bit cap, and zero without a denominator |
| FaucetShares.RoundWeight | canisters/faucet/src/logic.rs:143-165 | zero weight before, full weight after, and less than a round of rounding when straddled |
| FaucetShares.OneStraddledRound | canisters/faucet/src/logic.rs:143-165 | at most one of the back-to-back rounds is partial |
| FaucetShares.StakeTimeConserved | canisters/faucet/src/logic.rs:143-165 | over all rounds weight × length is amount × participating time, short of it by less than the straddled round |
| FaucetShares.PayoutAmountIsProRata | canisters/faucet/src/logic.rs:167-224 | no amount outside the tranche, zero without a timestamp, whole amounts recognised by the end of a first round, and in later rounds the floor of the amount times the part of the round after transfer time plus delay |
| FaucetShares.EffectiveIsDelayed | canisters/faucet/src/logic.rs:136-141 | recognition is the transfer time plus the delay in seconds, capped at 64 bits |
| PayoutJobs.ActivePayoutJob.RecordLedgerAcceptedTransfer | canisters/faucet/src/logic.rs:226-233 | adds the gross share to the outflow and nothing else |
| PayoutJobs.ActivePayoutJob.ApplyNotifiedTransfer | canisters/faucet/src/logic.rs:235-256 | new counters for beneficiary payouts, or the remainder |
| PayoutJobs.RunBalances | canisters/faucet/src/logic.rs:226-279 | over every run of staged, accepted, notified, abandoned, reserved and refunded transfers the books balance |
| PayoutJobs.PotConserved | canisters/faucet/src/logic.rs:226-279 | outflow plus remaining is the pot, net paid never exceeds outflow, sum lies between min × count and max × count |
| PayoutJobs.OutflowIsAccepted | canisters/faucet/src/logic.rs:226-233 | over every run the outflow is exactly what was accepted or reserved, net of refunds |
| PayoutJobs.OutcomesAreCounted | canisters/faucet/src/scheduler/cmc_notify.rs:121-151 | over every run the failure counters count their events up to saturation, and the remainder is the one notified last |
| PayoutJobs.RefundCostsFourFees | canisters/faucet/src/scheduler/cmc_notify_transfer.rs:202-281 | a refund gives back the gross share less four fees and stages a fallback for the same beneficiary exactly when it exceeds one more |
| PayoutJobs.StepIsFunded | canisters/faucet/src/scheduler/cmc_notify_transfer.rs:202-281 | every lifecycle step, the refund fallback included, keeps payments inside the outflow and the outflow inside the pot |
| PayoutJobs.PotGuardIsExact | canisters/faucet/src/scheduler/route_accounting.rs:772 | when the saturating pot test is the exact one |
| DisburserSplit.SplitConserves | canisters/disburser/src/logic.rs:24-47 | the parts sum to the total, the bonus splits 95 to 5 rounding up for the first, base is at least four fifths less one |
| DisburserSplit.MultiplierIsProRata | canisters/disburser/src/logic.rs:16-22 | the bonus is a quarter of the base from four years on and proportional to age before |
| DisburserSplit.BaseShrinksWithAge | canisters/disburser/src/logic.rs:16-32 | the base never grows with age |
| DisburserSplit.SplitInvertsMultiplier | canisters/disburser/src/logic.rs:16-32 | a base scaled by the multiplier and floored is recovered as itself or one less, and exactly when the scaling was exact |
| DisburserSplit.BuildMemo | canisters/disburser/src/logic.rs:49-55 | the buffer holds payout id and transfer index, big-endian |
| DisburserSplit.MemoIsInjective | canisters/disburser/src/logic.rs:49-55 | payout id and index can be read back from the memo |
| DisburserSplit.BigEndianRoundTrip | canisters/disburser/src/logic.rs:52-53 | decoding the big-endian bytes of a number returns it |
| DisburserSplit.PlanPayoutTransfers | canisters/disburser/src/logic.rs:73-107 | the split and the planned transfers of one pass; recipients and gross shares are, in order, the base, first and second bonus where they exceed the fee |
| DisburserSplit.PlanRecipients | canisters/disburser/src/logic.rs:102-104 | the base goes to the normal recipient, the first bonus to the first and the second to the second, each unless a fee would use it up |
| DisburserSplit.PlanConserves | canisters/disburser/src/logic.rs:73-107 | net amounts, fees and skipped shares equal the balance, a skipped share is at most one fee, memos are pairwise distinct |
| HistorianData.SummaryFor | canisters/historian/src/lifecycle.rs:372-404 | a summary carries the key it was computed for |
| HistorianData.SummaryReports | canisters/historian/src/lifecycle.rs:372-404 | over the registry alone: when a canister has a summary, and that its count, total, reasons, latest reading, last commitment and probe time are the recorded ones |
| HistorianData.VisibleReasonsAreExact | canisters/historian/src/normalization.rs:168-192 | exactly the recorded reasons are visible, a memo commitment only with a stored sample that counts |
| HistorianData.SnapshotIsStored | canisters/historian/src/lifecycle.rs:281-292 | a snapshot is the heap history, or the stable one without it, sorted |
| HistorianData.LatestSampleIs | canisters/historian/src/lifecycle.rs:258-263 | no reading is newer than the latest one, and later listed ones are older |
| RankedSummaries.RankingUnique | canisters/historian/src/lifecycle.rs:406-413 | a strictly ordered arrangement of the cache keys is the ranking sorted from scratch |
| RankedSummaries.SummaryRanking.Refresh | canisters/historian/src/lifecycle.rs:545-562 | updates the cache at one canister to what the registry records, keeps the other cached entries of the index, and from a valid state leaves the index equal to sorting from scratch |
| RankedSummaries.SummaryRanking.SearchPosition | canisters/historian/src/lifecycle.rs:430-439 | the binary search finds the split point of an ordered index |
| RankedSummaries.InsertAtSplit | canisters/historian/src/lifecycle.rs:422-441 | inserting at the split point yields the ranking |
| RankedSummaries.RefreshedOrder | canisters/historian/src/lifecycle.rs:415-429 | after the removals the index is the ordered rest, under the updated cache |
| RankedSummaries.SummaryRanking.Rebuild | canisters/historian/src/lifecycle.rs:564-571 | from any state the result is valid, caches exactly the summaries of the tracked canisters, and ranks them by stored total descending, then principal |
| RankedSummaries.RankingByStoredTotals | canisters/historian/src/lifecycle.rs:406-413 | over the registry alone: which canisters are ranked, in which order, and what their entries report |
| RankedSummaries.SummaryRanking.RepairIfInvalid | canisters/historian/src/lifecycle.rs:535-543 | always ends valid, and acts if and only if the state was invalid |
| RankedSummaries.SummaryRanking.IndexIsValid | canisters/historian/src/lifecycle.rs:501-533 | the one-pass check accepts exactly the valid states |
| RankedSummaries.OnePassCheckIsExact | canisters/historian/src/lifecycle.rs:513-533 | strict order, own keys and equal length hold if and only if the index is the ranking of all cache keys |
| RankedSummaries.SummaryRanking.Page | canisters/historian/src/lifecycle.rs:443-499 | a page is served if and only if it and its neighbours are ordered and match the cache, and it holds its slice |
| RankedSummaries.ServedPageIsChecked | canisters/historian/src/lifecycle.rs:463-491 | a page is served exactly when it and its two neighbours carry their own keys and are ordered by total, then principal |
| RankedSummaries.PagesCoverRanking | canisters/historian/src/read_model.rs:787-805 | on a valid state below 2^32 entries every page is served and the pages concatenate to the whole ranking, once each |
| CommitmentHistory.History.Push | canisters/historian/src/logic.rs:141-157 | inserts if and only if the transaction is not retained, and keeps an ascending history as specified |
| CommitmentHistory.BinarySearch | canisters/historian/src/logic.rs:151-154 | finds a match or the insertion point |
| CommitmentHistory.PruneCommutes | canisters/historian/src/logic.rs:141-186 | what an earlier prune dropped can never come back |
| CommitmentHistory.BoundedIsPruned | canisters/historian/src/logic.rs:141-186 | pruning after every push equals pruning once at the end |
| CommitmentHistory.PushAllHolds | canisters/historian/src/logic.rs:141-157 | without a cap the history holds exactly the first sample pushed for each transaction |
| CommitmentHistory.HoldsLargest | canisters/historian/src/logic.rs:141-186 | the bounded history is ascending, first-pushed only, and misses only what is older than all of a full history |
| CommitmentHistory.OrderIndependent | canisters/historian/src/logic.rs:146-148 | runs with the same first-pushed samples end in the same history |
| CommitmentHistory.SetOfPushesDecides | canisters/historian/src/logic.rs:146-148 | for consistent samples only the set of pushed samples matters, not order or repeats |
| CommitmentHistory.SeenIsMaximum | canisters/historian/src/logic.rs:197-218 | the first sighting and the maximum of the old time and all sightings in whole seconds survive any backfill order; other metadata stays |
| RecentFeeds.NormalizeRecentCommitmentBucket | canisters/historian/src/normalization.rs:149-159 | the bucket is the specified feed |
| RecentFeeds.NormalizeRecentInvalidCommitments | canisters/historian/src/normalization.rs:161-166 | the invalid feed is the specified one |
| RecentFeeds.RetainFirst | canisters/historian/src/normalization.rs:156-157 | the seen-set pass keeps the first item of each transaction |
| RecentFeeds.FeedEstablishes | canisters/historian/src/normalization.rs:149-166 | a feed is strictly newest first, one item per transaction, within its cap, from the input only |
| RecentFeeds.FeedKeepsNewest | canisters/historian/src/normalization.rs:149-166 | every input item is represented by one at least as new, unless the feed is full of items at least as new |
| RecentFeeds.BucketKeepsNewest | canisters/historian/src/normalization.rs:149-159 | without reference to sort keys: a bucket holds flagged input items, strictly newest first, one per transaction, and of every flagged item one at least as new unless it is full of newer ones |
| RecentFeeds.InvalidKeepsNewest | canisters/historian/src/normalization.rs:161-166 | the same for the 100 invalid commitments |
| RecentFeeds.BucketNormalForm | canisters/historian/src/normalization.rs:149-159 | normalising establishes the bucket invariant and leaves a bucket that has it alone |
| RecentFeeds.InvalidNormalForm | canisters/historian/src/normalization.rs:161-166 | the same for the invalid feed |
| Normalization.ReadModelState.NormalizeRuntimeState | canisters/historian/src/normalization.rs:204-338 | establishes the read-model invariant from any initialised state, keeps the newest samples that count, drops exactly the unbacked tags, only ever raises last-commitment times, ranks by stored totals, and is the specified function for distinct transaction ids |
| Normalization.NormalizeIdempotent | canisters/historian/src/normalization.rs:204-338 | normalising establishes the invariant, a second pass changes nothing, and a state is a fixed point if and only if it has the invariant |
| Normalization.NormalizeHistories | canisters/historian/src/normalization.rs:224-258 | retained histories are non-empty, sorted, within the cap and hold the newest samples that count, for any histories; exact for distinct ids |
| Normalization.ClampsToLimits | canisters/historian/src/normalization.rs:194-202 | every limit moves to the nearest allowed value |
| Normalization.NormalKeepsNewest | canisters/historian/src/normalization.rs:226-231 | a dropped qualifying sample is no newer than any kept one, and the history is then full |
| Normalization.NormalKeepsDistinct | canisters/historian/src/normalization.rs:224-258 | distinct transaction ids stay distinct |
| Normalization.StrippedIsBacked | canisters/historian/src/normalization.rs:260-288 | after the untagging every memo tag is backed by a qualifying sample |
| Normalization.StrippedExactly | canisters/historian/src/normalization.rs:260-288 | a canister keeps exactly its visible reasons, and loses entry, cycles history and metadata exactly when an unbacked memo commitment was its only reason |
| Normalization.ReadModelState.DropStaleTags | canisters/historian/src/normalization.rs:260-288 | the loop removes exactly the unbacked tags, and the entries that lose their last reason, and leaves the rest alone |
| Normalization.ReadModelState.RefreshMetas | canisters/historian/src/normalization.rs:309-328 | last-commitment times become the greatest of the old time and the seconds of the dated samples; nothing else changes |
| Normalization.MetaIsRaised | canisters/historian/src/normalization.rs:321-325 | a time is raised to a sample's second or kept, never lowered, and kept exactly when no dated sample is later |
| Normalization.SettledProperties | canisters/historian/src/normalization.rs:260-328 | tags are backed and metadata is current, and a registry is a fixed point if and only if it is settled |
| Pagination.HistoryPage | canisters/historian/src/read_model.rs:243-277 | the page holds the first items past the cursor, and a cursor if and only if more remain |
| Pagination.NextPageContinues | canisters/historian/src/read_model.rs:269-272 | the returned cursor leads exactly to what the page left |
| Pagination.WalkIsComplete | canisters/historian/src/read_model.rs:243-277 | following cursors terminates and enumerates everything past the start once |
| Pagination.HistoryWalkIsComplete | canisters/historian/src/read_model.rs:243-277 | from any cursor and in either direction the walk yields exactly the samples beyond it, in order and once each |
| Pagination.RawHistoryPage | canisters/historian/src/read_model.rs:296-320 | a page of the destination's samples, and an empty one for a malformed destination |
| Pagination.DestinationsAgree | canisters/historian/src/read_model.rs:322-332 | destinations are well-formed exactly at 32 bytes, no subaccount meaning zeros, and normalise alike exactly when their bytes agree |
| Pagination.RawWalkIsComplete | canisters/historian/src/read_model.rs:296-332 | the walk yields exactly the samples with the same 32 destination bytes |
| Pagination.ListCanisters | canisters/historian/src/read_model.rs:168-204 | the page lists visible, filtered ids past the cursor, each with exactly its visible reasons |
| Pagination.ListWalkIsComplete | canisters/historian/src/read_model.rs:168-204 | the walk lists exactly the visible filtered ids, ascending and once each |
| PrefixSearch.PrincipalMatchesCompactPrefix | canisters/historian/src/read_model.rs:565-591 | shortcuts and scan together decide whether the prefix starts the dashless text |
| RefreshLease.HashCache.Acquire | canisters/historian/src/read_model.rs:724-743 | acquires if and only if the cache is at least an hour old and any lock at least five minutes old |
| RefreshLease.HashCache.Finish | canisters/historian/src/read_model.rs:745-758 | writes and unlocks if and only if the token holds the lock |
| RefreshLease.HashCache.Release | canisters/historian/src/read_model.rs:760-766 | unlocks if and only if the token holds the lock |
| RefreshLease.RunIsSafe | canisters/historian/src/read_model.rs:724-779 | over every interleaving tokens in flight are a full lease apart and the cache is never newer than the clock |
| RefreshLease.StartsAreSpaced | canisters/historian/src/read_model.rs:724-743 | over every interleaving a refresh starts only an hour after the cache was written and five minutes after every token in flight |
| RefreshLease.OvertakenIsHarmless | canisters/historian/src/read_model.rs:745-766 | an overtaken refresh neither writes the cache nor clears the lock |
| RefreshLease.OvertakenForever | canisters/historian/src/read_model.rs:724-766 | an overtaken refresh stays overtaken until it ends |
| RefreshLease.TimestampMonotone | canisters/historian/src/read_model.rs:745-758 | the cache timestamp never goes backwards |
| RefreshLease.OnlyHolderWrites | canisters/historian/src/read_model.rs:745-758 | every cache change is the lock holder's, stamped with the current clock |

## Left out

- FullFundingCovers: assumes a rate below 2^64, which is all the CMC conversion and the bootstrap rate can produce; an estimate of another origin could make the 128-bit padding of the ceiling saturate.
- BuildSpendAllCyclesPlan: requires the needs to sum to at most u128::MAX, as the source's own sum does; what an overflowing sum does depends on build flags.
- PagesCoverRanking: needs fewer than 2^32 entries, because the page offset saturates at u32::MAX.
- PrincipalMatchesCompactPrefix: takes the principal's text as given and lower-case; the text encoding of principals is not part of this model.
- CommitmentHistory.History.Push: on a history with repeated transaction ids only the return value and the sorted rearrangement are stated, since the unstable sort leaves their order open.
- The asynchronous schedulers, ledger, CMC, index and governance clients, timers and inter-canister calls: their outcomes are arbitrary inputs.
- Candid encoding, stable-cell storage, upgrade arguments and persistence batching.
- Failures before a transfer is staged, such as a neuron whose staking account cannot be found: they only add one to the failure counter, and no event of the modelled transfer lifecycle stands for them.
- Memo directive parsing: targets are abstract.
- The stable maps behind the Historian are constant during an operation; loading and writing them back is not modelled.
- Counters, totals and rollups of the Historian beyond their use in summaries.
- Cycles-sample histories and their timestamp cursor, the alias table and its digest, and the public counts and status views.
- Configuration validation, controller and caller checks, probe routing, logging, debug entry points, the frontend and the deployment tooling.
- Account and subaccount layouts: destinations are opaque identities, and a splitter's source subaccount is its number.
