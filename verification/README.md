# StellarLend: verified model of its pricing, liquidity, bridge and lending cores

StellarLend is a lending protocol on Soroban with an automated market maker, a validator bridge and an
off-chain price oracle. This project models the parts of it that compute or keep an invariant over time,
and proves what they are for.

* **TWAP** (`TwapPool`, `TwapHistory`, `TwapSpan`). Cumulative prices wrap modulo 2^128, are checkpointed at most once a
  minute into a ring of 1440 entries with conditional eviction, and are queried through a binary search. The
  reference is a history of accepted updates and the exact integral of the step price over it; the
  accumulator, the ring and the query are proved to agree with that integral over every run.
* **Constant-product pool and LP shares** (`Sqrt`, `AmmPool`, `LiquidityMath`). Floored swaps both ways, a
  two-step flash swap, the impact guard, fee counters, Newton's square root, share minting and burning.
* **Bridge** (`ValueWindow`, `Bridge`, `BridgeRuns`). Rotation by a supermajority of active validators, pauses,
  the churn limit and the tumbling value caps.
* **Lending** (`Debt`, `Liquidation`, `RateModel`, `CrossLedger`, `CrossLedgerRuns`,
  `CrossLedgerOutcomes`, `SaturatedTotal`, `AssetValue`, `AssetLedger`). Interest settlement, per-user lists and per-asset totals, health factors, liquidation and the
  write-off waterfall, rate smoothing, and the mixed-decimals position summary.
* **Oracle** (`PriceAggregator`). Outlier rejection by median absolute deviation and the two medians.

`Numeric` holds the machine integers and their checked, saturating and truncating operators; `MapSum` holds
sums over finite maps and `Sequences` what is said about lists.

## How the model is built

Code that updates storage step by step is a class whose fields are the stored values. Each of its methods is
proved equal to a function on the stored value (`Updated`, `SwapAForB`, `Rotated`, `Borrowed`, `Liquidated`, and
so on), errors and rollback included. Lemmas named `...Iff` and `...Leaves` say in plain arithmetic which calls
succeed and what they change; the main theorems are lemmas about runs of those functions. Ledger time,
ledger sequence and the cached borrow rate are arguments. A contract call that panics or returns an error leaves
the state as it was, because the host rolls it back; the bridge is a plain library, and there the window may roll
on a rejected admission. Arithmetic that the compiled contracts check (`overflow-checks = true` in
`stellar-lend/Cargo.toml`) aborts the call.

Functions of `amm/src/lib.rs` that declare a plain integer result but return errors are read as returning a
`Result`. `swap_a_for_b` calls the flash-swap guard at line 237 and drops its result. Its comment says that the guard
aborts; read as a `Result` it does nothing. A pool carries the reading as the flag `guardsAToB`, and every theorem
about it holds for both.

A double signer of two rotations is a key with a valid signature of each among the proofs presented, never one for
which some signature merely exists. How many of them it takes to split the bridge depends on the pauses alone
(`BridgeRuns.ReachableSplitIff`): with equal pauses, more than a third of the active validators; with the two halves of
six validators paused on either side, none.

## Where the code and its comments disagree

* The ring is said to serve every window up to 86400 s. It serves every window up to 86340 s, and no more:
  `TwapHistory.FullRingHasAnchor` and `TwapHistory.LongerWindowsMissAnchor`.
* `has_window_coverage` is said to mirror every abort of `get_twap`. It mirrors all but the overflow of the
  projection: `TwapPool.CoverageIsExact` and `TwapPool.CoverageMissesOverflow`.
* A zero deviation is said to mean that all prices agree. `PriceAggregator.MadIsZeroIff` says what it means, and
  `PriceAggregator.ZeroDeviationKeepsOutlier` shows an outlier that it lets decide the answer.
  `PriceAggregator.UnfilteredAggregateWithinIff` says exactly when that happens.
* The value cap reads as a rolling limit. It is a tumbling one: twice the cap fits in one window length, and no
  more (`ValueWindow.AnyIntervalAdmitsAtMostTwiceCap`). `ValueWindow.RollingCapIff` says for which configurations
  the two coincide.
* Refusing a checkpoint because the oldest entry is too young is said to happen only while the ring first fills. That
  holds exactly for updates more than two minutes apart (`TwapSpan.RefusalsRecurIff`). A refusal lasts up to a day, so
  with updates at most `gap` seconds apart an answer may average 86459 + `gap` seconds more than were asked for, and no
  more (`TwapSpan.AveragedSpanIsBounded`, `TwapSpan.SpanBoundIsAttained`).
* The write-off has a third, socialised tier. It never pays anything (`Liquidation.WriteOffWaterfall`).
* The rate is said to move by a bounded step. A second update in the same ledger jumps to the edge of the band
  (`RateModel.SameLedgerJumps`).
* `repay_asset_internal` lowers the asset's total with a saturating subtraction. The total stays exact if and only
  if the sum it should show fits in i128, which the state before the call tells (`CrossLedgerRuns.RepayKeepsExact`,
  `CrossLedgerRuns.RunKeepsExact`), and a run from the empty ledger reaches the case
  (`SaturatedTotal.RepayCanSaturate`).
* `initialize_asset` does not check the sign of the price, which `update_asset_price` does
  (`AssetLedger.RunKeepsRegistry`).

## Model

| member | source | states |
|---|---|---|
| TwapHistory.TwapIsExactAverage | stellar-lend/contracts/hello-world/src/amm_twap.rs:330-399 | Over every run, whatever wraps in the accumulator: an answer starts at the newest entry not after the target, else at the oldest, and is the floor of the exact time average of reserve1 10^18 / reserve0 (floored) from there to now if and only if the integral over that interval is below 2^128; otherwise it is the average of the integral modulo 2^128 |
| TwapHistory.PriceIsFloor | stellar-lend/contracts/hello-world/src/amm_twap.rs:204-208 | The step price p of either side satisfies p own <= other 10^18 < (p + 1) own, and is the price the histories are built on |
| TwapHistory.UpdateAcceptedIff | stellar-lend/contracts/hello-world/src/amm_twap.rs:182-222 | Over every run, an update takes effect exactly with positive reserves and when neither product pricing the time since the last one leaves u128 |
| TwapHistory.QueryAnswersIff | stellar-lend/contracts/hello-world/src/amm_twap.rs:330-399 | Over every run, a query answers exactly for a window of 25 s or more, after some update, with an entry at or before the target or else 25 s of history, when the products of the extrapolation fit u128 |
| TwapHistory.TwapBetweenPrices | stellar-lend/contracts/hello-world/src/amm_twap.rs:330-399 | An answer whose integral is below 2^128 lies between the least and the greatest step price in force from the anchor to now |
| TwapHistory.RunIsReachable | stellar-lend/contracts/hello-world/src/amm_twap.rs:182-299 | In every reachable state the ring has at most 1440 entries at least 60 s apart, none later than the last update, and both cumulative prices of the state and of every entry are the exact integrals modulo 2^128 |
| TwapHistory.UpdateKeepsReachable | stellar-lend/contracts/hello-world/src/amm_twap.rs:182-222 | One accepted update keeps the ring shape and the agreement of both accumulators with the exact integrals, for the history extended by it |
| TwapHistory.RejectedUpdatesVanish | stellar-lend/contracts/hello-world/src/amm_twap.rs:182-222 | A run reaches the same state as the run of its accepted updates alone |
| TwapHistory.RingNonEmptyIff | stellar-lend/contracts/hello-world/src/amm_twap.rs:262-265 | The ring is non-empty exactly when some accepted update came at second 60 or later |
| TwapHistory.FullRingHasAnchor | stellar-lend/contracts/hello-world/src/amm_twap.rs:401-417 | Once the ring is full, every window of up to 86340 s finds an entry at or before its start |
| TwapHistory.LongerWindowsMissAnchor | stellar-lend/contracts/hello-world/src/amm_twap.rs:72-94 | That bound is exact: a reachable full ring from which every window above 86340 s, the documented 86400 s included, finds no anchor and is answered over 86340 s |
| TwapHistory.SameSecondUpdateIsNeutral | stellar-lend/contracts/hello-world/src/amm_twap.rs:182-222 | An update in the queried second, whatever its reserves and whether or not it is accepted or checkpoints, leaves the answer unchanged unless it evicts the anchor |
| TwapHistory.SameSecondUpdatesAreNeutral | stellar-lend/contracts/hello-world/src/amm_twap.rs:253-299 | Any number of updates in the queried second leave every answer for windows of 25 to 86340 s unchanged, evictions included |
| TwapHistory.LookupAfterRotation | stellar-lend/contracts/hello-world/src/amm_twap.rs:253-299 | Evicting the oldest entry and appending a newer one keeps the lookup of every target the second-oldest entry does not exceed |
| TwapSpan.AveragedSpanIsBounded | stellar-lend/contracts/hello-world/src/amm_twap.rs:253-399 | Over every run whose accepted updates come at most gap seconds apart, an answer averages fewer than 86460 + gap seconds more than the requested window |
| TwapSpan.SpanBoundIsAttained | stellar-lend/contracts/hello-world/src/amm_twap.rs:253-399 | That bound is exact for every gap of a second or more and every window of 25 to 86340 s: a run with updates at most gap apart and a query it answers over 86460 + gap - 1 seconds more than were asked for |
| TwapSpan.RunKeepsGaps | stellar-lend/contracts/hello-world/src/amm_twap.rs:253-299 | In every such run neighbouring ring entries are at most 86460 + gap seconds apart, and the newest is at most 86460 s behind the last update |
| TwapSpan.SecondRunState | stellar-lend/contracts/hello-world/src/amm_twap.rs:253-299 | The ring after any number of updates of that run: a day of entries, a day of refusals, then one rotation a minute |
| TwapSpan.RefusalsRecurIff | stellar-lend/contracts/hello-world/src/amm_twap.rs:267-290 | Among runs whose updates come at least gap seconds apart, one is refused a checkpoint after every original entry has been evicted if and only if gap is at most 120 |
| TwapSpan.SparseUpdatesAreNotRefused | stellar-lend/contracts/hello-world/src/amm_twap.rs:267-290 | Updates more than 120 s apart are never refused a checkpoint, in any run and at any time |
| TwapSpan.TwoMinutesRecur | stellar-lend/contracts/hello-world/src/amm_twap.rs:267-290 | A run with an update every 120 s that is refused after a full turnover of the ring |
| TwapHistory.WrappedSum | stellar-lend/contracts/hello-world/src/amm_twap.rs:200-211 | A wrapping addition to a wrapped total is the exact total modulo 2^128 |
| TwapHistory.WrappedDifference | stellar-lend/contracts/hello-world/src/amm_twap.rs:386-396 | A wrapping subtraction of two wrapped totals is their exact difference modulo 2^128 |
| TwapHistory.QuotientSeesWrap | stellar-lend/contracts/hello-world/src/amm_twap.rs:386-396 | Dividing a wrapped difference by elapsed seconds gives the unwrapped quotient exactly when nothing wrapped |
| TwapPool.FindSnapshotAtOrBefore | stellar-lend/contracts/hello-world/src/amm_twap.rs:424-455 | On every sorted ring the binary search finds what a scan from the newest end finds, in at most floor(log2 n) + 1 comparisons |
| TwapPool.LatestIsGreatest | stellar-lend/contracts/hello-world/src/amm_twap.rs:401-417 | The lookup is the entry with the greatest timestamp not after the target, and none exactly when all are newer |
| TwapPool.BitsIsLog2 | stellar-lend/contracts/hello-world/src/amm_twap.rs:413-455 | The step bound is the base-two logarithm, rounded down, plus one |
| TwapPool.FullRingSearchCost | stellar-lend/contracts/hello-world/src/amm_twap.rs:413-455 | A full ring is searched in at most eleven comparisons |
| TwapPool.CoverageIsExact | stellar-lend/contracts/hello-world/src/amm_twap.rs:486-530 | A query answers exactly when coverage holds and the projection to now fits in u128 |
| TwapPool.CoverageMissesOverflow | stellar-lend/contracts/hello-world/src/amm_twap.rs:486-530 | A reachable pool that passes the coverage check and whose query still overflows |
| TwapPool.TwapStore.Update | stellar-lend/contracts/hello-world/src/amm_twap.rs:182-222 | The stored state and ring after an accumulator call, or the abort that leaves both unchanged |
| TwapPool.TwapStore.MaybeWriteSnapshot | stellar-lend/contracts/hello-world/src/amm_twap.rs:253-299 | The ring after the throttle, the eviction gate and the append |
| TwapPool.TwapStore.GetTwap | stellar-lend/contracts/hello-world/src/amm_twap.rs:330-399 | The query computes the specified answer or the specified abort |
| TwapPool.TwapStore.HasWindowCoverage | stellar-lend/contracts/hello-world/src/amm_twap.rs:495-530 | The check holds exactly when the coverage predicate does |
| PriceAggregator.AggregateIsRobust | oracle/src/services/price-aggregator.ts:164-190 | With three prices or more, a strict majority in [lo, hi], a positive threshold, a non-zero deviation and the filtered list in use, the aggregate stays within Z (hi - lo) / 10000 of [lo, hi], whatever the other prices and all weights are |
| PriceAggregator.AggregateIsRobustBelowHalfQuorum | oracle/src/services/price-aggregator.ts:164-190 | With Z of at least 10000 and a quorum of at most half the prices, the filtered list is the one used, so the same bound needs no assumption on it |
| PriceAggregator.HalfSurvive | oracle/src/services/price-aggregator.ts:319-339 | With Z of at least 10000 at least half of the prices survive the filter |
| PriceAggregator.KeepIsFilter | oracle/src/services/price-aggregator.ts:335-338 | The filter keeps exactly the prices within the threshold, each as often as it was given |
| PriceAggregator.FilterKeeps | oracle/src/services/price-aggregator.ts:319-339 | The filter keeps a price, as often as given, exactly when it is off, has at most two prices or no deviation, or the distance from the median times 10000 is at most the nearest integer to 14826 zMax, times the deviation |
| PriceAggregator.MajorityPinsMedianAndMad | oracle/src/services/price-aggregator.ts:322-326 | A strict majority in [lo, hi] pins the median there and bounds the deviation by hi - lo |
| PriceAggregator.MedianInMajority | oracle/src/services/price-aggregator.ts:341-346 | The median of an ascending list lies wherever a strict majority of it lies |
| PriceAggregator.MedianOfInMajority | oracle/src/services/price-aggregator.ts:322-324 | The same for the median of any list, sorted first |
| PriceAggregator.MedianIsMiddle | oracle/src/services/price-aggregator.ts:341-346 | The median is the middle element, or half the sum of the two middle ones rounded toward zero |
| PriceAggregator.MedianSplitsInHalf | oracle/src/services/price-aggregator.ts:341-346 | At least half of an ascending list is not above its median, and at least half not below it |
| PriceAggregator.MadIsZeroIff | oracle/src/services/price-aggregator.ts:328-329 | The deviation is zero exactly when the median itself fills more than half of the list, or half of an even one with a strict majority within one unit |
| PriceAggregator.ZeroDeviationKeepsOutlier | oracle/src/services/price-aggregator.ts:312-329 | Three equal prices and one outlier have zero deviation, and the outlier with the volume becomes the answer |
| PriceAggregator.SimpleMedianIsRobust | oracle/src/services/price-aggregator.ts:255-268 | Without the filter the plain median still lies with the majority |
| PriceAggregator.WeightedMedian | oracle/src/services/price-aggregator.ts:222-250 | The weight loop returns the price at the first position where the accumulated weight reaches half, and nothing only for an empty list |
| PriceAggregator.WeightedMedianBalances | oracle/src/services/price-aggregator.ts:222-250 | The weighted median is one of the prices, and no range on one side of it carries more than half of the weight |
| PriceAggregator.WeightIsChosen | oracle/src/services/price-aggregator.ts:229-238 | A record weighs its volume when positive, else the weight of the first provider of its source's name, else a tenth |
| PriceAggregator.WeightlessMedianIsLeast | oracle/src/services/price-aggregator.ts:222-250 | Records that weigh nothing at all leave the least price |
| PriceAggregator.WeightedMedianAtMostIff | oracle/src/services/price-aggregator.ts:222-250 | The weighted median is at most a bound exactly when at least half of a positive total weight is |
| PriceAggregator.WeightedMedianWithinIff | oracle/src/services/price-aggregator.ts:222-250 | It lies in [lo, hi] exactly when at least half of the weight is at most hi and less than half is below lo |
| PriceAggregator.UnfilteredAggregateWithinIff | oracle/src/services/price-aggregator.ts:164-190 | When the filter keeps all prices or leaves fewer than the quorum, that is exactly when the weighted aggregate of all prices is in range, and the unweighted one is wherever a strict majority is |
| PriceAggregator.SortIntsSorts | oracle/src/services/price-aggregator.ts:322 | Sorting yields an ascending permutation |
| PriceAggregator.SortByPriceSorts | oracle/src/services/price-aggregator.ts:225 | Sorting records by price permutes them and sorts their prices |
| Sqrt.NewtonSqrt | stellar-lend/contracts/amm/src/math.rs:7-24 | For every i128 argument the loop terminates, no intermediate value leaves i128, and the result is the integer square root; negative arguments panic |
| Sqrt.SqrtOf | stellar-lend/contracts/amm/src/math.rs:7-24 | The reference root r, found digit by digit, satisfies r^2 <= y < (r+1)^2 |
| Sqrt.NewtonStepStaysAbove | stellar-lend/contracts/amm/src/math.rs:16-17 | One step from any positive guess lands at or above the root |
| Sqrt.NewtonStopsBelow | stellar-lend/contracts/amm/src/math.rs:15 | A guess that the step does not lower is at or below the root |
| Sqrt.NewtonStepFits | stellar-lend/contracts/amm/src/math.rs:14-18 | From any guess in range the step stays in range, at or above the root, and its sum stays below i128::MAX |
| LiquidityMath.RunKeepsBacking | stellar-lend/contracts/amm/src/liquidity_math.rs:50-166 | Over any run of mints and burns that keeps shares outstanding, what backs a share in either token never decreases |
| LiquidityMath.StepKeepsBacking | stellar-lend/contracts/amm/src/liquidity_math.rs:50-166 | One mint or burn keeps the pool solvent, an empty supply holding nothing, and dilutes no share |
| LiquidityMath.MintThenBurnLoses | stellar-lend/contracts/amm/src/liquidity_math.rs:50-166 | Burning exactly the shares just minted, the first deposit included, returns at most what was deposited |
| LiquidityMath.SplitBurnsPayLess | stellar-lend/contracts/amm/src/liquidity_math.rs:140-166 | A burn split into any pieces pays in total at most one burn of the sum |
| LiquidityMath.TwoBurnsPayLess | stellar-lend/contracts/amm/src/liquidity_math.rs:140-166 | Two redemptions in a row pay at most one of both, floors included |
| LiquidityMath.MintedShares | stellar-lend/contracts/amm/src/liquidity_math.rs:69-87 | A later deposit mints the most shares that neither amount over-pays for |
| LiquidityMath.FirstMintIsGeometricMean | stellar-lend/contracts/amm/src/liquidity_math.rs:57-68 | The first deposit mints the integer geometric mean, a thousand of it locked |
| LiquidityMath.BurnedAmounts | stellar-lend/contracts/amm/src/liquidity_math.rs:140-166 | A burn pays the floored pro-rata part of each reserve, all of it for the whole supply and never more than there is |
| LiquidityMath.MintSucceedsIff | stellar-lend/contracts/amm/src/liquidity_math.rs:50-88 | A first deposit mints exactly when its product is at least 1001^2 and fits; a later one when both reserves are there, both products fit and each side pays for a share |
| LiquidityMath.BurnSucceedsIff | stellar-lend/contracts/amm/src/liquidity_math.rs:140-166 | A burn pays exactly for 0 < shares <= supply whose products with the reserves fit |
| LiquidityMath.StepLeaves | stellar-lend/contracts/amm/src/liquidity_math.rs:50-166 | A mint adds the deposit to the reserves and all its shares, the locked thousand included, to the supply; a burn takes off what it pays and burns |
| AmmPool.EffectiveKNeverDecreases | stellar-lend/contracts/amm/src/lib.rs:236-558 | Over any run of swaps both ways, additions, flash swaps and repayments in any order, swaps in either direction interleaving a flash swap included, the effective k (the stored one while a flash swap is in flight) never decreases |
| AmmPool.SwapCheckNeverFires | stellar-lend/contracts/amm/src/lib.rs:607-626 | At any fee from 0 to 10000 the k-check of a swap never fires, in either direction, even when the swap goes through during a flash swap |
| AmmPool.CheckFiresIff | stellar-lend/contracts/amm/src/lib.rs:607-626 | In either direction some swap at a fee trips the k-check if and only if the fee is above 10000, or negative and at least 10000 - floor(i128::MAX / 2) |
| AmmPool.VeryNegativeFeePaysNothing | stellar-lend/contracts/amm/src/lib.rs:247-264 | At fees below that every output computation overflows, except for one unit of input against an output reserve of one, which pays nothing |
| AmmPool.NoProfitableRoundTrip | stellar-lend/contracts/amm/src/lib.rs:236-558 | Between two idle states of any run, a reserve that has not grown means that the other has not shrunk |
| AmmPool.RunKeepsReservesPositive | stellar-lend/contracts/amm/src/lib.rs:236-558 | Over any run both reserves stay positive |
| AmmPool.SplitSwapsPayLess | stellar-lend/contracts/amm/src/lib.rs:247-264 | Any list of amounts swapped one after another in one direction pays at most one swap of their sum, all floors included |
| AmmPool.TwoSwapsPayLess | stellar-lend/contracts/amm/src/lib.rs:247-264 | Two swaps in a row pay at most one swap of both inputs |
| AmmPool.SwapPaysQuote | stellar-lend/contracts/amm/src/lib.rs:341-357 | A successful swap in either direction pays the quote, less than the whole reserve, and moves both reserves by what was traded |
| AmmPool.SwapLeaves | stellar-lend/contracts/amm/src/lib.rs:236-367 | A successful swap pays the largest output o with o (10000 rIn + x (10000 - fee)) <= x (10000 - fee) rOut, moves both reserves by what was traded, adds the floored fee to the counter of the input side and leaves the other counter and the flash-swap fields |
| AmmPool.SwapSucceedsIff | stellar-lend/contracts/amm/src/lib.rs:236-367 | At fees from 0 to 10000 a swap succeeds exactly with positive amounts and reserves, no product out of i128, and, from A to B, within the impact bound and not blocked by the guard |
| AmmPool.QuoteIsLargest | stellar-lend/contracts/amm/src/lib.rs:247-264 | The quote is the largest output that the fee-adjusted product rule allows |
| AmmPool.QuoteKeepsProduct | stellar-lend/contracts/amm/src/lib.rs:247-264 | Paying the quote never lowers the product and never empties the reserve |
| AmmPool.ImpactIsBounded | stellar-lend/contracts/amm/src/lib.rs:270-298 | With the guard on, a swap lowers the spot price by a fraction below (max + 1) / 10000, exactly |
| AmmPool.ImpactAllowedIff | stellar-lend/contracts/amm/src/lib.rs:275-298 | The guard passes exactly when it is off or the spot price falls by a fraction below (max + 1) / 10000 in products that fit |
| AmmPool.FeesWithinInputs | stellar-lend/contracts/amm/src/lib.rs:89-104 | Each fee counter never decreases and never gains more than the inputs of its own side |
| AmmPool.MinimalRepayment | stellar-lend/contracts/amm/src/lib.rs:640-669 | With nothing in between, a repayment that overflows nothing is accepted exactly when it is at least the published minimum |
| AmmPool.Pool.SwapAToB | stellar-lend/contracts/amm/src/lib.rs:236-304 | Stored reserves and fee after the swap, or the error with nothing changed, under both readings of the guard whose result line 237 drops |
| AmmPool.Pool.SwapBToA | stellar-lend/contracts/amm/src/lib.rs:331-367 | The same for the other direction, which no flash swap blocks and no impact guard limits |
| AmmPool.Pool.Add | stellar-lend/contracts/amm/src/lib.rs:199-209 | Stored reserves after an addition, or the error with nothing changed |
| AmmPool.Pool.FlashSwap | stellar-lend/contracts/amm/src/lib.rs:428-469 | Reserves, stored k and flag after the optimistic debit, or the error with nothing changed |
| AmmPool.Pool.Repay | stellar-lend/contracts/amm/src/lib.rs:504-558 | Reserves and flag after an accepted repayment, or the error with nothing changed |
| AmmPool.AddLeaves | stellar-lend/contracts/amm/src/lib.rs:199-209 | An addition succeeds exactly when idle, without overflow and without lowering the product, and adds each amount to its own side and nothing else |
| AmmPool.FlashLeaves | stellar-lend/contracts/amm/src/lib.rs:428-469 | A flash swap succeeds exactly when idle and short of the reserve, takes the output, stores the product from before and is then in flight |
| AmmPool.RepayLeaves | stellar-lend/contracts/amm/src/lib.rs:504-558 | A repayment succeeds exactly in flight and when it restores the stored product, adds its amount to reserve A, ends the flash swap and changes nothing else |
| AmmPool.FlashSwapsAlternate | stellar-lend/contracts/amm/src/lib.rs:428-558 | From an idle pool, at every point of every run, the accepted flash swaps are ahead of the accepted repayments by one exactly while one is in flight, and level otherwise |
| ValueWindow.AnyIntervalAdmitsAtMostTwiceCap | stellar-lend/contracts/bridge/src/lib.rs:760-856 | Over any run with a clock that never runs back, any interval of one window length admits at most twice the cap |
| ValueWindow.RollingCapIff | stellar-lend/contracts/bridge/src/lib.rs:760-856 | From a fresh window, every interval of one window length admits at most the cap in every run if and only if the cap is zero, the window is one second long, or its end exceeds u64 |
| ValueWindow.TwiceCapIsAttained | stellar-lend/contracts/bridge/src/lib.rs:760-856 | In every other configuration two transfers in neighbouring seconds are both admitted, twice the cap in one window length |
| ValueWindow.TotalByTime | stellar-lend/contracts/bridge/src/lib.rs:760-856 | From a fresh window the total admitted by time t is at most cap (floor((t - t0) / W) + 1) |
| ValueWindow.AdmittedSoFar | stellar-lend/contracts/bridge/src/lib.rs:804-826 | What an interval has admitted so far is bounded by where it lies relative to the current window |
| ValueWindow.AttemptKeepsIntervalBound | stellar-lend/contracts/bridge/src/lib.rs:804-826 | One attempt, admitted or rejected, rolling or not, keeps that bound |
| ValueWindow.RunShape | stellar-lend/contracts/bridge/src/lib.rs:760-788 | In every reachable state the window holds between nothing and the cap and starts no later than the last attempt |
| ValueWindow.AdmittedIff | stellar-lend/contracts/bridge/src/lib.rs:804-826 | Over any run from a fresh window, an attempt is admitted exactly when its amount is non-negative, the cap is positive and the amount with all that was admitted since its window opened is at most the cap |
| ValueWindow.WindowIsExact | stellar-lend/contracts/bridge/src/lib.rs:760-788 | The stored total is what has been admitted since the window opened, and it opened at the last attempt to find its predecessor over |
| ValueWindow.ConfiguredIsFresh | stellar-lend/contracts/bridge/src/lib.rs:718-752 | Reconfiguration is refused exactly for a negative cap or an empty window, and otherwise starts an empty window now |
| Bridge.BridgeObject.constructor | stellar-lend/contracts/bridge/src/lib.rs:301-318 | A new bridge is at epoch 0 with no pauses, no guardian and caps of zero |
| Bridge.BridgeObject.VerifyQuorumProof | stellar-lend/contracts/bridge/src/lib.rs:433-482 | The loop over proofs accepts exactly what the quorum specification accepts, with the same first error |
| Bridge.BridgeObject.HasDuplicates | stellar-lend/contracts/bridge/src/lib.rs:546-553 | The hash-set loop finds a duplicate exactly when the list has one |
| Bridge.BridgeObject.RotateValidators | stellar-lend/contracts/bridge/src/lib.rs:522-595 | Membership and churn after a rotation, or the first error with nothing changed |
| Bridge.BridgeObject.PauseValidator | stellar-lend/contracts/bridge/src/lib.rs:621-668 | Membership after a pause, or the first error with nothing changed |
| Bridge.BridgeObject.UnpauseValidator | stellar-lend/contracts/bridge/src/lib.rs:676-702 | Membership after an unpause, or the first error with nothing changed |
| Bridge.BridgeObject.SetInboundCap | stellar-lend/contracts/bridge/src/lib.rs:718-731 | A fresh inbound window from now, or a refusal that changes nothing |
| Bridge.BridgeObject.SetOutboundCap | stellar-lend/contracts/bridge/src/lib.rs:739-752 | A fresh outbound window from now, or a refusal that changes nothing |
| Bridge.BridgeObject.AdmitInbound | stellar-lend/contracts/bridge/src/lib.rs:804-826 | The inbound window after an attempt, rolled even when rejected, and nothing outbound changed |
| Bridge.BridgeObject.AdmitOutbound | stellar-lend/contracts/bridge/src/lib.rs:834-856 | The outbound window after an attempt, rolled even when rejected, and nothing inbound changed |
| BridgeRuns.AcceptedProofsIntersect | stellar-lend/contracts/bridge/src/lib.rs:433-482 | Two accepted proofs from the same validators and pauses have more than a third of the active validators in common, each with a valid signature of its payload presented in both proofs |
| BridgeRuns.AcceptedProofsOverlap | stellar-lend/contracts/bridge/src/lib.rs:433-482 | Whatever is paused in either state, two accepted proofs have at least as many such common signers as the two thresholds exceed the validators active in either |
| BridgeRuns.RotationIsUnique | stellar-lend/contracts/bridge/src/lib.rs:522-595 | Two states with the same or different pauses accept only one new set for an epoch, if fewer keys sign both sets in the two proofs than the quorums must share |
| BridgeRuns.HonestTwoThirdsSuffice | stellar-lend/contracts/bridge/src/lib.rs:367-370 | With the same pauses that holds whenever at most a third of the active validators are outside a group that never signs two sets |
| BridgeRuns.ReachableSplitIff | stellar-lend/contracts/bridge/src/lib.rs:433-702 | Over runs of a new bridge, two replicas that have paused given sets of validators can rotate to two given different sets with at most k double signers if and only if their two thresholds exceed the validators not paused by both by at most k |
| BridgeRuns.SplitIff | stellar-lend/contracts/bridge/src/lib.rs:433-595 | The same for any two live states: the number of double signers that AcceptedProofsOverlap forces is also enough, for any two sets acceptable but for their proofs |
| BridgeRuns.FewestDoubleSigners | stellar-lend/contracts/bridge/src/lib.rs:433-482 | Proofs and a signature scheme that attain that number |
| BridgeRuns.PauseRun | stellar-lend/contracts/bridge/src/lib.rs:621-668 | Every proper subset of the validators can be paused, by a guardian set first |
| BridgeRuns.ReplicasAgree | stellar-lend/contracts/bridge/src/lib.rs:522-702 | Two replicas fed arbitrary calls and proofs, pauses included, hold the same validators whenever they are at the same epoch, if the accepted proofs occurring in the two runs contain few double signers whenever both rotate from one epoch |
| BridgeRuns.QuorumsOverlap | stellar-lend/contracts/bridge/src/lib.rs:367-370 | Quorums of two sets of active validators share at least what their sizes exceed the two sets by |
| BridgeRuns.SignersAreActive | stellar-lend/contracts/bridge/src/lib.rs:433-482 | Every collected signer is active and has a valid signature in the proof |
| BridgeRuns.SignersIff | stellar-lend/contracts/bridge/src/lib.rs:433-482 | A proof collects exactly when all its keys are members and each key not paused has a valid first signature, and then collects exactly its active keys |
| BridgeRuns.QuorumIff | stellar-lend/contracts/bridge/src/lib.rs:433-482 | A proof is accepted exactly when it is such, for the payload of this bridge, this set and this epoch, and more than two thirds of the active validators are in it |
| BridgeRuns.RotatedIff | stellar-lend/contracts/bridge/src/lib.rs:522-595 | A rotation succeeds exactly for the next epoch, 3 to 32 distinct keys, a symmetric difference within the limit and an accepted proof; it leaves the new set, that epoch and no pauses, and the rest as it was |
| BridgeRuns.PausedIff | stellar-lend/contracts/bridge/src/lib.rs:621-668 | A pause succeeds exactly for an active member beside another one, signed by the guardian, and pauses that member only |
| BridgeRuns.UnpausedIff | stellar-lend/contracts/bridge/src/lib.rs:676-702 | An unpause succeeds exactly for a paused member, signed by the guardian, and makes that member active again and nobody else |
| BridgeRuns.ThresholdIsLeast | stellar-lend/contracts/bridge/src/lib.rs:367-370 | The threshold is the least supermajority of two thirds |
| BridgeRuns.ChurnCounts | stellar-lend/contracts/bridge/src/lib.rs:555-572 | Churn is the number of keys in one of the two sets only |
| BridgeRuns.HonestProofCollects | stellar-lend/contracts/bridge/src/lib.rs:433-482 | A proof of members with valid active signatures collects exactly its active keys, whatever the order and repetitions |
| BridgeRuns.HonestProofAccepted | stellar-lend/contracts/bridge/src/lib.rs:433-482 | Such a proof is accepted exactly when its active keys reach the effective threshold |
| BridgeRuns.ReachableIsLive | stellar-lend/contracts/bridge/src/lib.rs:522-702 | In every reachable state the epoch counts the successful rotations, pauses name current validators and the threshold is at most the active count; after a rotation the set has 3 to 32 keys and no duplicates |
| BridgeRuns.StepKeepsLive | stellar-lend/contracts/bridge/src/lib.rs:621-702 | Every call keeps that invariant, and only a rotation moves the epoch or the validators |
| BridgeRuns.NewCouncilIsLive | stellar-lend/contracts/bridge/src/lib.rs:346-370 | The invariant holds initially exactly when the initial set is not empty |
| BridgeRuns.ChurnAccumulates | stellar-lend/contracts/bridge/src/lib.rs:555-585 | Under a fixed limit c, the sets k rotations apart differ by at most k c keys |
| BridgeRuns.StepChurn | stellar-lend/contracts/bridge/src/lib.rs:574-582 | One call changes at most the limit if it rotates and nothing otherwise |
| BridgeRuns.ChurnTriangle | stellar-lend/contracts/bridge/src/lib.rs:555-572 | The churn between sets obeys the triangle inequality |
| Debt.AccruedInterest | stellar-lend/contracts/lending/src/rounding_strategy.rs:46-142 | For non-negative principal p and rate r over t seconds, the interest i is computable exactly when p t, p t r and 10^6 p t r fit i128; then p t r < (i + 1) 315360000000 and 2000000 (315360000000 i - p t r) <= 315360000000 |
| Debt.DebtWithInterest | stellar-lend/contracts/lending/src/debt.rs:291-402 | The effective debt is the principal plus such an interest for the time since the last update, and settling stores it with the new time |
| Debt.InsuranceShareIsFloor | stellar-lend/contracts/lending/src/lib.rs:2227-2268 | Settlement with insurance succeeds exactly when settlement does and the fund's sums fit, and adds to the fund exactly the floored share of the interest |
| Debt.InterestAccuracy | stellar-lend/contracts/lending/src/rounding_strategy.rs:46-142 | Rounding to six digits and flooring is the floor, except that a fraction within half a millionth of the next unit is rounded up |
| Debt.TiesGoToEven | stellar-lend/contracts/lending/src/rounding_strategy.rs:113-142 | At six digits, ties are rounded to even |
| Debt.InterestMonotone | stellar-lend/contracts/lending/src/rounding_strategy.rs:46-142 | A larger exact interest never rounds to less |
| Debt.AccrualMonotone | stellar-lend/contracts/lending/src/debt.rs:223-236 | More principal, more time or a higher rate never accrues less, and what is computable for the larger is for the smaller |
| Debt.SettlingIsIdempotent | stellar-lend/contracts/lending/src/debt.rs:291-483 | Settling adds the interest once: it matches the effective debt, repeating it changes nothing, and a borrow or repayment after it moves exactly its amount |
| Debt.InsuranceShareIsBounded | stellar-lend/contracts/lending/src/lib.rs:2227-2268 | Settlement adds to the insurance fund between nothing and the interest settled |
| Liquidation.CoveredPositionsStayCovered | stellar-lend/contracts/lending/src/lib.rs:1340-1440 | Any sequence of liquidations at one timestamp keeps 10 collateral >= 11 debt, never lowers the exact collateral ratio and books no bad debt |
| Liquidation.LiquidationDynamics | stellar-lend/contracts/lending/src/lib.rs:1340-1440 | A shortfall implies 20 collateral < 11 debt; each success lowers the settled debt strictly, by at most half |
| Liquidation.LiquidationFacts | stellar-lend/contracts/lending/src/lib.rs:1340-1440 | A success means 4 collateral < 5 debt, repays the smaller of the amount and half the debt, and seizes 11/10 of it floored or all the collateral |
| Liquidation.LiquidatableIff | stellar-lend/contracts/lending/src/lib.rs:1355-1366 | A settled position is reported healthy when 4 collateral >= 5 debt, unless a product overflows, and never otherwise |
| Liquidation.LiquidationSucceedsIff | stellar-lend/contracts/lending/src/lib.rs:1340-1440 | A liquidation of a sound book succeeds exactly when the debt settles, 4 collateral < 5 debt, something is repaid, and the products and the bad debt fit |
| Liquidation.LiquidationConserves | stellar-lend/contracts/lending/src/lib.rs:1395-1432 | What the liquidator is entitled to comes from the collateral, the insurance fund or new bad debt, the last only when the other two are empty |
| Liquidation.WriteOffWaterfall | stellar-lend/contracts/lending/src/lib.rs:1904-1991 | A write-off succeeds exactly when insurance and deposits together cover it; it drains insurance first, conserves the total, and the socialised tier pays nothing |
| Liquidation.BookStore.Liquidate | stellar-lend/contracts/lending/src/lib.rs:1308-1466 | The stored book after a liquidation, or the error with the book as before |
| Liquidation.BookStore.LiquidateBody | stellar-lend/contracts/lending/src/lib.rs:1335-1440 | The writes of a liquidation in order, before any rollback |
| Liquidation.BookStore.Draw | stellar-lend/contracts/lending/src/lib.rs:2270-2285 | Amount drawn and fund left |
| Liquidation.BookStore.WriteOffBadDebt | stellar-lend/contracts/lending/src/lib.rs:1904-1991 | The stored book after a write-off, or the error with nothing changed |
| RateModel.SmoothingIsBounded | stellar-lend/contracts/lending/src/rate_model.rs:99-127 | Over all i128 rates and non-negative steps, smoothing stays between the last rate and the target, and with time elapsed and a finite step moves by at most step times elapsed |
| RateModel.SmoothingIsExact | stellar-lend/contracts/lending/src/rate_model.rs:99-127 | With at least one ledger elapsed and a finite non-negative step, the rate moves by exactly step times elapsed, or by the excess over the band if that is less |
| RateModel.UnlimitedStepJumps | stellar-lend/contracts/lending/src/rate_model.rs:107-109 | Without a finite step the rate moves to the edge of the band |
| RateModel.HysteresisStopsAtBand | stellar-lend/contracts/lending/src/rate_model.rs:72-97 | Hysteresis moves the rate exactly to the edge of the band around the target |
| RateModel.IterationClosedForm | stellar-lend/contracts/lending/src/rate_model.rs:72-127 | After n steps one ledger apart the rate has covered n steps, or the whole excess over the band, whichever is less |
| RateModel.IterationConverges | stellar-lend/contracts/lending/src/rate_model.rs:72-127 | The rate is in the band exactly from step ceil((gap - band) / step) on, and fixed from there |
| RateModel.SameLedgerJumps | stellar-lend/contracts/lending/src/rate_model.rs:107-109 | With no ledger elapsed the rate jumps to the edge of the band, so it keeps still exactly when the target is within it |
| RateModel.RunIsBounded | stellar-lend/contracts/lending/src/rate_model.rs:129-169 | Over any run in ever later ledgers, whatever the targets, the stored rate stays between floor and ceiling and drifts by at most the step per ledger over the whole run |
| RateModel.UpdateIsBounded | stellar-lend/contracts/lending/src/rate_model.rs:129-169 | One update in a later ledger keeps the rate in range and moves it by at most the step per ledger |
| RateModel.UpdateIsExact | stellar-lend/contracts/lending/src/rate_model.rs:129-169 | An update stores the target and the ledger, and the rate moved by exactly that much (the target itself on the first), brought between floor and ceiling |
| RateModel.RateStore.UpdateAndGetRate | stellar-lend/contracts/lending/src/rate_model.rs:129-169 | The stored rate, target and ledger after an update |
| CrossLedgerRuns.RunKeepsExact | stellar-lend/contracts/lending/src/cross_asset.rs:415-690 | At every point of a run by any users on any assets, lists name exactly the positive positions without duplicates and each total equals the sum of principals, if and only if before each repayment that takes effect the total, with the debt and its interest less the amount in place of the stored principal, fits in i128 |
| CrossLedgerRuns.RepayKeepsExact | stellar-lend/contracts/lending/src/cross_asset.rs:635-690 | A repayment, even one smaller than the accrued interest, keeps the lists exact, and the total exact if and only if that condition on the state before it holds |
| CrossLedgerRuns.RepayLeavesTotal | stellar-lend/contracts/lending/src/cross_asset.rs:652-682 | The figure of that condition is the sum of principals that the repayment leaves |
| SaturatedTotal.RepayCanSaturate | stellar-lend/contracts/lending/src/cross_asset.rs:509-690 | A run from the empty ledger of 10001 borrowers, each healthy, reaches an exact ledger on which a repayment of one unit a year later, at any rate from 10 to 10000 bps, leaves a total that is not the sum |
| SaturatedTotal.ScriptRuns | stellar-lend/contracts/lending/src/cross_asset.rs:415-622 | Totals, listings and debts after each of those borrowers, with lists and totals exact |
| SaturatedTotal.HealthyDebtIsSmall | stellar-lend/contracts/lending/src/cross_asset.rs:241-307 | At positive prices nobody healthy owes more than a ten-thousandth of i128, so one debtor is not enough for it |
| CrossLedgerRuns.RepayFacts | stellar-lend/contracts/lending/src/cross_asset.rs:635-690 | A repayment settles first, then lowers the principal to no less than zero, and drops the asset from the list exactly at zero |
| CrossLedgerRuns.BorrowKeepsExact | stellar-lend/contracts/lending/src/cross_asset.rs:509-622 | A borrow keeps lists and totals exact, and succeeds only within ceiling, cap and health factor |
| CrossLedgerRuns.BorrowFacts | stellar-lend/contracts/lending/src/cross_asset.rs:509-622 | A borrow raises the principal and the total by the settled interest plus the amount |
| CrossLedgerRuns.DepositKeepsExact | stellar-lend/contracts/lending/src/cross_asset.rs:415-439 | A deposit keeps lists and totals exact and moves one balance |
| CrossLedgerRuns.WithdrawKeepsExact | stellar-lend/contracts/lending/src/cross_asset.rs:452-493 | A withdrawal keeps lists and totals exact, moves one balance and leaves the user healthy |
| CrossLedgerRuns.HealthFactorSeesEverything | stellar-lend/contracts/lending/src/cross_asset.rs:241-307 | In an exact ledger the health factor over the stored lists is the one over any enumeration of all assets |
| CrossLedgerOutcomes.HealthFactorIff | stellar-lend/contracts/lending/src/cross_asset.rs:241-307 | The health factor is computable exactly when nothing is owed, or every asset listed is configured and priced within the hour and neither exact total leaves i128 |
| CrossLedgerOutcomes.PriceIff | stellar-lend/contracts/lending/src/cross_asset.rs:88-98 | A price is returned exactly when on record and at most 3600 s old |
| CrossLedgerOutcomes.DepositIff | stellar-lend/contracts/lending/src/cross_asset.rs:415-439 | A deposit succeeds exactly for a positive amount of a configured asset that fits, and touches only balances and collateral lists |
| CrossLedgerOutcomes.WithdrawIff | stellar-lend/contracts/lending/src/cross_asset.rs:452-493 | A withdrawal succeeds exactly for a positive amount that is there and leaves the user healthy, and touches only balances and collateral lists |
| CrossLedgerOutcomes.BorrowIff | stellar-lend/contracts/lending/src/cross_asset.rs:509-622 | A borrow succeeds exactly for an amount of a configured asset not below the minimum, when the debt settles, the user stays healthy and the totals stay within ceiling, cap and i128 |
| CrossLedgerOutcomes.BorrowLeaves | stellar-lend/contracts/lending/src/cross_asset.rs:509-622 | A borrow raises both totals by what the principal rose, pays the fund its share and changes nothing else |
| CrossLedgerOutcomes.RepayIff | stellar-lend/contracts/lending/src/cross_asset.rs:635-690 | A repayment succeeds exactly for a positive amount of a configured asset whose debt settles; the protocol total moves by what the principal did, saturating, and the fund gains its share |
| CrossLedgerOutcomes.SettersIff | stellar-lend/contracts/lending/src/lib.rs:553-654 | A price is stored exactly when positive, at most an hour old, not from the future and newer than the stored one; parameters exactly when in range; each replaces one entry only |
| CrossLedgerOutcomes.RunKeepsConfigured | stellar-lend/contracts/lending/src/lib.rs:553-654 | Over every run all prices stay positive and all thresholds non-negative |
| CrossLedgerRuns.EmptyIsExact | stellar-lend/contracts/lending/src/cross_asset.rs:156-173 | The empty ledger is exact |
| CrossLedgerRuns.AddToExact | stellar-lend/contracts/lending/src/cross_asset.rs:101-140 | Adding to a list adds exactly that asset, once |
| CrossLedgerRuns.RemoveFromExact | stellar-lend/contracts/lending/src/cross_asset.rs:114-151 | Removing from a list removes exactly that asset |
| CrossLedger.RemoveFirstRemoves | stellar-lend/contracts/lending/src/cross_asset.rs:114-151 | Removing the first occurrence from a duplicate-free list leaves exactly the others, still duplicate-free |
| CrossLedger.LedgerStore.SumCollateral | stellar-lend/contracts/lending/src/cross_asset.rs:251-275 | The collateral loop computes the weighted sum or its first error |
| CrossLedger.LedgerStore.SumDebt | stellar-lend/contracts/lending/src/cross_asset.rs:277-296 | The debt loop computes the debt value or its first error |
| CrossLedger.LedgerStore.ComputeHealthFactor | stellar-lend/contracts/lending/src/cross_asset.rs:241-307 | The health factor or its first error |
| CrossLedger.LedgerStore.Deposit | stellar-lend/contracts/lending/src/cross_asset.rs:415-439 | The stored ledger after a deposit, or the error with nothing changed |
| CrossLedger.LedgerStore.Withdraw | stellar-lend/contracts/lending/src/cross_asset.rs:452-493 | The stored ledger after a withdrawal, or the error with everything written back |
| CrossLedger.LedgerStore.Borrow | stellar-lend/contracts/lending/src/cross_asset.rs:509-622 | The stored ledger after a borrow, or the error with the ledger as before |
| CrossLedger.LedgerStore.BorrowBody | stellar-lend/contracts/lending/src/cross_asset.rs:509-622 | The writes of a borrow in order, before any rollback |
| CrossLedger.LedgerStore.AddToTotals | stellar-lend/contracts/lending/src/cross_asset.rs:560-617 | Asset and protocol totals after a borrow, or the ceiling, cap or overflow error |
| CrossLedger.LedgerStore.Repay | stellar-lend/contracts/lending/src/cross_asset.rs:635-690 | The stored ledger after a repayment, or the error with nothing changed |
| AssetLedger.HealthyIsExact | stellar-lend/contracts/hello-world/src/cross_asset.rs:507-578 | A position called healthy has exact weighted collateral at least its exact debt, for any list of assets and decimals; and a margin above the rounding room is always called healthy |
| AssetLedger.SummaryBounds | stellar-lend/contracts/hello-world/src/cross_asset.rs:507-578 | The summary is below the exact capacity and above the exact debt, by no more than the rounding room in all |
| AssetLedger.BorrowLeavesSolvent | stellar-lend/contracts/hello-world/src/cross_asset.rs:642-680 | A successful borrow leaves the exact weighted collateral over all registered assets at least the exact debt |
| AssetLedger.RunKeepsConsistent | stellar-lend/contracts/hello-world/src/cross_asset.rs:587-702 | Over every run each per-asset total equals the sum of its users' balances |
| AssetLedger.EmptyIsConsistent | stellar-lend/contracts/hello-world/src/cross_asset.rs:263-320 | The empty book is consistent, so runs from it are covered |
| AssetLedger.RepayClampNeverFires | stellar-lend/contracts/hello-world/src/cross_asset.rs:683-702 | In such a state a repayment never aborts and never clamps the total at zero |
| AssetLedger.SupplyIff | stellar-lend/contracts/hello-world/src/cross_asset.rs:587-636 | In such a state deposits succeed exactly for positive amounts of a registered asset whose total fits, and withdrawals exactly for positive amounts that are there |
| AssetLedger.BorrowIff | stellar-lend/contracts/hello-world/src/cross_asset.rs:642-680 | In such a state a borrow succeeds exactly for a positive amount of a borrowable asset whose total fits, when the summary with the new debt is computable and shows no debt or enough capacity |
| AssetLedger.OperationsStayApart | stellar-lend/contracts/hello-world/src/cross_asset.rs:587-702 | Deposits and withdrawals touch only the supply maps, borrows and repayments only the debt maps |
| AssetLedger.RegisterIff | stellar-lend/contracts/hello-world/src/cross_asset.rs:370-396 | A registration succeeds exactly for a new asset with at most 38 decimals and a factor from 0 to 10000, lists it last with the settings given and touches nothing else |
| AssetLedger.RepriceIff | stellar-lend/contracts/hello-world/src/cross_asset.rs:445-458 | A price update succeeds exactly for a positive price of a registered asset and changes that price only |
| AssetLedger.MoveKeepsExact | stellar-lend/contracts/hello-world/src/cross_asset.rs:587-702 | Moving one balance and its total by the same amount keeps all totals exact |
| AssetLedger.OperationsMoveOneBalance | stellar-lend/contracts/hello-world/src/cross_asset.rs:587-702 | Each operation moves one balance of one user by its amount and no other |
| AssetLedger.RunKeepsRegistry | stellar-lend/contracts/hello-world/src/cross_asset.rs:370-396 | The registry lists each configured asset once with settings in range at every point of a run, if and only if the run registers no negative price |
| AssetValue.NormalFormsBracket | stellar-lend/contracts/hello-world/src/cross_asset.rs:198-237 | The two normal forms bracket the exact price within one unit of the eighteenth decimal, and are exact up to eighteen decimals |
| AssetValue.NormalFormsAreFloorAndCeiling | stellar-lend/contracts/hello-world/src/cross_asset.rs:198-237 | They are the floor and the ceiling of the exact price at eighteen decimals |
| AssetValue.NormalFormsExistIff | stellar-lend/contracts/hello-world/src/cross_asset.rs:198-237 | They exist exactly when the price scaled up, or the sum before rounding up, fits i128 |
| AssetValue.CollateralIff | stellar-lend/contracts/hello-world/src/cross_asset.rs:527-550 | An asset adds nothing unless supplied and usable, else the floored value and the floored capacity, exactly when its two products fit |
| AssetValue.DebtIff | stellar-lend/contracts/hello-world/src/cross_asset.rs:552-563 | An asset adds the ceiling of the debt at the raised price, exactly when the sum before rounding up fits |
| AssetValue.AssetAddsIff | stellar-lend/contracts/hello-world/src/cross_asset.rs:515-566 | The summary adds value, capacity and debt each to its own total, exactly when all three sums fit |
| AssetValue.CapacityBounds | stellar-lend/contracts/hello-world/src/cross_asset.rs:527-550 | Borrowing capacity of one asset is at most exact, and short of it by no more than the stated room |
| AssetValue.DebtBounds | stellar-lend/contracts/hello-world/src/cross_asset.rs:552-563 | Debt value of one asset is at least exact, and above it by no more than the stated room |
| AssetValue.Pow10Loop | stellar-lend/contracts/hello-world/src/cross_asset.rs:190-196 | The checked loop yields the power of ten, or nothing exactly when it overflows i128 |
| AssetLedger.BookStore.InitializeAsset | stellar-lend/contracts/hello-world/src/cross_asset.rs:370-396 | The stored book after a registration, or the error with nothing changed |
| AssetLedger.BookStore.UpdateAssetPrice | stellar-lend/contracts/hello-world/src/cross_asset.rs:445-458 | The stored book after a price update, or the error with nothing changed |
| AssetLedger.BookStore.UserPositionSummary | stellar-lend/contracts/hello-world/src/cross_asset.rs:507-578 | The summary loop computes the specified totals or the first error |
| AssetLedger.BookStore.Deposit | stellar-lend/contracts/hello-world/src/cross_asset.rs:587-612 | The stored book after a deposit, or the error with nothing changed |
| AssetLedger.BookStore.Withdraw | stellar-lend/contracts/hello-world/src/cross_asset.rs:615-636 | The stored book after a withdrawal, or the error with nothing changed |
| AssetLedger.BookStore.Borrow | stellar-lend/contracts/hello-world/src/cross_asset.rs:642-680 | The stored book after a borrow, or the error with the book as before |
| AssetLedger.BookStore.Repay | stellar-lend/contracts/hello-world/src/cross_asset.rs:683-702 | The stored book after a repayment, or the error with nothing changed |

## Left out

- AmmPool.NoProfitableRoundTrip: `remove_liquidity` and `init_pool` are not among the steps, because they lower or reset the product by design; fees between 0 and 10000 and non-negative additions are assumed, which the code leaves to its callers.
- AmmPool.ImpactIsBounded: only for swaps from A to B, the only ones the code guards.
- Sqrt.NewtonSqrt: panics are a missing value; callers in `liquidity_math.rs` turn it into an abort.
- CrossLedgerRuns.HealthFactorSeesEverything: speaks of computable health factors; stale or missing prices and overflows are errors, as in the source.
- TwapHistory.TwapIsExactAverage: the empty-ring fallback, possible only before second 60, pairs a non-zero accumulator with a zero anchor and is not an average.
- Authorisation, pause and emergency switches, the re-entrancy lock, self-liquidation, oracle freshness flags, events, storage lifetimes and token transfers: single guards around the modelled code.
- Signatures and serialisation: a signature check is an arbitrary predicate on key, payload and signature, and payloads are compared by their parts.
- The initiator check of a flash swap: both sides of it are the contract's own address.
- The storage-cached borrow rate, `compute_borrow_rate` and the supply-rate and interest split: the rate is an argument of borrow and repay.
- `get_cross_position_value`, `get_cross_debt_value`, `update_asset_config` and the other views and setters: nothing below depends on them.
- Compensating writes made before an error in `borrow_asset_internal` and `cross_asset_borrow`: the host's rollback makes them unobservable, so the model restores the saved state.
- Single-asset `TotalDebt` and `TotalDeposits`: `liquidate` does not update them, so they are no sums.
- The LP supply and the two pool reserves as stored values: `liquidity_math.rs` is pure, so its runs are over a pool value that the formulas are meant for.
- Fetching, caching, confidence scores and validation in the oracle: input and output; doubles that the aggregation uses (weights, the threshold) are exact reals.
- `PriceMin`, `PriceMax` and `MaxMoveBps` of `set_price`: optional bounds, taken as not configured.
- Governance, admin handover, the bridge freeze switch, vesting and upgrades: their properties follow from single branches.
- The TypeScript API.
