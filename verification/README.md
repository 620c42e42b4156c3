# auto-monitor: a verified model

auto-monitor watches the prices of a token on exchanges and chains, decides when
buying in one place and selling in another pays, how large the trade may be, and
moves the money along a path of exchanges and wallets. This project models the
logic of those decisions and proves what they promise. One `.dfy` file models one
component; `dafny verify dfyconfig.toml` checks all of them.

| file | component |
|---|---|
| `RouteGraph.dfy`, `PipelineBuilder.dfy`, `RouteProbe.dfy` | enumerating transfer routes, probing them and merging their segments |
| `OrderBook.dfy` | filling an order book and the size a slippage limit leaves |
| `Threshold.dfy` | counting triggers with a cooldown, searching the threshold grid |
| `SpreadRange.dfy`, `ThresholdPair.dfy` | robust spread ranges, change points, the pair of thresholds for a round trip |
| `Budget.dfy` | the monthly request budget with daily pacing |
| `LeastSquares.dfy`, `PriceHistory.dfy` | the trimmed price history and its slope |
| `Transfers.dfy` | one step of a transfer pipeline as values: amounts, networks, what an attempt logs and when it is lawful |
| `Attempts.dfy` | which attempts at a step are possible, built from the answers they need |
| `Histories.dfy` | what the lists of withdrawals and deposits of an exchange say about one of them |
| `PipelineRuns.dfy` | what a run and its resumes add up to: the steps done and the hashes recorded |
| `PipelineMoney.dfy` | what they add up to in money: sent how often, safe to resume when, which deposits are reported |
| `TransferCases.dfy` | concrete attempts and sessions that go against what one would expect |
| `Executor.dfy` | the pipeline itself: transferring, confirming, failing and resuming |
| `Decimals.dfy` | decimal amounts to smallest units and back |
| `Sizing.dfy` | the size of one trade |
| `Notifier.dfy` | announcing opportunities that appear and disappear |
| `Options.dfy`, `Text.dfy`, `Sorting.dfy`, `Sums.dfy`, `Arith.dfy` | helpers |

How the source is read:

- Floats and big floats are exact reals. Clock readings are inputs or a clock that
  never runs backwards. Go's map iteration order and unstable sorts are any order
  the language allows.
- Balances, channel listings, addresses, bridge quotes, confirmations and errors
  come from exchanges and chains. Where one call asks several times (the pipeline
  executor) each answer is arbitrary and arrives after an arbitrary delay; elsewhere
  the answers are parameters.
- A loop or an object that changes in place is a method or a class proved against a
  specification function or relation; the theorems are lemmas about that
  specification. Ghost logs (messages sent, points recorded, balances read, addresses
  named, transfers made, status queries answered) carry the statements about whole
  runs. In the pipeline every attempt at a step keeps its own log. An attempt
  succeeds only if its log holds its one transfer and, after it, a positive answer
  about that transfer, and fails only if its log shows why and holds no such answer.
- The texts in which a wallet and a bridge are handed an amount (18 and 8 decimals)
  are modelled: the amount is rounded to so many decimals, a tie going to the even digit.

What was found where the code and the expectation part:

- The code's comment promises the largest size under the slippage limit. The size is
  made of whole levels, so a part of the next level may still fit:
  `OrderBook.SizeIsLargestIff` and `BidSizeIsLargestIff` say exactly when none does;
  `AskSizeCanBeSmaller` and `BidSizeCanBeSmaller` are books where one does.
- The merge of segments, taken by itself, keeps the fee total except when a fee text that
  is not a number meets one that is; the detector's merge always drops the second fee.
  `RouteProbe.MergeKeepsFeeIff` gives the condition for both, `MergeCanLoseFee` an input.
  No probed path is such an input: `RawLosesNothing`.
- A route is built from a listing even when the listing came with an error, but the
  probe then calls it unavailable (`RouteProbe.BuiltSegmentCanFail`). It takes a registry
  other than the repository's two, which never answer with an error
  (internal/detector/registry/api_registry.go:676-708, static.go:82-120). With those two
  every built route has its withdrawal and its deposit available:
  `RouteProbe.BuiltRouteAvailable`.
- A step whose transfer was accepted but not confirmed in time counts as failed, and a
  resume sends its money again: `TransferCases.ResumeSendsAgain` is such a session.
  `PipelineMoney.SentOnceIff` says exactly which sessions do not, and `SafeToResumeIff` what
  a caller can check before a resume: nothing was sent yet for the step that failed, or its
  settings do not let it be sent. A confirmed step is never sent again. Each is proved for
  three ways of counting. `Requests` are all transfers asked for: an error in place of an
  answer counts as a refusal in the code, but the request may have gone through and only its
  answer been lost. `Acceptances` are those that were accepted. `Payments` are those accepted
  and not found to have been rejected or reverted afterwards. `RefusedIsAskedAgain` and
  `RejectedIsSentAgain` are sessions that tell them apart.
- Two wallets of one chain joined by an edge of another asset send the node's own asset,
  not the edge's: `TransferCases.UsdtEdgeSendsZama`. `Attempts.MovesEdgeAssetIff` says that
  this is the only case.
- A wallet that pays another asset into an exchange or a bridge takes the amount from its
  own asset's balance: `TransferCases.ZamaBalanceSpendsUsdt` sends 1000 USDT because 1000
  ZAMA are held, and `Attempts.MovesAllOfItsAssetIff` says when a step does not do that.
- An exchange is asked for a deposit in its own asset and by the hash that the step before
  returned. A deposit of another asset is therefore never found, and neither is one that
  comes from another exchange: a withdrawal returns the exchange's own ID
  (internal/exchange/okx/withdraw.go:414, gate:149, bybit:147, bitget:178, binance:201), and
  deposits are listed by their hash on the chain (okx:515, gate:226, bybit:246, bitget:262,
  binance:281). The next step waits in vain: `TransferCases.UsdtDepositIsAwaitedInVain` and
  `WithdrawalIdIsAwaitedInVain`. `PipelineMoney.NeverPasses` proves of every run over such a
  path that it fails there or before; a path of two steps joined at an exchange can be
  delivered exactly when the first step starts from a wallet and moves the exchange's own
  asset (`PassesOnIff`).
- A wallet whose chain is named with a hyphen (`1-2`) counts as on chain 1 when a network or a
  bridge is chosen, but cannot sign for it, so it never pays into an exchange:
  `TransferCases.HyphenChainPaysInNothing`.
- `lastStepTxHash` covers the steps done except that a resumed step which returns no
  hash keeps the entry of an older run: `PipelineRuns.HashesCoverIff` and
  `TransferCases.StaleHashSurvives`. Only a bridge can return no hash.
- A budget request whose save fails is refused, yet its units stay spent in memory:
  `Budget.RefusedCostsNothingIff`, and for whole runs `UseIsAllowedIff`.
  `FailedSaveKeepsUnits` is a month that ends with nothing allowed and nothing left.
- A leg whose balance is known to be 0 is treated like one whose balance is not known: the
  configured maximum is returned, and no leg covers it. `Sizing.EmptyLegsGetTheMaximum` is
  an input; `SoundIsCoveredIff` says when a size is covered, `IdleFuturesCoversIff` what a
  futures leg with nothing available still covers.
- The threshold search starts from a score of -10^9. A pair that loses enough against a tiny
  best round trip scores below that and is passed over although every limit allows it:
  `ThresholdPair.HiddenPair` is one, and `NoneBetterIffAllHidden` says exactly when the
  defaults are returned.
- Once the length cap has cut a key of the price history, a query answers in full exactly
  when no usable point after its cutoff was dropped: `PriceHistory.PriceHistory.AnswersInFullIff`.
- A path of fewer than two nodes makes `Run` report an error and end as Completed.

## Model

| member | source | states |
|---|---|---|
| RouteGraph.Search.Dfs | internal/detector/pipeline_builder.go:103-132 | every recursive call appends exactly the routes that extend the path it is called on, restores `path` and `visited`, and terminates by maxHops + 1 - hops |
| RouteGraph.FindAllRoutes | internal/pipeline/route_graph.go:6-47 | for source ≠ dest the result is exactly the simple paths of at most maxHops edges; source = dest gives the one-node path; duplicate-free adjacency lists give no path twice |
| PipelineBuilder.ChainIDsFromNetworks | internal/detector/pipeline_builder.go:165-175 | the trimmed, non-empty chain IDs of the enabled rows, and no others |
| PipelineBuilder.SortedChainsByPreference | internal/detector/pipeline_builder.go:137-153 | each chain once, in an order of preference |
| PipelineBuilder.AddWithdrawals | internal/detector/pipeline_builder.go:180-192 | the targets of every node after the first loop of the adjacency builder, without duplicates |
| PipelineBuilder.AddDeposits | internal/detector/pipeline_builder.go:194-201 | the second loop adds exactly the deposit edges to what was there |
| PipelineBuilder.AddBridges | internal/detector/pipeline_builder.go:203-221 | the third loop adds exactly the edges between two different chains |
| PipelineBuilder.BuildAdjacency | internal/detector/pipeline_builder.go:180-223 | the adjacency lists describe exactly the transfer graph: buy to its chains, chains to sell, chain to chain; no list repeats a target when a chain endpoint is its own only chain and no exchange is named like a chain |
| PipelineBuilder.GraphRoutes | internal/detector/pipeline_builder.go:96-135 | a path is found in the built graph exactly when it is a simple path of at most four nodes of the transfer graph |
| PipelineBuilder.BuildPaths | internal/detector/pipeline_builder.go:44-79 | the paths are exactly the transfer routes over withdrawable and depositable chains, shorter ones first and those of one length by the preference of their first chain; each once for every kind of endpoint whose exchange ID is not a chain node's, and \|B\|·\|S\| of them between two exchanges |
| PipelineBuilder.FirstChainDecides | internal/detector/pipeline_builder.go:81-93 | among paths of one length the first chain decides the place, and a path without a chain comes last |
| PipelineBuilder.PreferenceIsPlace | internal/detector/pipeline_builder.go:17-20 | chains 1, 56, 195, 137, 42161, 10, 8453 and 43114 come in this order and before every other |
| PipelineBuilder.ExchangeRoutes | internal/detector/pipeline_builder.go:96-135 | between two exchanges a route is one chain in both sets, or two different chains, one of each set |
| PipelineBuilder.PairCount | internal/detector/pipeline_builder.go:180-223 | there are \|B\|·\|S\| pairs of a withdrawable and a depositable chain |
| PipelineBuilder.ExchangeRouteCount | internal/detector/pipeline_builder.go:44-79 | a duplicate-free list of the routes between two exchanges has \|B\|·\|S\| entries |
| RouteProbe.MergeSegments | internal/pipeline/route_probe.go:177-224 | the index-skipping loop computes the merge; endpoints are kept, there is one more node than segments and consecutive segments join |
| RouteProbe.MergeKeepsTime | internal/pipeline/route_probe.go:177-224 | merging keeps the total time |
| RouteProbe.MergeKeepsAvailability | internal/detector/routeprobe.go:143-179 | the merged path is available exactly when every segment was |
| RouteProbe.MergeSettles | internal/detector/routeprobe.go:143-179 | no exchange → chain → exchange pair remains |
| RouteProbe.MergeTwice | internal/pipeline/route_probe.go:177-224 | merging twice changes nothing |
| RouteProbe.MergeFeeAccount | internal/pipeline/route_probe.go:177-224 | the fee total changes by exactly what the collapsed pairs drop |
| RouteProbe.MergeKeepsFeeIff | internal/pipeline/route_probe.go:177-224 | with fees that are not negative the total is kept exactly when no collapsed pair loses a fee, in either version |
| RouteProbe.MergeCanLoseFee | internal/pipeline/route_probe.go:203-211 | segments whose fee total is not kept; no probe yields them |
| RouteProbe.RawLosesNothing | internal/pipeline/route_probe.go:44-153 | no path that was probed loses a fee in its merge |
| RouteProbe.ProbeSegments | internal/detector/routeprobe.go:43-106 | one segment per pair of neighbours, joined along the path |
| RouteProbe.BridgeIsTheOneAskedFor | internal/pipeline/route_probe.go:58-106 | a bridge asked for by name is the first one quoted under it, in any case, open exactly when that quote is supported, and not open without one; asked for automatically it is the first one quoted; a supported quote shows its fee and its time, or two minutes |
| RouteProbe.EndsDecideKind | internal/pipeline/route_probe.go:46-126 | whether the two ends are on chains, and on the same one, decides if a probed segment is a transfer between exchanges, a withdrawal, a deposit or a bridge, in both copies |
| RouteProbe.SegmentsByQuote | internal/pipeline/route_probe.go:46-134 | the path probe takes a segment without a bridge as open and free, two minutes between exchanges and one otherwise; a bridge is decided by the quote for the two chains, the symbol or USDT and the amount or 100; the detector opens it only by the first quoted protocol |
| RouteProbe.PathToProbe | internal/pipeline/route_probe.go:20-45 | source and destination stand in for a missing path, and a longer path is cut to its first four nodes |
| RouteProbe.Totals | internal/pipeline/route_probe.go:154-165 | the totals reported are the sums over the segments |
| RouteProbe.Probe | internal/detector/routeprobe.go:22-128 | the report is the merge of the probed segments of the path cut to four nodes; a path of fewer than two nodes is reported as it is |
| RouteProbe.BuiltRouteReported | internal/detector/routeprobe.go:22-128 | of every route built between two exchanges, probed on the registry that built it: it starts with a withdrawal and ends with a deposit, each available exactly when its listing carried no error, and the report is available exactly when both are and the bridge of a two-chain route is offered |
| RouteProbe.BuiltRouteAvailable | internal/detector/registry/api_registry.go:676-708 | on a registry that never fails both ends of every built route are available, and the report is exactly when the route has one chain or its bridge is offered |
| RouteProbe.BuiltSegmentCanFail | internal/detector/pipeline_builder.go:52-64 | a registry that answers with rows and an error, and a built route whose withdraw segment is then not available |
| RouteProbe.DirectRouteReported | internal/detector/routeprobe.go:143-179 | a built route through one chain is reported as one available exchange-to-exchange hop of 120 seconds |
| OrderBook.CalculateAvgPrice | internal/analytics/slippage.go:136-160 | the loop computes the specified average of a greedy fill, 0 when the book is too thin |
| OrderBook.ThinIff | internal/analytics/slippage.go:154-156 | the book is too thin exactly when the amount exceeds its depth |
| OrderBook.ThinBookIsPricedZero | internal/analytics/slippage.go:136-160 | a book thinner than the amount is priced 0; otherwise the average times the amount is the cost of the fill |
| OrderBook.FillIsCheapest | internal/analytics/slippage.go:136-160 | on ascending asks no way of taking the amount from the levels costs less than the greedy fill |
| OrderBook.AvgPriceIsCheapest | internal/analytics/slippage.go:136-160 | average × amount is the minimum cost over all ways of taking the amount, and it is reached |
| OrderBook.AvgPriceIsBestRevenue | internal/analytics/slippage.go:136-160 | on descending bids it is the maximum revenue, and it is reached |
| OrderBook.AverageNeverFalls | internal/analytics/slippage.go:136-160 | on asks the average never falls as the amount grows |
| OrderBook.AverageNeverRises | internal/analytics/slippage.go:136-160 | on bids it never rises |
| OrderBook.MarginalCost | internal/analytics/slippage.go:136-160 | raising the amount costs at least the best price for every unit more |
| OrderBook.MaxSizeForSlippageLimitAsks | internal/analytics/slippage.go:200-235 | the loop with its undo stops at a level where the whole prefix is within the limit price and the next is not, and returns the prefix's depth |
| OrderBook.MaxSizeForSlippageLimitBids | internal/analytics/slippage.go:238-273 | the same for bids and their lower limit price |
| OrderBook.SizeIsWithinLimit | internal/analytics/slippage.go:200-235 | every amount up to the returned size, filled by the other loop, has an average within the limit |
| OrderBook.BidSizeIsWithinLimit | internal/analytics/slippage.go:238-273 | dually for bids |
| OrderBook.LongerPrefixesExceed | internal/analytics/slippage.go:210-231 | every longer prefix of whole levels exceeds the limit |
| OrderBook.LongerBidPrefixesFallBelow | internal/analytics/slippage.go:248-269 | every longer prefix of bids sells below the limit |
| OrderBook.SizeIsLargestIff | internal/analytics/slippage.go:200-235 | every larger amount exceeds the limit exactly when the size is the whole book or its average already sits at the limit |
| OrderBook.BidSizeIsLargestIff | internal/analytics/slippage.go:238-273 | the same of bids and amounts that sell below the limit |
| OrderBook.AskSizeCanBeSmaller | internal/analytics/slippage.go:200-235 | two asks and a limit of 0.4%: one unit is reported, 1.25 would fit |
| OrderBook.BidSizeCanBeSmaller | internal/analytics/slippage.go:238-273 | the same of two bids |
| Threshold.CountWithCooldown | internal/analytics/threshold.go:127-139 | the loop computes the greedy count |
| Threshold.CountIsMaximum | internal/analytics/threshold.go:127-139 | the count is the size of the largest set of hits whose gaps exceed the cooldown |
| Threshold.CountNonIncreasing | internal/analytics/threshold.go:127-139 | a higher threshold never counts more |
| Threshold.CountPositiveIff | internal/analytics/threshold.go:127-139 | the count is positive exactly when some value less 0.05 reaches the threshold |
| Threshold.AdmissibleReachesTarget | internal/analytics/threshold.go:171-174 | every grid pair reaches the target |
| Threshold.CollectCandidates | internal/analytics/threshold.go:162-203 | the stepping loops over reals end and collect exactly the admissible grid pairs |
| Threshold.ExchangeSort | internal/analytics/threshold.go:212-229 | the in-place exchange sort leaves a permutation in descending order of profit, then of count |
| Threshold.FindOptimalThreshold | internal/analytics/threshold.go:143-236 | nil exactly when no grid pair is admissible; otherwise an admissible pair such that no admissible pair, making as many round trips as its scarcer direction triggers, earns more than this one does by its own, and none that earns as much has more triggers in all |
| Threshold.NoTripsEarnMore | internal/analytics/threshold.go:186-229 | whatever number of round trips an admissible pair allows, the optimum earns no less over some number that its own triggers allow |
| Threshold.Analytics.UpdateStats | internal/analytics/threshold.go:23-65 | the four extremes become those of the current differences, and stay as they are while a direction has none |
| Threshold.Analytics.AnalyzeOptimalThresholds | internal/analytics/threshold.go:239-287 | the stored optimum becomes a best pair and is left alone when there is none |
| SpreadRange.Optimizer.SetOutlierPercentile | internal/analytics/fast_trigger_optimizer.go:1247-1251 | a percentile outside (0, 1/2) is ignored, so the optimizer stays valid |
| SpreadRange.TrimmedByIndex | internal/analytics/fast_trigger_optimizer.go:668-693 | the truncated range is in order and within the data, and its ends are the p and 1 − p quantiles: at most the fraction p of the values below the lower end and at most 1 − p above it, the other way round for the upper end |
| SpreadRange.Optimizer.GetRobustRange | internal/analytics/fast_trigger_optimizer.go:668-693 | the method returns such a range, {0, 0} without data |
| SpreadRange.CalculateWeightedQuantile | internal/analytics/fast_trigger_optimizer.go:870-887 | the value at the first prefix that weighs at least the target, else the last one |
| SpreadRange.TrimmedByWeight | internal/analytics/fast_trigger_optimizer.go:696-737 | the two weighted quantiles are in order; at most p of the weight lies below the lower one and at most 1 − p above it, the other way round for the upper one |
| SpreadRange.TrimmedBothWays | internal/analytics/fast_trigger_optimizer.go:716-737 | the same about the weights before sorting: sorting changes no sum |
| SpreadRange.Optimizer.GetWeightedRobustRange | internal/analytics/fast_trigger_optimizer.go:696-737 | the weighted range of the later half is in order, within the data, and its ends are the p and 1 − p quantiles of the weight |
| SpreadRange.Optimizer.LaterWeighsMore | internal/analytics/fast_trigger_optimizer.go:701-719 | with weights that decay with the distance from the end, a later spread of the later half weighs no less and the last one most |
| SpreadRange.WindowAverage | internal/analytics/fast_trigger_optimizer.go:802-835 | the loop computes the average of a window |
| SpreadRange.DetectSpreadChange | internal/analytics/fast_trigger_optimizer.go:791-860 | the change point is in [100, len − 100] and is the latest split of the largest change; -1 exactly when no change is positive and above the threshold |
| SpreadRange.ChangeIsRelative | internal/analytics/fast_trigger_optimizer.go:837-846 | the change of an average above 0.001 in size is the share of itself by which it moves |
| SpreadRange.ChangeFromNothing | internal/analytics/fast_trigger_optimizer.go:837-846 | from an average of at most 0.001 in size the change is the next one in thousandths, and nothing while that is no more than one |
| SpreadRange.BlendInside | internal/analytics/fast_trigger_optimizer.go:773-782 | blending ranges inside two parts gives a range inside the whole |
| SpreadRange.Optimizer.GetSegmentedRobustRange | internal/analytics/fast_trigger_optimizer.go:740-786 | both ends of the range lie between those of trimmed ranges after and before the change point, away from the later one by 1 − recentDataWeight of the way to the earlier one; the range is within the data |
| SpreadRange.MoreWeightIsNearer | internal/analytics/fast_trigger_optimizer.go:773-782 | more weight on recent data never takes the blended range away from the later one; all of it gives the later range, none the earlier one |
| SpreadRange.Optimizer.StepIsBlended | internal/analytics/fast_trigger_optimizer.go:740-786 | spreads that were all x before the change and are all y from it on give the range {x + w·(y − x)} for the weight w of recent data |
| SpreadRange.Optimizer.GetSpreadRangeForDirection | internal/analytics/fast_trigger_optimizer.go:636-665 | for every non-empty window the range has Min ≤ Max within the data's extremes, and is the truncated, the weighted or the segmented one by the settings and the largest jump |
| ThresholdPair.TallyFallsWithThreshold | internal/analytics/fast_trigger_optimizer.go:344-383 | a higher threshold executes no more often and earns no more; profit is positive exactly when something executes |
| ThresholdPair.TallyOfPoint | internal/analytics/fast_trigger_optimizer.go:595-623 | in the long direction a point is one more execution when its long spread reaches the threshold and exceeds its long cost, and adds the difference; in the short direction by the short ones |
| ThresholdPair.EvaluateCandidate | internal/analytics/fast_trigger_optimizer.go:344-383 | a candidate's count, average spread and profit are those of the points that execute |
| ThresholdPair.LimitsMeetSettings | internal/analytics/fast_trigger_optimizer.go:458-492 | the two combined limits allow a round trip exactly when all four settings do |
| ThresholdPair.ScoreNonNegative | internal/analytics/fast_trigger_optimizer.go:515-533 | a round trip that is no loss never scores below 0 |
| ThresholdPair.ScorePair | internal/analytics/fast_trigger_optimizer.go:515-533 | the loop computes the specified score |
| ThresholdPair.AverageOfBoth | internal/analytics/fast_trigger_optimizer.go:504-513 | the weighted average spread of a pair times its executions is the sum of all spreads executed |
| ThresholdPair.DefaultInRange | internal/analytics/fast_trigger_optimizer.go:579-590 | the default is the middle of a range that spans zero, the largest value of one below it, and half the minimal profit above it |
| ThresholdPair.NoneBetterIffAllHidden | internal/analytics/fast_trigger_optimizer.go:435-576 | the defaults are returned exactly when every admissible pair loses so much against the best round trip in the data that, with its frequency, it does not score above the starting score |
| ThresholdPair.NoneBetterIffNoneAdmissible | internal/analytics/fast_trigger_optimizer.go:435-576 | when the minimum a round trip has to earn is no such loss, as none of 0 or more is, the defaults are returned exactly when there is no admissible pair |
| ThresholdPair.HiddenPair | internal/analytics/fast_trigger_optimizer.go:435-576 | an admissible pair that the starting score hides |
| ThresholdPair.FindBestThresholdPair | internal/analytics/fast_trigger_optimizer.go:315-576 | defaults and no metrics without an opportunity or a pair above the starting score; otherwise the first admissible pair of the highest score, with the metrics of what it would have executed |
| Budget.CoinGeckoBudget.ResetIfNeeded | internal/tokenregistry/budget.go:122-134 | a new month empties the books, the same month leaves them |
| Budget.CoinGeckoBudget.TryConsume | internal/tokenregistry/budget.go:163-195 | state, answer and snapshot after a request; a request whose save fails is refused but stays spent |
| Budget.SnapshotAddsUp | internal/tokenregistry/budget.go:136-160 | what is used and what remains add up to the limit, the days before today and those remaining to the month, and the cap is the least whole number that spends the rest when every remaining day spends it |
| Budget.MonthsHaveTheirLengths | internal/tokenregistry/budget.go:72-77 | the twelve month lengths, with the 29th of February |
| Budget.RefusedCostsNothingIff | internal/tokenregistry/budget.go:163-195 | with "fits" stated in whole numbers over the books before the call: a request is allowed exactly when it fits and is saved; a refused one leaves the books alone exactly when it does not fit; the units are spent on its day, and nothing else changes, exactly when it fits |
| Budget.FailedSaveKeepsUnits | internal/tokenregistry/budget.go:185-193 | a budget of one unit whose failed save keeps the unit, so that the retry is refused |
| Budget.UseIsAllowedIff | internal/tokenregistry/budget.go:163-195 | over any calls of a month the use grows by at least the allowed units, and by exactly those when and only when no request that fitted failed to save |
| Budget.RequestKeepsBooks | internal/tokenregistry/budget.go:163-195 | one request keeps used = sum of the days and does not pass the limit |
| Budget.RunKeepsBooks | internal/tokenregistry/budget.go:122-195 | so does every sequence of requests |
| Budget.BelowCeil | internal/tokenregistry/budget.go:136-161 | staying below a rounded-up quotient is staying below the quotient |
| Budget.AdmitsBelowQuota | internal/tokenregistry/budget.go:136-161 | with R left and D days remaining, the shrinking daily cap admits the next unit exactly while fewer than ceil(R/(D+1)) were admitted |
| Budget.DayAdmits | internal/tokenregistry/budget.go:136-195 | a day that starts with R left admits exactly min(demand, ceil(R/(D+1))) unit requests, the last day min(demand, R) |
| Budget.MonthSpendsLimitIff | internal/tokenregistry/budget.go:136-195 | from a day on which nothing of the rest of the month is spent, and whatever the other days ask for, the month spends its limit exactly when the last day asks for all that is then left; it never spends more |
| Budget.SaturatedMonthSpendsLimit | internal/tokenregistry/budget.go:136-195 | so saturating the last day of a month is enough to spend exactly the limit |
| LeastSquares.DenominatorSign | internal/opportunities/price_history.go:151-169 | n·Σx² − (Σx)² is never negative and zero exactly when all timestamps coincide |
| LeastSquares.SlopeIsLeastSquares | internal/opportunities/price_history.go:151-171 | the slope with its intercept has no larger sum of squared residuals than any line |
| LeastSquares.SlopeOfLine | internal/opportunities/price_history.go:151-171 | the slope of samples on a line through the origin is the line's |
| PriceHistory.PriceHistory.RecordAt | internal/opportunities/price_history.go:36-64 | the point is logged and kept, other keys are untouched, at most maxPoints are kept, and the kept points still answer as the full log does |
| PriceHistory.PriceHistory.TrimmingIsInvisible | internal/opportunities/price_history.go:36-64 | for any interleaving of keys and any timestamp order, a query whose window is at most windowSize sees the same points and slope as on the full log, unless the cap cut the key |
| PriceHistory.PriceHistory.AnswersInFullIff | internal/opportunities/price_history.go:36-64 | of any key, cut by the cap or not, a query uses the points of the full log exactly when every dropped point with a positive price is no later than its cutoff; then it has the full log's slope |
| PriceHistory.PriceHistory.GetSlopeInWindow | internal/opportunities/price_history.go:124-172 | the four sums give the slope of the positive prices in the window, or none; there is a slope exactly when two of their timestamps differ, and it is c when each price is the first one raised by c of it for every minute since |
| PriceHistory.SlopeExistsIff | internal/opportunities/price_history.go:124-172 | there is a slope exactly when two timestamps in the window differ |
| PriceHistory.SlopeIsScaleFree | internal/opportunities/price_history.go:147-171 | scaling all prices by a positive constant leaves the slope as it is |
| PriceHistory.SlopeIsShareAMinute | internal/opportunities/price_history.go:147-171 | when every usable price is the first one times 1 + c·(minutes since), the slope is c |
| PriceHistory.TwoPointsRiseIff | internal/opportunities/price_history.go:147-171 | of two usable points at different times the slope is positive exactly when the later one is dearer, and zero exactly when they cost the same |
| PriceHistory.KeysMeetIff | internal/opportunities/price_history.go:11-13 | exchanges whose names have no colon share a key exactly for one symbol and names equal but for the case |
| Transfers.AmountIsAffordable | internal/pipeline/executor.go:710-742 | a positive amount never exceeds the balance it was computed from |
| Transfers.AmountGrowsWithBalance | internal/pipeline/executor.go:710-742 | a larger balance never lowers the amount and never turns a step away |
| Transfers.FixedKeepsNineTenths | internal/pipeline/executor.go:711-722 | a fixed amount is kept while the balance covers it, is cut to 90% while it covers that, and below that the step is refused |
| Transfers.SharesAddUp | internal/pipeline/executor.go:723-737 | a share and its complement add up to the balance, or to the position while it is held, and never to more |
| Transfers.InferredNetworkIsTheTargets | internal/pipeline/executor.go:773-799 | without a network on the edge, the network inferred for a listed target chain is that chain's and no other's |
| Transfers.NetworkIsAskedFor | internal/pipeline/executor.go:773-799 | a step has a network exactly when its settings ask for one, and it is that one: the network the edge names; when it names none, that of the target's chain, or of the edge's chain when the target has none; for a chain without a name the default of the target exchange |
| Transfers.LawfulTakesItsNetwork | internal/pipeline/executor.go:773-884 | in every lawful log a transfer without a bridge takes exactly the network the settings ask for, and no channel list read before it closes that network |
| Transfers.PricesSomethingIff | internal/pipeline/executor.go:710-742 | some balance makes a positive amount exactly when the amount type is known and a fixed amount is positive, a percentage in (0, 1] |
| Transfers.SendableIsNear | internal/pipeline/onchain_node.go:284-312 | what a wallet sends is within one token unit below the amount and half a unit of the 18th decimal above it, and what a bridge is asked for within half a unit of the 8th decimal |
| Transfers.WholeUnitsAreSent | internal/pipeline/onchain_node.go:284-312 | a whole number of units of a token with at most 18 decimals is sent as it is |
| Transfers.LawfulMovesOnce | internal/pipeline/executor.go:488-668 | a lawful log holds at most one transfer asked for, and at most one accepted |
| Attempts.CanSendIff | internal/pipeline/executor.go:488-668 | an attempt can transfer exactly when both ends are set up, a bridge or a network connects them, a wallet that sends without a bridge has a 64-bit integer for a chain ID and its token's address (which is looked up when it pays another asset into an exchange) and, unless it takes everything, the edge can make a positive amount |
| Attempts.Delivery | internal/pipeline/executor.go:488-668 | a step for which that holds can be delivered, under any hash, and under none over a bridge |
| Attempts.MovesEdgeAssetIff | internal/pipeline/executor.go:801-837 | every lawful transfer of a step is in the edge's asset exactly when it does not join two wallets without a bridge over an edge of another asset, or cannot transfer at all |
| Attempts.MovesAllOfItsAssetIff | internal/pipeline/executor.go:514-527 | every transfer of a step that takes everything is all of a balance of the asset it moves, except exactly when a wallet pays another asset than its own into an exchange or a bridge |
| TransferCases.UsdtEdgeSendsZama | internal/pipeline/executor.go:801-837 | two wallets on one chain joined by a USDT edge: a confirmed attempt that sends ZAMA |
| TransferCases.ZamaBalanceSpendsUsdt | internal/pipeline/executor.go:529-552 | a confirmed attempt in which a wallet with 1000 ZAMA and 5000 USDT sends 1000 USDT into an exchange |
| PipelineRuns.RecordedHash | internal/pipeline/executor.go:167-169 | a step shows its own hash, or the older one when a resume returned none for it |
| PipelineRuns.StepsSucceedOnceInOrder | internal/pipeline/executor.go:109-172 | after a run and any resumes at the failed step every attempt is lawful and at the first step not yet confirmed, and one that takes everything follows the success and the reported deposit of the step before; the steps done are 0, 1, 2, … in order and none twice; all are done exactly when the status is Completed, and otherwise the failed index is the first step not done |
| PipelineMoney.NotAgainAfterSuccess | internal/pipeline/executor.go:109-172 | an attempt followed by another at the same step had failed |
| PipelineMoney.SentOnceIff | internal/pipeline/executor.go:109-172 | for requests, acceptances and payments alike: over a run and its resumes each step is sent at most once exactly when no attempt that sent it and ended unconfirmed was followed by another at that step that sent it |
| PipelineMoney.ResumeIsSafe | internal/pipeline/executor.go:109-172 | for each: a resume sends nothing for the steps before the failed one, at most once for each other step, and nothing had been sent for those after it; so only the failed step can be sent twice |
| PipelineMoney.SafeToResumeIff | internal/pipeline/executor.go:109-172 | for each: after a failure, with each step sent at most once so far, no resume can send any twice exactly when nothing was sent for the failed step or its settings do not let it be sent (Attempts.CanSendIff; TransferCases.ToBscIsFeasible is a step that can) |
| TransferCases.ResumeSendsAgain | internal/pipeline/executor.go:109-172 | a run whose withdrawal is accepted but not confirmed in time and the resume after it: the money leaves twice and the session ends as Completed |
| TransferCases.RefusedIsAskedAgain | internal/pipeline/executor.go:109-172 | a run whose withdrawal is refused and the resume after it: asked for twice, paid once |
| TransferCases.RejectedIsSentAgain | internal/pipeline/exchange_node.go:455-456 | a run whose withdrawal is accepted and then rejected and the resume after it: accepted twice, paid once |
| Histories.FindWithdrawal | internal/pipeline/exchange_node.go:442-470 | the loop gives the status of a withdrawal in a list: finished, failed, pending, or finished because it already has a hash on the chain |
| Histories.FirstRowDecides | internal/pipeline/exchange_node.go:442-470 | the first row with the ID decides, and the withdrawal is not found exactly when there is none |
| Histories.ChainHashIff | internal/pipeline/exchange_node.go:480-503 | a hash on the chain is 64 hexadecimal digits, alone or after 0x or 0X |
| Histories.FindDeposit | internal/pipeline/exchange_node.go:225-231 | the loop tells whether a list has the deposit as done |
| Histories.DepositDoneIff | internal/pipeline/exchange_node.go:225-231 | a deposit is done exactly when there is a first row with its hash and that is not pending |
| PipelineMoney.DepositsOfOwnAssetOnly | internal/pipeline/executor.go:57-84 | if exchanges list a deposit only under its hash on the chain and in the asset that moved, a step that waits at an exchange for the deposit of the step before, which had a hash, is only ever attempted when that step started from a wallet and moved the asset of the exchange's node |
| PipelineMoney.SessionAwaitsOwnAssetOnly | internal/pipeline/executor.go:109-172 | so it is of every attempt of a run and its resumes |
| PipelineMoney.NeverPasses | internal/pipeline/executor.go:41-99 | then no run or resume over an exchange reached from another exchange, or in another asset than its node's, tries the step after it: it ends as failed, at that step or before |
| PipelineMoney.PassesOnIff | internal/pipeline/exchange_node.go:210-231 | two steps that can be transferred, joined at an exchange, can both be delivered in one run, the first under a hash, exactly when the first starts from a wallet and moves the asset of the exchange's node |
| TransferCases.UsdtDepositIsAwaitedInVain | internal/pipeline/exchange_node.go:210-231 | USDT goes into an exchange whose node is configured with ZAMA: no run delivers both steps |
| TransferCases.WithdrawalIdIsAwaitedInVain | internal/pipeline/exchange_node.go:210-231 | USDT goes from one exchange straight into another whose node is configured with USDT: no run delivers the step after it |
| TransferCases.HyphenChainPaysInNothing | internal/pipeline/onchain_node.go:233-236 | a wallet on chain 1-2 is linked to an exchange and no attempt can transfer, while a bridge takes its transfers |
| PipelineRuns.HashesOfSession | internal/pipeline/executor.go:312-369 | every recorded hash at the end of such a session, step by step |
| PipelineRuns.HashesCoverIff | internal/pipeline/executor.go:167-169 | the recorded hashes cover the steps done exactly when no resumed step without a hash had an older entry |
| PipelineRuns.EmptyHashIsBridged | internal/pipeline/executor.go:601-630 | only a bridged step succeeds under an empty hash |
| TransferCases.StaleHashSurvives | internal/pipeline/executor.go:167-169 | a session in which an older entry survives |
| Executor.Pipeline.AvailableForEdge | internal/pipeline/executor.go:514-527 | an exchange is asked for the edge's asset, under a switch that is undone on every path |
| Executor.Pipeline.CalculateAmount | internal/pipeline/executor.go:671-743 | the amount is the edge's function of the balance of the edge's asset, or the fixed amount of another asset unchecked; without a positive amount that balance left nothing or was not answered; the node's asset is as before |
| Executor.Pipeline.StepAmount | internal/pipeline/executor.go:529-552 | a forced step takes all of a balance read, another what the edge says |
| Executor.Pipeline.ChannelAllows | internal/pipeline/executor.go:844-884 | an exchange is asked for the asset's channels, and only a listing without the network stops the transfer |
| Executor.Pipeline.FindWay | internal/pipeline/executor.go:765-909 | a way is found only on the step's network, after asking both exchanges for the channels of the edge's asset and finding none closed, and leads to what the target answered for that asset and network; none is found only for settings that do not connect the ends, a closed channel or a question without an answer; that network is the one the settings ask for: the edge's own before the target chain's before the target exchange's default |
| Executor.Pipeline.Withdraw | internal/pipeline/onchain_node.go:199-432 | a node sends in its current asset along the given way, a wallet only with a token address and a numeric chain ID; an exchange all of the amount, a wallet the amount written out with 18 decimals and cut to whole units of the decimals read, 18 by default, and only after its token balance covers that; nothing is accepted only without these settings or an address, on a refusal, a short balance or a question without an answer |
| Executor.Pipeline.SendThroughQuoteNode | internal/pipeline/executor.go:912-945 | a wallet pays another asset in that asset, from its own account, or sends nothing |
| Executor.Pipeline.SendSwitched | internal/pipeline/executor.go:947-979 | an exchange pays another asset under a switch that is undone on every path, and only when a balance of that asset covers it |
| Executor.Pipeline.ExecuteWithdrawStep | internal/pipeline/executor.go:765-990 | every transfer made is lawful, goes to the destination found for it, and is of the amount asked; the source's asset is back on every path; without a hash nothing was accepted and the log shows why |
| Executor.Pipeline.ExecuteBridgeStep | internal/pipeline/executor.go:1039-1097 | only with a bridge manager; a bridge is handed the edge's asset, a positive amount written out with 8 decimals and the address the target named, after the source named its own; covered when that asset is the node's; without an answer nothing was accepted and the log shows why |
| Executor.Pipeline.TransferAmount | internal/pipeline/executor.go:529-600 | a step transfers at most once, lawfully; what is returned is the hash, bridge ID and amount of the transfer the log ends in; nothing returned means nothing accepted and a reason in the log |
| Executor.Pipeline.WaitForConfirmation | internal/pipeline/executor.go:1150-1252 | confirmed only on a positive answer about this transfer from its source, its bridge or the balance the bridge should raise, and at the depth the edge asks of a wallet's; given up only when the time is up (ten minutes at most over ccip), on a cancel or on a reverted bridge, and then no answer was positive, or, where the edge asks for a depth, none said it was reached; before a bridge is polled the balance it should raise is read; the polling ends |
| Executor.Pipeline.ConfirmInEdgeAsset | internal/pipeline/executor.go:601-630 | an exchange is asked about a withdrawal in the asset it was made in, and then in any, its asset is back afterwards, and a confirmation makes the transfer delivered |
| Executor.Pipeline.ExecuteStep | internal/pipeline/executor.go:488-668 | one attempt: at most one transfer, lawful and of the right amount for forced and unforced steps; an exchange sends the edge's asset with 0 < amount ≤ a balance of it read before; without a bridge the transfer takes the network the edge names, and only without one the network inferred; asset restored on every exit; a hash is returned only for the one transfer, accepted under it and then confirmed; none is returned only when no answer confirmed the transfer, and only when the ends are not connected, nothing or too little was there, a channel was closed, a question had no answer, the transfer was refused, or an accepted one was not confirmed until the time was up, a cancel or a reverted bridge |
| Executor.Pipeline.CheckWithdrawStatus | internal/pipeline/exchange_node.go:411-478 | an exchange answers with a list and a chain with a receipt; an exchange that does not find a withdrawal among those of the node's asset is asked once more for those of any; it is confirmed exactly when the last answer has it as done, and without an answer or on a rejection there is no result |
| Executor.Pipeline.CheckDepositStatus | internal/pipeline/exchange_node.go:210-231 | the exchange lists its deposits of the node's own asset, and the answer is yes exactly when the first one with the hash is done |
| Executor.Pipeline.AwaitDeposit | internal/pipeline/executor.go:57-84 | the exchange is asked in its own asset; the wait ends with a list that has the deposit as done, at the deadline or on a cancel |
| Executor.Pipeline.RunWhenReady | internal/pipeline/executor.go:41-99 | the step is attempted at most once, lawfully, with everything available, after the previous deposit was reported to an exchange; it is attempted only after a balance read while waiting made a positive amount, and not attempted only when the time is up or on a cancel, without a deposit to wait for only when none did; a returned hash is that attempt's; the polling ends |
| Executor.Pipeline.CheckBalances | internal/pipeline/executor.go:210-259 | a path without a first edge passes; one whose first edge moves the node's asset passes only if a balance read covers the amount; a path is turned away only when a balance was not answered or leaves no amount, or the amount in the node's asset is more than a balance read |
| Executor.Pipeline.CheckBridges | internal/pipeline/executor.go:261-304 | a path passes only if every bridge on it was found ready by a bridge manager, and is turned away only for a bridge without a manager or not found ready |
| Executor.Pipeline.Run | internal/pipeline/executor.go:182-373 | refused while running; an error yet Completed below two nodes; otherwise lawful attempts at the steps from 0 in order, the first only after the balance and bridge checks passed, and none only when the log shows that the first step cannot be paid or a bridge is missing; each hash recorded, Completed exactly when every step was delivered; in every attempt exchanges spend what they have and transfers without a bridge take the network the settings ask for; every node's asset as before |
| Executor.Pipeline.ResumeFromStep | internal/pipeline/executor.go:109-172 | refused while running or out of range without a change; otherwise lawful attempts at the steps from the given one in order, the first at once, non-empty hashes recorded, Completed exactly when every step from there on was delivered; in every attempt exchanges spend what they have and transfers without a bridge take the network the settings ask for |
| Executor.Pipeline.RunAndResume | internal/pipeline/executor.go:103-172 | a run and any number of resumes at the failed step form a session, so all that is proved of sessions holds of the class |
| Decimals.NumeralDenotes | internal/onchain/okdex_utils.go:53-58 | the digits of a number denote it |
| Decimals.AssembledNumber | internal/onchain/okdex_utils.go:30-56 | the digits assembled from the two parts denote the amount in units |
| Decimals.ConvertsToFloor | internal/onchain/okdex_utils.go:12-60 | for digits with at most one dot the result is floor(value × 10^d), written out |
| Decimals.UnitsConvertBack | internal/onchain/okdex_utils.go:62-91 | converting back divides by 10^d exactly |
| Decimals.RoundTrip | internal/onchain/okdex_utils.go:12-91 | there and back is at most the value and within 10^-d of it, equal exactly when every digit past position d is zero |
| Sizing.SumMargin | internal/position/position_manager.go:1208-1230 | the loop sums the margin of all positions |
| Sizing.FuturesAvailableSize | internal/position/position_manager.go:1138-1284 | the size a futures account allows, by margin used, leverage and the position that can be closed first |
| Sizing.CashLegAffords | internal/position/position_manager.go:1016-1130 | a size within 90% of a cash leg spends at most 90% of its balance |
| Sizing.FuturesLegAffords | internal/position/position_manager.go:1138-1284 | margin in use plus the margin of the newly opened part stays within the futures balance |
| Sizing.AvailableSizeFromBalance | internal/position/position_manager.go:876-995 | when leg A has something to buy with and leg B something to sell (the other way round in direction BA), by the balances of the wallet, the largest size of which both can trade ten ninths: USDT at the ask and coins on cash legs, free margin at the leverage after closing the opposite position on futures; 0 when a leg has nothing |
| Sizing.AvailableIsLargest | internal/position/position_manager.go:876-995 | a size is available exactly when the buying leg pays for and the selling leg delivers ten ninths of it |
| Sizing.CashTradeKeepsTenth | internal/position/position_manager.go:913-995 | between two cash legs that both have something a sound size takes at most 90% of the buyer's USDT at its ask and at most 90% of the seller's coins, A buying in direction AB and B otherwise |
| Sizing.MarginIsWorthOverLeverage | internal/position/position_manager.go:1208-1230 | the margin of a position times its leverage is size times mark price, and nothing for dust or without a mark price |
| Sizing.BothLegsAfford | internal/position/position_manager.go:876-995 | a size up to the available one is affordable on both legs |
| Sizing.RoundDownFits | internal/position/position_manager.go:715-725 | rounding down to a step loses less than one step |
| Sizing.SoundIsRounded | internal/position/position_manager.go:715-725 | at most one size can be sound: the room rounded down |
| Sizing.SoundIsTradable | internal/position/position_manager.go:676-750 | sizes sound by what the legs have available are exactly those tradable by the entries of the wallet, the prices and the settings |
| Sizing.RoundingKeepsHalf | internal/position/position_manager.go:1576-1587 | without a quantity step rounding takes less than half of what is at least 1 |
| Sizing.GetSize | internal/position/position_manager.go:676-750 | every non-zero size is the largest multiple of the step that is within the configured maximum, worth at most 2000 USDT at the exchange's bid (ask in direction BA), and traded ten ninths of by both legs when both have something; worth at least 50 USDT and of an accepted cost; 0 exactly when no size is |
| Sizing.SoundIsCoveredIff | internal/position/position_manager.go:697-706 | between two cash legs with positive prices such a size is affordable on both exactly when both have something available |
| Sizing.IdleFuturesCoversIff | internal/position/position_manager.go:1138-1284 | a futures leg with nothing available covers a size exactly when the margin in use is the whole balance and the size only closes the held position, or the held side is unknown and margin for all of it is left |
| Sizing.ClosingIsCoveredIff | internal/position/position_manager.go:1138-1284 | a size that only closes the held position is covered exactly while the margin in use is |
| Sizing.EmptyLegsGetTheMaximum | internal/position/position_manager.go:697-706 | a query with both accounts known to be empty whose one sound size is the configured maximum of 1000, affordable on neither leg |
| Sizing.SmallerLegDecides | internal/position/position_manager.go:876-995 | 1000 USDT at the buyer and 500 coins at the seller at a price of 1 give a size of 400 and no other |
| Notifier.MessagesAlternate | internal/opportunities/notifier.go:48-98 | in an alternating log the first message of a key is an appearance and consecutive ones differ |
| Notifier.KeysMeetIff | internal/opportunities/notifier.go:43-45 | opportunities at exchanges whose names have no colon share a key exactly for one symbol and the same two exchanges |
| Notifier.OpportunityNotifier.Enter | internal/opportunities/notifier.go:57-85 | listed keys become active, and exactly those that were not are announced |
| Notifier.OpportunityNotifier.Expire | internal/opportunities/notifier.go:87-97 | exactly the absent keys last seen at least the timeout ago are announced gone and dropped |
| Notifier.OpportunityNotifier.Notify | internal/opportunities/notifier.go:48-98 | every round keeps the messages of each key alternating and the active keys exactly those last announced as appeared, and sends a disappearance only for an absent key last seen at least the timeout ago |

## Left out

- Exchange REST and WebSocket clients, signing, JSON, RPC calls and the bridge manager: their answers are parameters or arbitrary.
- Concurrency: `Stop` while a run is in flight is only a cancelled context, and mutual exclusion between `Run`, `RunStep` and `ResetBalanceTransferToIdle` is not claimed; calls are sequential and a failure and its deferred status change are one step.
- `RunStep` (the balance-transfer side flow), step labels, `lastError` texts and `lastRunEnd`: display state.
- A replacement middle-node runner: the default one is modelled, nothing in the repository installs another.
- Editing a pipeline (`AddNode`, `InsertNode`, `RemoveNode`, `SetEdgeConfig`, `SetFixedAmount`): plain list and map updates between runs.
- Executor.Pipeline.ExecuteBridgeStep: a bridge of another asset than the node's is not covered by a balance of that asset, because the code reads the node's asset there.
- Executor.Pipeline.WaitForConfirmation: a negative check interval, on which Go's ticker panics, is excluded by its type.
- Token address look-up in the executor's tables is an arbitrary answer.
- Rounding, NaN and infinities of floating point; `math.Exp` is any positive weight.
- Order books: parsing of the text rows and the spot loops' skipping of rows with fewer than two fields; `CalculateSlippage` and its dispatch; the futures copies of the two size loops (lines 276-341), which are the same code.
- `generateCandidatesForRange` and `generateSmartThresholds`: the candidate thresholds are inputs of the pair search; the positive sampling can overshoot the range by one step.
- `CalculateOptimalThresholdsWithDebug`, `updateThresholdsWithStability` and the debug counters: plumbing around the search.
- Persistence of the budget and the registry: a well-formed loaded state, and saving that succeeds or fails.
- Parsing of display names in `BuildPaths` (`Chain_56`), of base symbols and of trader types in sizing: their results are inputs. Case folding is for ASCII.
- The legacy balance path of sizing (lines 1287-1527), taken when trader types do not parse, and the recorded size statistics.
- `GetVolumeSpike`, `StatsCount`, `CountPoints` and other filters over the price history: easy members.
- Malformed decimal amounts such as `0-5`; Decimals.ConvertsToFloor is stated for digits and at most one dot.
- The frontend, HTTP handlers, configuration, Telegram texts and the visualizer.
