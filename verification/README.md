# A verified model of the arbitrage engine

Dafny 4.11 models of the parts of a Polygon arbitrage bot where exact arithmetic, indexes kept in step
and event-driven state decide whether it is right, and proofs of what they promise. Check everything
with `dafny verify dfyconfig.toml`.

BigInt is modelled as `int`, with truncating division where a dividend can be negative. Exceptions are
`Err` values and travel with `:-`. A loop or an object that the program updates in place is a method or
a class, specified by a function of values, and the results are lemmas about that function.

## What is proved

- **Swap engine.** A step inside a tick range stops at the furthest price the fee-reduced input pays
  for, charges the least input and pays the greatest output (`SwapMath`). No sequence of steps takes
  tokens out of a pool for free (`SwapRuns`). The tick-to-ratio function with its twenty constants
  is strictly increasing (`TickRatio`) and gives the square root of 1.0001^tick to fifteen digits
  (`TickPrice`), so the hinted search finds the true tick whatever the hint (`TickMath`). A swap
  across ticks follows its trade for every amount exactly where the initialised ticks ahead lie
  ahead of the price; there it never throws, loses nothing, is monotone, and with fewer than 500
  ticks ahead always runs to its end (`UniswapV3`, `SwapAcrossTicks`). Whatever the liquidity of the
  pool, it follows the nets of the ticks passed, with one exact exception, and no sequence of swaps
  across ticks takes tokens out for free (`TickLedger`); what it pays and charges is the trade on
  the pool's liquidity within a unit or two for every tick passed (`SwapAccuracy`).
- **Other pools.** Curve's Newton loop halves its distance to the root, never divides by zero and
  ends at the root or one above (`CurveNewton`, `Curve`); a quote is the drop to it less the fee,
  with every rounding stated (`CurveQuote`); the iteration for the invariant throws nowhere above a
  bound on A·n, or above 100 if no balance is tiny, and where it stops the invariant holds
  (`CurveInvariant`); the inverse quote is tight, and suffices up to 2^64 (`CurveSearch`).
  Balancer's quote and the first guess of its inverse keep the weighted product of the balances, for
  any weights, as closely as the power function is exact (`Balancer`, `BalancerWeights`). DODO pays
  what its price equations say in every regime, and a larger trade more, with the exact exception
  (`IntegerRoot`, `Dodo`, `DodoRegimes`). The inverse quotes of V2 and Balancer are tight
  (`UniswapV2`, `Balancer`).
- **Graph and searches.** A pool's edges are those of its token pairs, and any history of updates
  leaves the graph a rebuild from the latest snapshots would give, in all five structures
  (`RoutingGraph`, `GraphReplay`). The searches find exactly the brute-force cycles, each once, with
  a cap exactly those among the first paths tried, and streaming selection equals sorting everything
  (`BoundedPriority`, `Finder`, `NHopSearch`). The route cache's index equals a scan (`RouteCache`).
- **Sizing and evaluation.** Ternary search finds the maximiser of a strictly unimodal score
  (`Ternary`). Evaluation answers exactly the paying paths, the most profitable first; on workers,
  with states kept by deltas or sent along with queued jobs, it is a permutation of evaluation on
  the main thread (`Simulator`, `WorkerMirror`, `EvaluationChunks`, `WorkerPool`).
- **Protocols.** Pages tile a block range and scans tile the chain (`Paginate`, `Discovery`). The
  scheduler never overlaps passes, loses no request and strands no waiter on shutdown (`Scheduler`).
- **Profit.** A transaction built under the gas budget never costs more than the budget, and passes
  the later profit check exactly when the net profit reaches the minimum (`Gas`, `Profit`,
  `Execution`).

## Where the code falls short of what one might expect

- A pool state updated in place while a worker answers a sync is recorded at its new version though
  the old state was sent, and is not sent again until it changes once more
  (`WorkerMirror.ChangeDuringSyncIsMissed`; `SyncIsExact` says exactly when).
- The 64 bisection steps of Curve's inverse quote can end on an amount that does not suffice once
  the upper bound exceeds 2^64 (`CurveShortfall.InverseQuoteFallsShort`); its documentation promises
  the smallest sufficient amount. `CurveSearch.AmountInSuffices` says when it suffices and one unit
  less does not, `AmountInIsNearlyLeast` how far it is from the smallest.
- A pool state whose tick puts an initialised tick on the wrong side of the price is not refused:
  some amounts then move the price against the trade or throw
  (`SwapAcrossTicks.SwapFollowsExactly`).
- A downward swap left with too little to move the price off the tick it has crossed reports that
  tick rather than the one below (`TickLedger.TickIsMisreported`; `PassLosesTickExactly` says
  exactly when).
- With little amplification the iteration for Curve's invariant can divide by zero
  (`CurveInvariant.SmallAmplificationThrows`).
- Short of DODO's back-to-one boundary rounding can pay a larger trade less
  (`Dodo.ShortOfTheBoundaryRoundingShows`; `Dodo.ShortOfTheBoundary` bounds by how much).
- A DODO trade large enough for the square root to reach `bAbs` is quoted nothing, though smaller
  ones are paid (`Dodo.LargerTradePaysMore`, `Dodo.SaturatedTradeIsPaidNothing`).
- A cursor of zero is saved as checkpoint zero, and the next scan leaves block zero out
  (`Discovery.BlockZeroIsLeftOut`; `ResumeIsExact` says exactly when).
- A stop that is not followed by a cancel strands the scheduler's waiters exactly when a request
  came in after the one that queued the last pass, whether that was still queued or already running,
  and nothing was cancelled since (`Scheduler.StopAloneStrandsExactly`, `StopAloneCanStrand`).
- Without a base fee a candidate that cannot reach the minimum profit is built before it is turned
  down (`Execution.FreeGasIsBuiltAnyway`, `Execution.FreeGasExample`).
- A graph built from scratch routes through pools without state, an updated one does not
  (`GraphReplay.BuildGraphAgrees`).
- A queued evaluation leaves states with a worker that no record knows of; a pool the cache loses
  later is still seen by it (`WorkerMirror.VisitorStays`, `WorkerPool.ErrandServes`).
- Ternary search needs strictness: a score with flat sides can lose its peak in the first round
  (`Ternary.FlatSidesLosePeak`).

Where documentation and code disagree the model follows the code: `getTickAtSqrtRatioInRange` is
described as searching inside its bounds but answers for the whole tick range, and `evaluate` is
described as cutting a batch into equal chunks but groups routes by start token and shared pools.

## Model

| member | source | states |
|---|---|---|
| FullMath.MulDivRoundsDown | src/math/full_math.ts:21-24 | the product divided is rounded down, once |
| FullMath.MulDivRoundsUp | src/math/full_math.ts:35-40 | the product divided is rounded up, once |
| FullMath.DivRoundingUpIsCeil | src/math/full_math.ts:49-53 | division rounded up |
| SqrtPriceMath.Amount0DeltaExact | src/math/sqrt_price_math.ts:171-196 | two nested divisions round like one: the token0 amount is L·2^96·(hi−lo)/(lo·hi) rounded as asked, whatever the order of the prices |
| SqrtPriceMath.Amount1DeltaExact | src/math/sqrt_price_math.ts:205-220 | the token1 amount is L·(hi−lo)/2^96 rounded as asked |
| SqrtPriceMath.NextPriceAdding0 | src/math/sqrt_price_math.ts:34-56 | adding token0 gives the rounded-up quotient; the overflow fallback of the Solidity original is never taken |
| SqrtPriceMath.NextPriceRemoving0 | src/math/sqrt_price_math.ts:57-72 | removing token0 throws exactly when the amount is not below the virtual reserve |
| SqrtPriceMath.NextPriceAdding1 | src/math/sqrt_price_math.ts:77-88 | adding token1 raises the price by the quotient rounded down |
| SqrtPriceMath.NextPriceRemoving1 | src/math/sqrt_price_math.ts:89-100 | removing token1 lowers the price by the quotient rounded up and stays positive, or throws: exactly when |
| SqrtPriceMath.RefusesNonPositive | src/math/sqrt_price_math.ts:106-220 | a price or a liquidity that is not positive is refused |
| SwapMath.InputDeltaIsLeast | src/math/swap_math.ts:51-63 | the input charged is the least amount that pays for the price move |
| SwapMath.OutputDeltaIsGreatest | src/math/swap_math.ts:76-88 | the output paid is the greatest amount the price move releases |
| SwapMath.NextFromInputIsFurthest | src/math/sqrt_price_math.ts:106-131 | the next price for an input is the furthest one the input pays for |
| SwapMath.NextFromOutputIsNearest | src/math/sqrt_price_math.ts:134-159 | the next price for an output is the nearest one that releases it; where some price does, no underflow is thrown |
| SwapMath.FeeIsLeast | src/math/swap_math.ts:150-156 | the fee on a reached target is the least that gives the pool its share of what is handed over |
| SwapMath.ExactInShape | src/math/swap_math.ts:44-158 | exact input: which branch is taken, and the amounts in terms of the price reached |
| SwapMath.ExactInPrice | src/math/swap_math.ts:44-74 | an exact-in step never throws, never passes its target, and stops at the furthest price the fee-reduced input pays for: at the target exactly when that is affordable |
| SwapMath.ExactInAmounts | src/math/swap_math.ts:102-158 | least input, greatest output; input plus fee at most the amount, equal to it when the step stops short; the fee is the pool's share, and the least such on a reached target |
| SwapMath.MoreInputMoreOutput | src/math/swap_math.ts:29-159 | offering more moves the price at least as far and pays at least as much; beyond the target it changes nothing |
| SwapMath.ExactOutShape | src/math/swap_math.ts:75-158 | exact output: which branch is taken, and the amounts in terms of the price reached |
| SwapMath.ExactOutPrice | src/math/swap_math.ts:75-100 | an exact-out step never throws or overshoots; it moves to the nearest price that releases the wanted amount, or to the target |
| SwapMath.ExactOutAmounts | src/math/swap_math.ts:102-158 | the output is the wanted amount or all there is before the target; least input and least fee for the move |
| SwapRuns.StepIsBacked | src/math/swap_math.ts:29-159 | any step: what it charges pays for the price move, and the move releases what it pays |
| SwapRuns.SettleKeepsBacked | src/math/swap_math.ts:29-159 | what the pool received stays worth the whole price move since the start, step after step |
| SwapRuns.RunIsBacked | src/math/swap_math.ts:29-159 | the same over every sequence of exact-in and exact-out steps, in any directions and at any fees |
| SwapRuns.NoFreeLunch | src/math/swap_math.ts:29-159 | no sequence of steps takes net tokens out of the pool without having brought some of the other in, fees not even counted |
| SwapRuns.RoundTripLoses | src/math/swap_math.ts:102-158 | swapping in and the whole proceeds back never returns more than was paid |
| TickRatio.EndPoints | src/math/tick_math.ts:33-91 | the ratio at the lowest and highest tick is the published minimum and maximum, computed from the twenty constants |
| TickRatio.NeighboursIncrease | src/math/tick_math.ts:33-91 | each tick's ratio is strictly below the next one's |
| TickRatio.RatioIncreases | src/math/tick_math.ts:33-91 | the tick-to-ratio function is strictly increasing over its whole range |
| TickRatio.MultipliersSquare | src/math/tick_math.ts:38-82 | each constant is the square of the one before within two units of the last place, and the first is that of a ratio of 1.0001, within one |
| TickPrice.MultiplierIsRoot | src/math/tick_math.ts:38-82 | the square of the constant of bit i is 1.0001 to the power −2^i, within a stated drift |
| TickPrice.DecomposeIsRoot | src/math/tick_math.ts:40-82 | the square of the product over the bits of a tick is 1.0001 to minus that tick, within a stated slack: every rounding counted |
| TickPrice.RatioIsSquareRoot | src/math/tick_math.ts:33-91 | for every tick the ratio is 2^96 times the square root of 1.0001^tick, rounded up, to fifteen digits |
| TickMath.RatioOrder | src/math/tick_math.ts:33-91 | ticks are ordered as their ratios are |
| TickMath.BracketIsGreatest | src/math/tick_math.ts:148-162 | a tick reached by the price while its successor is not is the greatest of all such ticks |
| TickMath.GreatestTickExists | src/math/tick_math.ts:112-120 | every price from the minimum up has a greatest tick |
| TickMath.GetTickAtSqrtRatioInRange | src/math/tick_math.ts:134-165 | the globally greatest tick with ratio at most the price, however wrong the bounds, as long as they meet the tick range; otherwise the stated error |
| TickMath.GetTickAtSqrtRatio | src/math/tick_math.ts:112-120 | the same over the full range; the mutual recursion terminates |
| TickMath.SearchIsExact | src/math/tick_math.ts:134-165 | exactly when the search throws, in numbers; the greatest tick otherwise |
| UniswapV3.NextTick | src/math/uniswap_v3.ts:40-72 | the nearest initialised tick in the direction of the trade, by scan |
| UniswapV3.NextInitializedTick | src/math/uniswap_v3.ts:40-72 | the binary search finds what the scan finds |
| UniswapV3.FewerTicksAhead | src/math/uniswap_v3.ts:142-231 | moving on leaves no more ticks ahead, and fewer when one is passed |
| UniswapV3.ReachSettles | src/math/uniswap_v3.ts:142-231 | once the loop has left, further passes would change nothing |
| UniswapV3.Pass | src/math/uniswap_v3.ts:142-231 | the loop body is one step of the pass function, errors included |
| UniswapV3.SimulateV3Swap | src/math/uniswap_v3.ts:115-245 | the simulation is the pass function iterated under its cap, with every guard of the program; what cap and guards are, in numbers, is said by SwapRunsToItsEnd and SwapRefuses |
| SwapAcrossTicks.TargetIsAhead | src/math/uniswap_v3.ts:150-168 | where every initialised tick the trade would meet lies ahead of the price, the clamped boundary lies in the direction of the trade and within the price limit |
| SwapAcrossTicks.StepOfPass | src/math/uniswap_v3.ts:170-184 | the step of a pass succeeds, stays between price and target, and spends at most what is left, all of it when it stops short |
| SwapAcrossTicks.PassKeeps | src/math/uniswap_v3.ts:142-231 | a pass from such a price never throws, leaves the pool facing its ticks both ways, moves only with the trade and within the limit, never overspends, and either stops for a stated reason or leaves fewer ticks ahead |
| SwapAcrossTicks.CrossingKeeps | src/math/uniswap_v3.ts:186-203 | crossing an initialised tick leaves every tick on its side of the price |
| SwapAcrossTicks.SettlingKeeps | src/math/uniswap_v3.ts:204-222 | stopping inside a range gives the true tick of the price, and the search for it never gets empty bounds |
| SwapAcrossTicks.TargetTells | src/math/uniswap_v3.ts:150-168 | the target lies in the direction of the trade exactly when every initialised tick ahead is on the right side and the limit has not been passed |
| SwapAcrossTicks.PassGoesAstray | src/math/uniswap_v3.ts:142-231 | otherwise a pass that does not throw moves the price against the trade, if at all |
| SwapAcrossTicks.SomeAmountStrays | src/math/uniswap_v3.ts:142-231 | and for some amount it throws, or ends on the wrong side with the input used up |
| SwapAcrossTicks.RunKeeps | src/math/uniswap_v3.ts:142-231 | over any number of passes: spent plus remaining is the input, remaining is never negative, the price never leaves the trade direction or the limit, and the pool faces its ticks |
| SwapAcrossTicks.RunEnds | src/math/uniswap_v3.ts:142-231 | one pass per tick ahead and one more always end the loop, whatever the cap, with input used up, liquidity gone or the limit reached |
| SwapAcrossTicks.PassCounts | src/math/uniswap_v3.ts:186-203 | a pass counts the tick it crosses: one fewer is then left before any price beyond |
| SwapAcrossTicks.RunCounts | src/math/uniswap_v3.ts:142-231 | a run counts exactly the initialised ticks between the price it starts at and the one it ends at |
| SwapAcrossTicks.PassIsMonotone | src/math/uniswap_v3.ts:142-231 | a pass with more to spend pays no less, and the poorer swap keeps pace or is spent |
| SwapAcrossTicks.RunIsMonotone | src/math/uniswap_v3.ts:142-231 | over any number of ticks, spending more never yields less |
| SwapAcrossTicks.SwapIsSound | src/math/uniswap_v3.ts:115-245 | on a pool whose initialised ticks ahead lie ahead of the price the whole simulation never throws, respects direction and limit, is monotone in the input, and leaves a pool that faces its ticks both ways |
| SwapAcrossTicks.SwapRunsToItsEnd | src/math/uniswap_v3.ts:115-245 | with fewer than 500 initialised ticks ahead the cap decides nothing: any larger number of passes, from the price, tick, liquidity and whole input of the call, gives the quote; input is spent or kept, and nothing is left, the liquidity is gone or the limit is reached; the gas is 130000 and 30000 for every tick passed |
| SwapAcrossTicks.SwapGasIsCapped | src/math/uniswap_v3.ts:158-245 | no swap on any pool is estimated to cross more than 500 ticks |
| SwapAcrossTicks.SwapRefuses | src/math/uniswap_v3.ts:115-140 | exactly what is refused, in numbers; it is quoted nothing, at the state's price and tick |
| SwapAcrossTicks.BracketFaces | src/math/uniswap_v3.ts:142-231 | a tick of the price, or one below where the price lies on a boundary, faces both ways |
| SwapAcrossTicks.SwapFollowsExactly | src/math/uniswap_v3.ts:115-245 | a swap follows its trade for every amount if and only if every initialised tick ahead is on the right side and the limit has not been passed |
| TickLedger.PassKeepsLiquidity | src/math/uniswap_v3.ts:142-231 | whatever the liquidity, a pass keeps the difference between it and the nets at or below the tick, but for one way to stop |
| TickLedger.RunKeepsLiquidity | src/math/uniswap_v3.ts:142-231 | so does any run: the difference never changes, unless the run ends on a tick already crossed downwards with the liquidity below it |
| TickLedger.DustResetsTick | src/math/uniswap_v3.ts:186-222 | a downward trade on a boundary whose leftover does not pay for one unit of price moves the tick back up, and leaves the liquidity below |
| TickLedger.PassLosesTickExactly | src/math/uniswap_v3.ts:186-222 | a pass loses that difference if and only if it is such a trade and the tick has a net |
| TickLedger.TickIsMisreported | src/math/uniswap_v3.ts:115-245 | a concrete swap that crosses a tick downwards and reports that tick, with the liquidity of the one below |
| TickLedger.HeightIsLinear | src/math/uniswap_v3.ts:186-203 | between two prices without an initialised tick in between, what the liquidity below holds of a token grows with the active liquidity |
| TickLedger.PaysWorth | src/math/swap_math.ts:51-63 | an input that pays for a price move is at least the worth of that move in the token coming in |
| TickLedger.ReleasesWorth | src/math/swap_math.ts:76-88 | an output a price move releases is at most its worth in the token going out |
| TickLedger.PassIsFair | src/math/uniswap_v3.ts:142-231 | a pass charges at least and pays at most what lies between its two prices, whatever the liquidity of the pool |
| TickLedger.RunIsFair | src/math/uniswap_v3.ts:142-231 | so does every run, over any number of ticks |
| TickLedger.DealIsSwap | src/math/uniswap_v3.ts:115-245 | a leg of a session is a simulated swap: it pays out the quote and takes in no more than was offered |
| TickLedger.SessionKeepsCovered | src/math/uniswap_v3.ts:115-245 | over any sequence of swaps what came in covers the whole way from the first price, in both tokens |
| TickLedger.NoFreeLunchAcrossTicks | src/math/uniswap_v3.ts:115-245 | no sequence of swaps, in any directions, at any fees, across any ticks, from any liquidity, takes one token out without having brought some of the other in |
| TickLedger.RoundTripAcrossTicks | src/math/uniswap_v3.ts:115-245 | swapping in and the whole proceeds back, across any ticks, at any two fees and from any liquidity, never returns more than was put in |
| TickLedger.RoundTripOfPool | src/math/uniswap_v3.ts:115-245 | the same of any pool state that faces its ticks, however few of its ticks are known |
| TickLedger.NoFreeLunchOfPool | src/math/uniswap_v3.ts:115-245 | and of every sequence of swaps that starts from it |
| SwapAccuracy.StepIsTight | src/math/swap_math.ts:29-159 | a step pays within one unit of what its move releases, and charges within two of what moving one price unit further, or to the target, would cost; the fee is its share |
| SwapAccuracy.PassIsAccurate | src/math/uniswap_v3.ts:142-231 | so does a pass, in terms of what the pool's liquidity holds between its prices |
| SwapAccuracy.RunIsAccurate | src/math/uniswap_v3.ts:142-231 | over any run one unit of the payment and two of the charge are lost at most for every tick crossed and for the last range |
| SwapAccuracy.SwapIsAccurate | src/math/uniswap_v3.ts:115-245 | a swap with fewer than 500 initialised ticks ahead is the trade on the pool's liquidity: paid what lies between its two prices, charged, less the fee, what it takes to get there, both sides bounded by the ticks passed; it ends with the input used up, the liquidity gone or at the limit |
| UniswapV2.PaysAtLeast | src/math/uniswap_v2.ts:30-48 | a deposit pays at least x exactly when it covers x at the price after the trade |
| UniswapV2.InverseIsTight | src/math/uniswap_v2.ts:59-78 | the inverse quote suffices, two less never does, and one less does exactly when the division is exact |
| UniswapV2.PayoutKeepsProduct | src/math/uniswap_v2.ts:30-48 | the payout is the greatest that keeps the product of the reserves with the fee left out; the real product never drops |
| UniswapV2.RefusesExactly | src/math/uniswap_v2.ts:30-78 | what is quoted nothing either way, and exactly when the inverse throws |
| CurveNewton.StepBrackets | src/math/curve.ts:122-129 | a Newton step lands no lower than the root rounded down and overshoots by at most the square of its length |
| CurveNewton.StepFits | src/math/curve.ts:122-129 | no iterate falls below max(0, D−b), and every denominator is positive |
| CurveNewton.StepHalves | src/math/curve.ts:122-129 | the distance to the root at least halves with every step |
| CurveNewton.DescendSettles | src/math/curve.ts:122-132 | a step that at least halves the distance to w settles within n steps from less than 2^n above it: the result is w, or the last step was at most one long |
| CurveNewton.NewtonSettles | src/math/curve.ts:122-132 | Newton's step is such a step for the root rounded down, and the settled result overshoots the quadratic by at most one |
| CurveNewton.SettlesFrom | src/math/curve.ts:122-132 | 255 steps settle whenever D and the first iterate are below 2^254 |
| CurveNewton.SettledIsRoot | src/math/curve.ts:122-132 | a settled result is the root rounded down, or exactly one more |
| Curve.GetD | src/math/curve.ts:55-81 | the invariant loop, a zero denominator included, is its step function iterated |
| CurveInvariant.DPIsThePower | src/math/curve.ts:63-70 | D_P is D to one more than the number of coins over the product of n times the balances, short of it by at most what the roundings take |
| CurveInvariant.InvariantIsReached | src/math/curve.ts:55-81 | it is reached step by step from the sum, every step but the last longer than one, until one is not, one throws, or 255 are made |
| CurveInvariant.StoppedAtInvariant | src/math/curve.ts:63-80 | where the iteration stops the invariant holds: A·n times the sum is (A·n − 100)·D and 100·D_P, in hundredths, up to two denominators over D |
| CurveInvariant.StepThrowsExactly | src/math/curve.ts:63-76 | a step of the invariant divides by zero exactly when D_P has been rounded to nothing and the linear part rounds to nothing too |
| CurveInvariant.StepStaysAboveCoins | src/math/curve.ts:63-76 | from the number of coins on an iterate never falls below it |
| CurveInvariant.QuoteNeverThrows | src/math/curve.ts:55-81 | with (A·n − 100)·n of 100 or more no quote throws, for any pool, amount or pair of coins: A·n from 150 for two coins, 134 for three, 125 for four |
| CurveInvariant.StepStaysAboveRich | src/math/curve.ts:63-76 | an iterate from K on stays there when every balance is at least K·(n+1)/n² |
| CurveInvariant.RichPoolNeverThrows | src/math/curve.ts:55-81 | with A·n above 100 and every scaled balance at least 75 no quote throws |
| CurveInvariant.SmallAmplificationThrows | src/math/curve.ts:63-76 | a pool of six coins with A·n = 102 for which a quote throws, dividing by zero in the third step |
| Curve.BalancedPool | src/math/curve.ts:55-81 | with equal balances the invariant is their sum, found in one step; exactly when A·n is below 100 and A·n·D leaves a remainder by 100 it is one less |
| Curve.SumOfOthers | src/math/curve.ts:107-118 | the sum used is that of the balances after the trade without the wanted coin |
| Curve.CRoundsDown | src/math/curve.ts:107-119 | the constant is at most D to the number of coins over the product of n times the other balances |
| CurveQuote.CLosesLittle | src/math/curve.ts:107-119 | and short of that by at most what the roundings take |
| CurveQuote.CoefficientsAreThePools | src/math/curve.ts:107-124 | the coefficients of the quadratic are those of the pool's invariant, each rounded down once |
| Curve.StartFits | src/math/curve.ts:100-124 | the set-up of getY always gives a state from which the loop cannot divide by zero or go negative |
| Curve.GetY | src/math/curve.ts:100-132 | the loops of getY compute the Newton descent on the pool's quadratic |
| Curve.OutputBalanceIsRoot | src/math/curve.ts:100-132 | the balance found is the positive root of the pool's quadratic rounded down, or one more |
| Curve.QuoteIsBelowBalance | src/math/curve.ts:205-237 | a quote never reaches the output balance, whatever D came out as |
| Curve.PayoutIsMonotone | src/math/curve.ts:228-237 | fee and rescaling never let a larger drop pay less; what they take is said by PayoutTakesFee |
| CurveQuote.PayoutTakesFee | src/math/curve.ts:228-237 | the fee is its share of the drop rounded down, and what is left is scaled back and rounded down |
| CurveQuote.TradeIsThePools | src/math/curve.ts:208-223 | the scaled balances and the deposit: balance or amount times rate over 10^18, rounded down |
| CurveQuote.QuoteIsTheDrop | src/math/curve.ts:205-237 | the quote is the drop of the scaled output balance to the balance getY finds and one more, less the fee, scaled back: both roundings stated |
| CurveQuote.QuoteRefuses | src/math/curve.ts:205-219 | what is quoted nothing whatever the invariant |
| Curve.OutputBalanceFalls | src/math/curve.ts:100-132 | paying in more leaves the output balance no higher, up to one unit of rounding |
| Curve.LargerTradePaysNoLess | src/math/curve.ts:205-237 | a larger trade is paid at least what the smaller one would be with one unit less of scaled balance |
| CurveSearch.BisectFinds | src/math/curve.ts:273-284 | the amount found is tight, and sufficient when the interval was shorter than 2^n; nothing is asked of the quote |
| CurveSearch.BisectSufficesExactly | src/math/curve.ts:273-284 | n bisection steps suffice for every quote that pays at the upper bound and not below the lower one, if and only if the interval is shorter than 2^n |
| CurveSearch.BisectFallsShort | src/math/curve.ts:273-284 | where everything above the lower bound pays enough, n steps through an interval of 2^n or more end on the lower bound untried |
| CurveSearch.GetCurveAmountIn | src/math/curve.ts:251-285 | the expanding and bisecting loops compute the search function, throwing as the quote does |
| CurveSearch.AmountInIsTight | src/math/curve.ts:251-285 | a non-zero answer is positive and tight, and sufficient when the upper bound reached is at most 2^64 |
| CurveSearch.AmountInSuffices | src/math/curve.ts:251-285 | when some doubling of ten times the wanted amount, of the fifty tried, pays enough and is at most 2^64, the answer pays enough and one unit less does not |
| CurveSearch.AmountInRefuses | src/math/curve.ts:251-271 | what is answered with nothing, and exactly when it throws; fifty doublings are tried |
| CurveSearch.AmountInIsNearlyLeast | src/math/curve.ts:251-285 | every amount below a non-zero answer would be paid too little with one unit less of scaled balance |
| CurveShortfall.TwoPayEnough | src/math/curve.ts:205-237 | the pool of the counterexample: every deposit of two units or more is quoted at least 1.9·10^18 |
| CurveShortfall.InverseQuoteFallsShort | src/math/curve.ts:251-285 | on that pool the inverse quote of 1.9·10^18 is one unit, which is quoted less |
| IntegerRoot.GuessIsAbove | src/math/dodo.ts:18-24 | the first guess, from the number of binary digits, is above the root |
| IntegerRoot.StepIsAbove | src/math/dodo.ts:24-28 | a step never falls below the root, from wherever it starts |
| IntegerRoot.Sqrt | src/math/dodo.ts:18-30 | r·r ≤ v < (r+1)·(r+1), an error exactly for negative v |
| Dodo.SolveQuadraticFunctionForTrade | src/math/dodo.ts:62-103 | the branches of the solver, with its own square root, compute the solution function |
| Dodo.SolveIsQuadratic | src/math/dodo.ts:76-103 | an unsaturated payout leaves the least balance whose scaled double covers the largest integer solving the pool's quadratic |
| Dodo.CoefficientsAreThePools | src/math/dodo.ts:76-88 | the two coefficients are those of the pool's quadratic, within stated rounding |
| Dodo.IntegralIsRoundedDown | src/math/dodo.ts:51-60 | the way back to one is paid at most the exact integral of the price, and short of it only what three roundings take |
| Dodo.SolveIsBounded | src/math/dodo.ts:62-103 | a trade is never paid more than the balance it is solved against, nor less than nothing |
| Dodo.SaturationSpreads | src/math/dodo.ts:92-95 | a trade larger than a saturated one is saturated |
| Dodo.SaturationNeedsNoRoot | src/math/dodo.ts:87-95 | saturation told without a root: a negative b whose size is at least half the constant under the root |
| Dodo.LargerTradePaysMore | src/math/dodo.ts:62-103 | a larger trade is paid no less, if and only if it is not saturated or the smaller one is paid nothing; saturated trades are paid nothing |
| Dodo.SaturatedTradeIsPaidNothing | src/math/dodo.ts:92-95 | a concrete pool where one deposit is paid and five times the deposit is paid nothing |
| Dodo.BackToOneIsBounded | src/math/dodo.ts:126-137 | returning to the target pays at most the whole output reserve |
| Dodo.PayoutIsCovered | src/math/dodo.ts:105-159 | the gross payout is at most the output reserve, and at most the output target when R is one |
| Dodo.AcrossTheBoundary | src/math/dodo.ts:126-137 | from the back-to-one boundary on a larger trade is paid no less, with the exact exception |
| Dodo.ShortOfTheBoundaryRoundingShows | src/math/dodo.ts:51-60 | a concrete pool where rounding pays 8 units less than 7 before the boundary |
| Dodo.WorthRises | src/math/dodo.ts:51-60 | the exact worth of a trade short of the boundary rises with the amount |
| Dodo.ShortOfTheBoundary | src/math/dodo.ts:51-60 | how much less a larger trade short of the boundary can be paid: the slack its own roundings take, and one unit |
| Dodo.WorthMoreIsPaidNoLess | src/math/dodo.ts:51-60 | it is paid no less wherever the exact worths differ by at least that slack |
| Dodo.FlatPoolIsMonotone | src/math/dodo.ts:126-137 | with k = 0 no trade is paid less than a smaller one, on either side of the boundary |
| DodoRegimes.SellingBaseIsPriced | src/math/dodo.ts:105-143 | selling base, by regime: against the target at R one, against the reserve below one, and above one through the price integral up to the boundary and against the target beyond; each price stated by its quadratic, integral or, at k of one, its hyperbola |
| DodoRegimes.SellingQuoteIsMirrored | src/math/dodo.ts:105-159 | selling quote is selling base in the pool with the two sides exchanged and the inverse price |
| DodoRegimes.SolveIsPriced | src/math/dodo.ts:62-103 | every branch of the solver pays the price of the trade, whatever k |
| DodoRegimes.OthersAreQuotedNothing | src/math/dodo.ts:105-124 | anything else is quoted nothing |
| Dodo.FeesTakeTheirShare | src/math/dodo.ts:161-170 | the two fees together take at most their share of the gross payout and less than two units short of it; rates that are negative or take everything are quoted nothing |
| Balancer.QuoteIsCovered | src/math/balancer.ts:179-222 | the weighted quote never exceeds the output balance, over any power function; which exponent it asks for is said by QuoteKeepsWeightedProduct |
| BalancerWeights.QuoteKeepsWeightedProduct | src/math/balancer.ts:179-222 | for any integer weights and a power function within eps of the exact power at the base of the quote: balIn^wIn · balOut^wOut does not fall but for the rounding of the base and eps, and with a quote larger by one unit and eps it would not have risen |
| BalancerWeights.QuoteRefuses | src/math/balancer.ts:179-212 | which trades are turned down, among them those above three tenths of the input balance |
| BalancerWeights.CandidateKeepsWeightedProduct | src/math/balancer.ts:246-279 | the first guess of the inverse brings the weighted product back for the output wanted, in the same two-sided sense, before the fee is divided out and one added |
| BalancerWeights.CandidateRefuses | src/math/balancer.ts:236-279 | for which requests no guess is made |
| Balancer.EqualWeightsAreConstantProduct | src/math/balancer.ts:200-221 | with equal weights, and a power function within eps of the identity at exponent one for the base of the quote, the quote is that of a constant product, short of it or over it by at most the stated rounding and eps parts of the output balance |
| Balancer.GetBalancerAmountIn | src/math/balancer.ts:236-312 | it answers exactly when the first guess or one of its 255 doublings pays enough; the answer pays enough and one unit less does not; no monotonicity is asked of the power function |
| Balancer.Search | src/math/balancer.ts:282-312 | the doubling and the bisection, over any quote |
| RoutingGraph.BuildPoolEdgeSnapshot | src/routing/graph.ts:253-312 | a routable pool gives exactly one edge for every ordered pair of its tokens, with its indexes pointing at these tokens, zeroForOne where the first comes earlier, and the pool's protocol, state and the fees of the pair; any other pool gives none |
| RoutingGraph.AddKeepsConsistent | src/routing/graph.ts:456-483 | adding an edge of a new route keeps all five structures describing one edge set |
| RoutingGraph.RemoveKeepsConsistent | src/routing/graph.ts:640-674 | pruning a pool's edges from all five structures keeps them describing one edge set |
| RoutingGraph.MatchingEdges | src/routing/graph.ts:329-334 | with equal sorted signatures every snapshot edge finds the existing edge of its route, and every edge is found |
| RoutingGraph.Graph.constructor | src/routing/graph.ts:443-449 | the empty graph is consistent and empty |
| RoutingGraph.Graph.AddEdge | src/routing/graph.ts:456-483 | one more edge in every index |
| RoutingGraph.Graph.TokenHasReferences | src/routing/graph.ts:617-629 | where the adjacency lists exactly these edges, the scan answers whether the token is an end point of one of them |
| RoutingGraph.Graph.DropFromAdjacency | src/routing/graph.ts:645-655 | filtering edge by edge prunes exactly the given edges and counts them off |
| RoutingGraph.Graph.DropTokens | src/routing/graph.ts:663-671 | of the end points of the removed edges exactly those are forgotten that no remaining edge touches |
| RoutingGraph.Graph.RemovePool | src/routing/graph.ts:640-674 | the pool is gone from the contents, everything else stays, and the count is right |
| RoutingGraph.Graph.AddSnapshot | src/routing/graph.ts:576-579 | fresh edges, one for every edge of the snapshot |
| RoutingGraph.Graph.RefreshEdges | src/routing/graph.ts:581-589 | the same edge objects with new state and metadata; no index changes |
| RoutingGraph.Graph.UpsertPool | src/routing/graph.ts:562-597 | the contents become the snapshot for that pool and stay for the others, the graph stays consistent, and the answer names what happened |
| RoutingGraph.Graph.UpsertRecord | src/routing/graph.ts:253-597 | after an update from a record the pool's edges in the graph are exactly these, whatever they were before, and the other pools' are untouched |
| GraphReplay.FoldIsLatest | src/routing/graph.ts:562-597 | after any history a pool is present exactly when its latest snapshot has edges, with those edges |
| GraphReplay.RebuildIsFold | src/routing/graph.ts:562-597 | upserting the latest snapshots into an empty graph, in any order of the pools, gives the incremental contents |
| GraphReplay.BuiltIsEveryRecord | src/routing/graph.ts:713-721 | the graph built from scratch holds exactly the records that give edges, with or without state |
| GraphReplay.BuildGraph | src/routing/graph.ts:713-721 | the builder makes a consistent graph of those contents |
| GraphReplay.BuildGraphAgrees | src/routing/graph.ts:562-721 | it has the contents the updates have led to, if and only if every record that gives edges has state |
| GraphReplay.Replay | src/routing/graph.ts:436-674 | the graph object follows the fold over every sequence of upserts and removals |
| GraphReplay.EdgeCountIsRoutes | src/routing/graph.ts:436-450 | the edge counter is the number of indexed routes |
| GraphReplay.GraphsAgree | src/routing/graph.ts:436-450 | graphs of equal contents agree in all five structures up to edge order |
| BoundedPriority.StableSortSorts | src/routing/finder.ts:359-366 | the reference sort is a sorted permutation |
| BoundedPriority.StableSortIsStable | src/routing/finder.ts:359-366 | equal weights stay in order of arrival |
| BoundedPriority.StableSortRanks | src/routing/finder.ts:359-366 | the sort is a rearrangement of positions: each once, by weight, equal weights in order of arrival |
| BoundedPriority.TopNIsSortedPrefix | src/util/bounded_priority.ts:1-28 | keeping the best n along the way is sorting everything and cutting |
| BoundedPriority.TakeTopNBy | src/util/bounded_priority.ts:1-28 | binary insertion into a bounded list is that selection, ties included |
| BoundedPriority.PushTopPath | src/routing/finder.ts:368-378 | the sorted and cut selection from what is left is that from everything pushed, and the buffer stays within twice the limit |
| BoundedPriority.SelectStreaming | src/routing/finder.ts:368-382 | streaming selection equals sorting every path ever pushed and cutting, ties included |
| Finder.FourHopsExact | src/routing/finder.ts:496-562 | meet in the middle finds exactly the cycles of the brute-force definition |
| Finder.FourHopsOnce | src/routing/finder.ts:496-562 | each of them once |
| Finder.ForwardGroups | src/routing/finder.ts:500-520 | the forward half, grouped by meeting token in order of discovery |
| Finder.BackwardPairs | src/routing/finder.ts:528-541 | the backward half from one meeting token |
| Finder.JoinHalves | src/routing/finder.ts:544-559 | the join pushes every pair of halves with four different pools |
| Finder.Find4HopPathsBidirectional | src/routing/finder.ts:496-562 | the answer is the stable sort of all four-hop cycles, cut to the limit |
| NHopSearch.NHopsExact | src/routing/finder.ts:567-620 | without the cap the search finds exactly the connected, token-simple, pool-distinct cycles of n hops |
| NHopSearch.CompletionsDistinct | src/routing/finder.ts:567-620 | each of them once |
| NHopSearch.FourHopsAgree | src/routing/finder.ts:496-620 | the two searches agree at four hops except that only one lets the second and fourth token coincide |
| NHopSearch.TriesFindAll | src/routing/finder.ts:583-616 | the cycles among all paths the search would try, one for every expansion, are all completions |
| NHopSearch.StoppingKeepsPrefix | src/routing/finder.ts:583-616 | stopping after k tries loses only cycles from the end, and none if there are no more than k tries |
| NHopSearch.Explorer.Dfs | src/routing/finder.ts:583-616 | the stacks are restored on every exit; of the paths to be tried from here as many are tried as the cap has room for, the counter counts them, and the cycles among them are emitted |
| NHopSearch.Explorer.Visit | src/routing/finder.ts:601-615 | pushing, emitting or descending, and popping leaves the stacks as they were |
| NHopSearch.FindNHopPaths | src/routing/finder.ts:567-620 | the stable sort of the cycles among the first maxExpansions paths tried, cut to the limit; all cycles when the size of the search, a function of the graph, is within the cap |
| Ternary.OptimizeInputAmount | src/routing/simulator.ts:251-306 | the memo does not show: the search is the plain ternary search with its final look |
| Ternary.Memo.Evaluate | src/routing/simulator.ts:265-274 | a cached score is the score |
| Ternary.BestOfAllScored | src/routing/simulator.ts:276-306 | for any score the chosen amount was evaluated and nothing evaluated scores higher |
| Ternary.NarrowKeepsPeak | src/routing/simulator.ts:276-295 | a round keeps the peak of a strictly unimodal score inside |
| Ternary.RoundsKeepPeak | src/routing/simulator.ts:276-295 | n rounds keep it inside an interval shrunk by two thirds each |
| Ternary.StoppedAtPeak | src/routing/simulator.ts:276-306 | once the third is zero the chosen amount is the global maximiser |
| Ternary.EnoughRoundsFindPeak | src/routing/simulator.ts:251-306 | a number of rounds checkable in advance always finds it |
| Ternary.AnswerIsNearPeak | src/routing/simulator.ts:276-306 | how far off the answer is after any number of rounds: the maximiser, or a distance at most about half of what the rounds leave of the interval |
| Ternary.FlatSidesLosePeak | src/routing/simulator.ts:276-306 | a score with flat sides, where no number of rounds finds the maximiser |
| Ternary.TiesKeepTheFirst | src/routing/simulator.ts:265-295 | of equal scores the first found is kept, and a round with equal scores goes on above the lower third |
| Simulator.SimulateRoute | src/routing/simulator.ts:187-238 | the loop over the hops is the walk function |
| Simulator.PayingRouteIsAChain | src/routing/simulator.ts:187-238 | a route that returns anything is a closed chain in which each hop takes exactly what the one before it paid |
| Simulator.ChainPays | src/routing/simulator.ts:187-238 | and every closed chain of paying hops pays what its last hop pays, with the amounts, pools and tokens along the way and the gas of all hops |
| Simulator.HopIsQuoted | src/routing/simulator.ts:40-49 | a hop is quoted on the state it sees, its own live one before the cached one, and pays nothing without one |
| Simulator.SimulateIsLocal | src/routing/simulator.ts:40-49 | a simulation depends only on the states its hops see |
| Simulator.KeepIsLocal | src/routing/simulator.ts:318-345 | so does the result kept after sizing |
| Simulator.EvaluatePaths | src/routing/simulator.ts:318-345 | the profitable results, sized when asked: the most profitable first |
| Simulator.EvaluatedIsRanked | src/routing/simulator.ts:318-345 | exactly the paths whose test amount pays, each position once, ordered by amountOut − amountIn downwards, ties in path order; every result is a profit, the sized one exactly where sizing was asked for and is profitable |
| WorkerMirror.SyncIsExact | src/routing/worker_pool.ts:579-616 | from an accurate record a sync leaves the worker exactly the retained pools at the cached versions; the record stays accurate if and only if no state object changed version before the answer |
| WorkerMirror.SyncCopiesCache | src/routing/worker_pool.ts:579-616 | where versions determine states the worker then holds the cached states |
| WorkerMirror.EveryJobSeesItsCache | src/routing/worker_pool.ts:569-624 | over any sequence of undisturbed jobs each finds exactly what its chunk needs from its own cache |
| WorkerMirror.ChangeDuringSyncIsMissed | src/routing/worker_pool.ts:599-607 | a state updated in place while a sync is answered is recorded as sent and then never sent |
| WorkerMirror.VisitOutdatesRecord | src/routing/persistent_worker.ts:62-73 | a queued job leaves the record accurate exactly when it already had every pool sent at the version sent |
| WorkerMirror.VisitorStays | src/routing/persistent_worker.ts:62-73 | a pool such a job brought and the cache has lost stays with the worker through the next synchronisation |
| WorkerMirror.PersistentWorker.SyncState | src/routing/persistent_worker.ts:33-56 | take over what was sent, then keep only the retained pools |
| WorkerMirror.PersistentWorker.TakeStates | src/routing/persistent_worker.ts:62-73 | states that come with a job are taken over and nothing is dropped |
| WorkerMirror.WorkerSlot.SyncForChunk | src/routing/worker_pool.ts:569-616 | record and worker together move as the two-phase sync says |
| WorkerMirror.WorkerSlot.BuildStateDelta | src/routing/worker_pool.ts:648-666 | the delta is exactly the cached states of pools whose version is not on record |
| WorkerMirror.CollectChunkPoolState | src/routing/worker_pool.ts:106-128 | the chunk's pools with cached state, each once |
| WorkerMirror.SameMembers | src/routing/worker_pool.ts:134-140 | size and membership decide set equality for a list without repetition |
| EvaluationChunks.FirstLeast | src/routing/worker_pool.ts:169-188 | the first of the least scores |
| EvaluationChunks.ChunksShareOut | src/routing/worker_pool.ts:146-195 | the chunks hold every route as often as the batch, none is empty, there are no more than workers or routes and a single one without a choice, and one start token is in one chunk |
| EvaluationChunks.TokensAppear | src/routing/worker_pool.ts:151-156 | the groups come in the order in which their start tokens first appear |
| EvaluationChunks.GroupsFall | src/routing/worker_pool.ts:158-162 | they are shared out from the largest to the smallest |
| EvaluationChunks.GroupGoesToLeast | src/routing/worker_pool.ts:164-190 | each goes to the first chunk for which twice the joint size less the shared pools is least |
| EvaluationChunks.GroupByToken | src/routing/worker_pool.ts:151-156 | routes grouped by start token in order of first appearance |
| EvaluationChunks.PickChunk | src/routing/worker_pool.ts:169-188 | the first chunk with the least projected size less half the shared pools |
| EvaluationChunks.BuildEvaluationChunks | src/routing/worker_pool.ts:146-195 | largest groups first, each to its best chunk, empty chunks dropped |
| WorkerPool.RehydrateSorted | src/routing/worker_pool.ts:270-283 | putting the originals back commutes with the sort |
| WorkerPool.KeysAreRoutes | src/routing/worker_pool.ts:245-264 | two routes have one key exactly when they start alike and go through the same pools from the same tokens to the same tokens |
| WorkerPool.PlainSeesTheSame | src/routing/worker_pool.ts:245-283 | the worker sees what the main thread sees exactly when its states and the cache agree on every pool of the chunk, absence included |
| WorkerPool.ChunkRefines | src/routing/worker_pool.ts:245-283 | a worker whose states agree with the cache on the chunk's pools answers exactly as the main thread would, order and ties included |
| WorkerPool.AnswerIsSequential | src/routing/worker_pool.ts:569-624 | so does any ready, undisturbed slot, and it is ready again |
| WorkerPool.ParallelRefinesSequential | src/routing/worker_pool.ts:359-429 | the parallel evaluation is a permutation of the sequential one, the most profitable first, and leaves every slot ready |
| WorkerPool.ErrandServes | src/routing/worker_pool.ts:408-416 | a queued job with the cached states sent along sees what the main thread sees exactly when its worker holds no pool of the chunk that the cache lacks |
| WorkerPool.QueuedRefinesSequential | src/routing/worker_pool.ts:408-429 | then a queued batch is a permutation of the sequential evaluation too, the most profitable first, whichever workers get the chunks and whatever else they hold |
| WorkerPool.TurnsRefineSequential | src/routing/worker_pool.ts:408-429 | it is enough that the workers hold no such pool before the batch |
| WorkerPool.EvaluateQueued | src/routing/worker_pool.ts:408-429 | every chunk on the worker it falls to, with its own states, the answers merged and sorted; what each worker holds afterwards |
| WorkerPool.EvaluateOnSlot | src/routing/worker_pool.ts:569-624 | synchronise, evaluate the plain routes on the worker, put the originals back |
| WorkerPool.RehydrateEvaluationResults | src/routing/worker_pool.ts:270-283 | results by key; unknown keys dropped |
| WorkerPool.EvaluateChunks | src/routing/worker_pool.ts:400-429 | every chunk on its own slot, the answers merged and sorted |
| WorkerPool.Evaluate | src/routing/worker_pool.ts:359-429 | the whole batch, the most profitable first: alone without workers, an error before any worker is asked for a route without hops, on persistent mirrors when nothing waits and there is an idle slot for every chunk, queued otherwise; queued jobs leave the records alone |
| Paginate.TurnAdvances | src/hypersync/paginate.ts:141-200 | a turn moves strictly forward within the bound, or ends the range |
| Paginate.TurnIsExact | src/hypersync/paginate.ts:141-200 | exactly when a turn throws, asks for more or is done, and with what |
| Paginate.LoopTiles | src/hypersync/paginate.ts:141-200 | a run that returns has fetched pages that tile its range, at most one a block, and returns their logs in order |
| Paginate.FetchTiles | src/hypersync/paginate.ts:107-210 | a bounded fetch ends at its bound, an unbounded one at or beyond the archive height it was told |
| Paginate.FetchChecksFirst | src/hypersync/paginate.ts:107-140 | which arguments are refused, the empty range, and the allowance of ten thousand pages |
| Paginate.TileCoversOnce | src/hypersync/paginate.ts:107-210 | every block of the range is in exactly one page |
| Paginate.NeverOutOfPages | src/hypersync/paginate.ts:141-147 | a page allowance of one a block is never exceeded |
| Paginate.FetchAllLogsWithClient | src/hypersync/paginate.ts:107-210 | argument checks and early return |
| Paginate.FetchPages | src/hypersync/paginate.ts:131-200 | the loop, with every error in its place |
| Discovery.ResumeIsExact | src/discovery/discover.ts:63-112 | the next scan starts where the last ended, with the exact exceptions: a protocol without pools, and a cursor of zero |
| Discovery.StartIsExact | src/discovery/discover.ts:76-112 | where a scan starts, spelled out for every protocol start, checkpoint and pool count |
| Discovery.EndIsExact | src/discovery/discover.ts:51-61 | how far it reaches |
| Discovery.BlockZeroIsLeftOut | src/discovery/discover.ts:63-112 | a first scan without chain height of an archive at block zero ends on cursor zero having covered nothing, and the next one starts at block one |
| Discovery.ScanTiles | src/discovery/discover.ts:251-321 | a scan covers the blocks from its start to its cursor page by page |
| Discovery.ScansTileTheChain | src/discovery/discover.ts:251-321 | successive scans tile the chain without gap or overlap |
| Scheduler.StepKeepsInv | src/bootstrap/lifecycle.ts:38-122 | every event keeps: passes and running agree, queued means exactly one known timer, never queued while running, waiters only while busy, timers no earlier than the debounce |
| Scheduler.RunKeepsInv | src/bootstrap/lifecycle.ts:38-122 | so does every sequence of events |
| Scheduler.NoOverlap | src/bootstrap/lifecycle.ts:58-101 | over every run from the start no two passes overlap, and queued holds exactly when one timer is pending |
| Scheduler.FiringStartsAPass | src/bootstrap/lifecycle.ts:70-88 | a timer never finds a pass running, and starts one at least the debounce after the last |
| Scheduler.RequestIsOwed | src/bootstrap/lifecycle.ts:58-66 | a request on a running application leaves a pass queued, or running and dirty |
| Scheduler.RequestIsTimely | src/bootstrap/lifecycle.ts:58-70 | what a request does in every state; its timer is set for the first moment that is neither past nor within the debounce of the last pass |
| Scheduler.PassEndsExactly | src/bootstrap/lifecycle.ts:91-101 | a pass that ends dirty on a live application is followed by another, no sooner than the debounce after it began; any other leaves nothing queued |
| Scheduler.FiringWhenStopped | src/bootstrap/lifecycle.ts:70-101 | a timer that fires on a stopped application starts nothing and releases everyone |
| Scheduler.CancelTakesBack | src/bootstrap/lifecycle.ts:104-112 | a cancel takes back what is queued or owed and leaves a running pass alone |
| Scheduler.NobodyIsForgotten | src/bootstrap/lifecycle.ts:44-122 | waiters only ever move to the released, all of them when a flush finds the scheduler idle |
| Scheduler.StartsIdle | src/bootstrap/lifecycle.ts:38-43 | the initial state is idle, live and keeps the invariant |
| Scheduler.NoLostWakeUp | src/bootstrap/lifecycle.ts:58-101 | and stays owed through every run without cancel or stop until a pass starts |
| Scheduler.OwedPassCanStart | src/bootstrap/lifecycle.ts:58-101 | an owed pass can always be started by events at hand |
| Scheduler.ShutdownReleasesEveryone | src/bootstrap/lifecycle.ts:104-112 | after stop and cancel, whatever happens short of a restart, every waiter is released once no pass runs |
| Scheduler.ReleasedWhenIdle | src/bootstrap/lifecycle.ts:50-56 | a waiter is only released into an idle scheduler |
| Scheduler.StopAloneReleasesUnlessDirty | src/bootstrap/lifecycle.ts:91-99 | a stop without cancel releases the waiters at the end of the pass exactly when the dirty flag is clear |
| Scheduler.RequestQueuesClean | src/bootstrap/lifecycle.ts:58-70 | a request on an idle, live scheduler queues a pass with the flag clear |
| Scheduler.FlagTells | src/bootstrap/lifecycle.ts:58-112 | all through the life of a pass, queued and running, the flag is set exactly when it was and nothing cancelled, or a live request came in with no cancel since |
| Scheduler.StopAloneStrandsExactly | src/bootstrap/lifecycle.ts:58-112 | from the queueing of a pass to its end on a stopped application the waiters are left behind exactly when a live request has come in since, no cancel after it |
| Scheduler.StopAloneCanStrand | src/bootstrap/lifecycle.ts:91-99 | two runs of six events that strand a waiter: the second request comes during the pass, or while it is still queued |
| Scheduler.ArbScheduler.ScheduleArb | src/bootstrap/lifecycle.ts:58-70 | requests while queued or running only mark dirty; otherwise one timer is set, the debounce after the last pass |
| Scheduler.ArbScheduler.OnTimer | src/bootstrap/lifecycle.ts:70-88 | the callback up to the pass moves flags and timers as the transition the invariants are proved of |
| Scheduler.ArbScheduler.OnPassEnd | src/bootstrap/lifecycle.ts:93-101 | after the pass a dirty, live scheduler queues again, any other flushes its waiters |
| Scheduler.ArbScheduler.CancelScheduledArb | src/bootstrap/lifecycle.ts:104-112 | the known timer is cleared with both flags, and waiters are flushed |
| Scheduler.ArbScheduler.WaitForIdle | src/bootstrap/lifecycle.ts:114-121 | an idle scheduler lets go at once, a busy one keeps the waiter |
| Scheduler.ArbScheduler.FlushIdleWaiters | src/bootstrap/lifecycle.ts:44-50 | only an idle scheduler releases, and then everyone |
| RouteCache.LatestIsNewest | src/routing/route_cache.ts:104-112 | the keyed map holds the last observation of every key, each key once |
| RouteCache.MergeKeepsNewestBest | src/routing/route_cache.ts:104-119 | what is kept is newest for its key, keys distinct, profits sorted; what is left out is no better than anything kept |
| RouteCache.ToAddIsWhatCounts | src/routing/route_cache.ts:94-101 | what is added: the observations with valid pools and a profit, in order, with the assessed profit before the simulated one |
| RouteCache.KeysAreRoutes | src/routing/route_cache.ts:106-111 | two entries have one key exactly when they start alike and go through the same pools and tokens |
| RouteCache.HitsAreRoutes | src/routing/route_cache.ts:132-141 | index hits are exactly the routes a scan finds |
| RouteCache.Cache.Update | src/routing/route_cache.ts:89-119 | newest observation per key, then the best, the most profitable first; throws, changing nothing, exactly when something to be added has no edges |
| RouteCache.Cache.GetByPools | src/routing/route_cache.ts:132-141 | exactly the cached routes touching a given pool, each once |
| RouteCache.Cache.Prune | src/routing/route_cache.ts:168-182 | only routes all of whose pools have state stay |
| RouteCache.Cache.RemoveByPools | src/routing/route_cache.ts:193-210 | only routes touching none of the pools stay, and the count is right |
| RouteCache.Cache.RebuildIndex | src/routing/route_cache.ts:226-235 | the index is exact for the routes |
| RouteCache.Cache.Clear | src/routing/route_cache.ts:215-218 | nothing is left |
| RouteCache.IndexRoute | src/routing/route_cache.ts:228-234 | one more route in the index |
| Gas.EffectivePriceIsEip1559 | src/execution/gas.ts:52-68 | the effective price is that of the Specification section of EIP-1559, between base fee and maximum |
| Gas.CapKeepsBudget | src/execution/gas.ts:70-106 | a cap is refused exactly when the budget does not pay the base fee, and otherwise keeps the worst cost within it and cuts no more than needed |
| Gas.CapIsTight | src/execution/gas.ts:70-106 | each fee is what was bid or the most the budget allows |
| Gas.BufferRoundsUp | src/execution/gas.ts:108-121 | the gas limit is the scaled estimate rounded up |
| Gas.BidFollowsMargin | src/execution/gas.ts:424-456 | the bid is one to three times the priority fee and never falls as the margin grows |
| Gas.BidIsScaled | src/execution/gas.ts:424-456 | in numbers: the priority fee and 0.4% more for every basis point of margin up to five percent, rounded up; the maximum leaves room for the base fee to double |
| Gas.ParamsKeepBudget | src/execution/gas.ts:464-548 | whatever the overrides, effective cost ≤ maximum cost ≤ budget, and the base fee is covered |
| Gas.ParamsTakeTheBid | src/execution/gas.ts:464-548 | with a budget: exactly when parameters are given, and each fee is what was bid or asked for, or the most the budget or the maximum allows |
| Gas.ParamsWithoutBudget | src/execution/gas.ts:464-548 | without one: exactly when they are given, and what they are |
| Profit.SlippageRoundsDown | src/profit/compute.ts:134-143 | slippage takes its share of the output, rounded up |
| Profit.PenaltyIsPartial | src/profit/compute.ts:163-185 | the revert penalty is the share that grows by two percent with every hop beyond the second, up to thirty percent, rounded down |
| Profit.AssessmentIsTotal | src/profit/compute.ts:221-325 | an assessment never throws and splits the profit without loss |
| Profit.AcceptedPaysForGas | src/profit/compute.ts:251-309 | an accepted route pays gas and minimum despite every rounding, with something left |
| Profit.AcceptedExactly | src/profit/compute.ts:221-325 | exactly which routes are accepted, in terms of the numbers that come in |
| Profit.NonsenseIsTurnedDown | src/profit/compute.ts:221-250 | numbers that make no sense are turned down with nothing deducted |
| Profit.ExecutablePaysMinimum | src/arb/assessment.ts:54-85 | in wei: gas cost plus minimum profit at most net profit times rate |
| Profit.MinimumRoundsUp | src/arb/assessment.ts:54-57 | the minimum in token units is rounded up |
| Profit.MarginRoundsDown | src/arb/assessment.ts:103-108 | the margin in basis points is rounded down, and nothing without a net profit |
| Execution.NetIgnoresGas | src/profit/compute.ts:251-275 | the net profit before gas depends on neither gas nor rate |
| Execution.PostBuildDecides | src/arb/execution_coordinator.ts:222-242 | the check after the build is whether the net profit covers gas and minimum, both rounded up to tokens |
| Execution.BuiltUnderBudgetPasses | src/arb/execution_coordinator.ts:54-59 | a built transaction costs at most the budget even at its maximum fee, and passes the later check if and only if the net profit reaches the minimum, which a positive base fee implies |
| Execution.BuildTakesTheBid | src/arb/execution_coordinator.ts:194-221 | with a bid: exactly when a transaction is built, with a quarter more gas than estimated, and fees as bid for the margin or the most the budget allows |
| Execution.NothingWithoutRate | src/arb/execution_coordinator.ts:194-203 | without a rate nothing is built |
| Execution.LimitMustBeSafe | src/arb/execution_coordinator.ts:44-52 | the gas limit must be a safe number |
| Execution.NothingBuiltIsTurnedDown | src/arb/execution_coordinator.ts:169-261 | with positive base fee and minimum nothing built is turned down |
| Execution.FreeGasIsBuiltAnyway | src/arb/execution_coordinator.ts:205-242 | with no base fee a hopeless candidate is built for free and turned down only afterwards |
| Execution.FreeGasExample | src/arb/execution_coordinator.ts:205-242 | a concrete one: assessed as executable, hopeless once the rate has fallen, built at no cost and turned down |

## Left out

- SwapAcrossTicks.SwapFollowsExactly: of a pool with an initialised tick on the wrong side it says that some amount goes astray, and `PassGoesAstray` which way; later passes of such a swap are not characterised.
- SwapAccuracy.SwapIsAccurate: the initialised ticks must face the price both ways and fewer than 500 may lie ahead; `RunIsAccurate` covers a swap cut off by the cap.
- TickLedger.NoFreeLunchAcrossTicks: the initialised ticks must be on their sides of the price, as those of a true tick or of the one below on a boundary are (`BracketFaces`); a pool at the minimum price itself is left out, where selling goes astray; and each swap starts with the liquidity that the known ticks give from the first one, as the program does not return it.
- Curve.OutputBalanceIsRoot: the bounds of 2^254 on D and the first iterate keep the 255 steps sufficient; beyond them only `QuoteIsBelowBalance` holds.
- CurveSearch.AmountInIsNearlyLeast: the one unit of scaled balance is that of `LargerTradePaysNoLess`; without it the answer is not proved the least.
- Curve.LargerTradePaysNoLess: the one unit of scaled balance cannot be dropped, since a settled Newton result may be one above the root.
- Curve.GetD: that the invariant's own iteration stops within its 255 steps is not proved; `StoppedAtInvariant` says what holds where it stops, and every result about quotes holds for whatever D it returns.
- Dodo.WorthMoreIsPaidNoLess: sufficient, not necessary: where the exact worths of two trades short of the boundary lie closer than the slack, `ShortOfTheBoundary` bounds what the larger one can lose and `ShortOfTheBoundaryRoundingShows` has one that does.
- CurveInvariant.QuoteNeverThrows: neither it nor `RichPoolNeverThrows` covers A·n = 100, or tiny balances from there to its bound, where a throw is possible (at 102 for six coins) and only its condition at each step is given; below 100 neither bound nor sign of the iterates is claimed.
- Balancer.GetBalancerAmountIn: the power function is any function; the accuracy of `ln` and `exp` is not modelled, nor are stable Balancer pools.
- WorkerPool.Evaluate: who gets a queued chunk is an argument, and jobs of other batches in between are covered by `QueuedRefinesSequential` alone, through what a worker holds; worker crashes and respawns are not modelled.
- WorkerPool.TurnsRefineSequential: asks that the states sent be the cached ones; a queued chunk is sent only when its turn comes, and a state object updated in place by then shows the worker the newer state.
- WorkerPool.ParallelRefinesSequential: asks that different routes have different keys, that a version determine a state, and that a route's live state references be the cached states; without the last the workers, which see no references, may differ.
- WorkerPool.KeyOf: route keys are tuples; that joining addresses with separators is injective is not modelled.
- Ternary.EnoughRoundsFindPeak: its condition is not met by the default forty rounds on the default range; `AnswerIsNearPeak` bounds how far off those are.
- Balancer.EqualWeightsAreConstantProduct: how far `powDown` is from the identity at exponent one is the parameter eps, not derived from its series.
- BalancerWeights.QuoteKeepsWeightedProduct: how far `powDown` is from the exact power at the base of the quote is the parameter eps, not derived from its series.
- Discovery.ScansTileTheChain: scans without chain height, whose end the server decides, are covered only one by one, by `ScanTiles`.
- Execution.NothingBuiltIsTurnedDown: building call data and estimating gas can fail too; here they are an estimate from elsewhere.
- GraphReplay.GraphsAgree: up to the order of edges, and without the swap function of an edge.
- GraphReplay.BuildGraph: asks that records differ in address, as registry records do; the builder would add the edges of a repeated pool twice.
- NHopSearch.FindNHopPaths: when the cap on expansions is hit the result is the best of the cycles met by then, and nothing is said of how good those are.
- Address normalisation, and errors for values that are not addresses or numbers: addresses are opaque, and where the program skips an invalid one the model has an option.
- Floating point: path weights, spot log-weights and return on investment; weights are integers here.
- The protocol swap functions inside a route simulation: one function of leg, amount and state stands for all of them.
- Two-hop and three-hop searches, the aggregation over start tokens, and de-duplication: they repeat the techniques of the four-hop search.
- The cache of sorted ticks, which assumes that a pool's tick map is not changed behind it; the sorted list is an argument here.
- The gas oracle and the cache of gas estimates, route freshness, quarantine, nonces, submission of transactions: snapshots and answers are arguments here.
- Number formatting, logging, metrics, the database, RPC and the HyperSync client itself; the server of `Paginate` is an arbitrary function.
- WOOFi pools and stable Balancer pools: neither pricing function is modelled.
