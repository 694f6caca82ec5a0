/** src/arb/execution_coordinator.ts: the gas budget, the transaction built under it, and the check after. */
module Execution {
  import opened IntMath
  import opened Outcomes
  import opened Gas
  import opened Profit

  const GAS_MULTIPLIER_BPS: int := 12_500

  datatype Candidate = Candidate(result: Outcome, hops: nat, assessment: Assessment)

  function GasBudgetWei(c: Candidate, rate: int, minProfitWei: int): int {
    var minProfitTokens := MinProfitInTokenUnits(rate, minProfitWei);
    if c.assessment.netProfit <= minProfitTokens then 0
    else (c.assessment.netProfit - minProfitTokens) * rate
  }

  // What the world answers while a candidate is prepared.
  datatype World = World(bidFees: Option<Fees>, oracleFees: Fees, gasEstimate: int, rate: int)

  function DynamicBid(c: Candidate, w: World): Result<Option<Bid>> {
    if w.bidFees.None? then Ok(None)
    else
      var bid :- ScalePriorityFee(w.bidFees.value, ProfitMarginBps(c.assessment, c.result.amountIn));
      Ok(Some(bid))
  }

  function Build(c: Candidate, w: World, minProfitWei: int): Result<GasParams> {
    var bid :- DynamicBid(c, w);
    RecommendGasParams(w.gasEstimate, w.oracleFees, GAS_MULTIPLIER_BPS,
                       if bid.Some? then Some(bid.value.maxFee) else None,
                       if bid.Some? then Some(bid.value.maxPriorityFee) else None,
                       Some(GasBudgetWei(c, w.rate, minProfitWei)))
  }

  function GasLimitToSafeNumber(gasLimit: int): Result<int> {
    if gasLimit < 0 then Err("post-build gas limit cannot be negative")
    else if gasLimit > MAX_SAFE_INTEGER then Err("post-build gas limit exceeds Number.MAX_SAFE_INTEGER")
    else Ok(gasLimit)
  }

  function PostBuild(c: Candidate, built: GasParams, rate: int, minProfitWei: int): Result<Assessment> {
    var totalGas :- GasLimitToSafeNumber(built.gasLimit);
    Assess(c.result.(totalGas := totalGas), c.hops, built.effectiveGasPrice, rate, minProfitWei)
  }

  // None: the candidate is quarantined without a transaction.
  function Prepare(c: Candidate, w: World, minProfitWei: int): Result<Option<GasParams>> {
    var bid :- DynamicBid(c, w);
    if w.rate <= 0 then Ok(None)
    else
      var built :- Build(c, w, minProfitWei);
      var post :- PostBuild(c, built, w.rate, minProfitWei);
      Ok(if post.shouldExecute then Some(built) else None)
  }

  // The candidate was found executable, at whatever gas price and rate held then.
  ghost predicate Executable(c: Candidate) {
    exists gasPrice, rate, minProfitWei ::
      Assess(c.result, c.hops, gasPrice, rate, minProfitWei) == Ok(c.assessment) && c.assessment.shouldExecute
  }

  // The net profit before gas does not depend on gas price, gas used or rate.
  lemma NetIgnoresGas(r: Outcome, hops: nat, gasPrice: int, rate: int, minProfitWei: int)
    ensures var a := Assess(r, hops, gasPrice, rate, minProfitWei);
            a.Ok? && a.value.shouldExecute ==>
              && Net(r, SLIPPAGE_BPS, REVERT_RISK_BPS, hops) == Ok(a.value.netProfit)
              && AfterSlippage(r, SLIPPAGE_BPS).Ok? && 0 < AfterSlippage(r, SLIPPAGE_BPS).value
              && 0 < r.amountIn && 0 <= r.amountOut && r.profit == r.amountOut - r.amountIn && 0 < r.profit && 1 <= hops
  {
    hide AfterSlippage, Net, MinProfitInTokenUnits, CeilDiv;
  }

  lemma NetOfExecutable(c: Candidate)
    requires Executable(c)
    ensures Net(c.result, SLIPPAGE_BPS, REVERT_RISK_BPS, c.hops) == Ok(c.assessment.netProfit)
    ensures AfterSlippage(c.result, SLIPPAGE_BPS).Ok? && 0 < AfterSlippage(c.result, SLIPPAGE_BPS).value
    ensures 0 < c.result.amountIn && 0 <= c.result.amountOut && c.result.profit == c.result.amountOut - c.result.amountIn
    ensures 0 < c.result.profit && 1 <= c.hops
  {
    var gasPrice, rate, minProfitWei :|
      Assess(c.result, c.hops, gasPrice, rate, minProfitWei) == Ok(c.assessment) && c.assessment.shouldExecute;
    NetIgnoresGas(c.result, c.hops, gasPrice, rate, minProfitWei);
  }

  // What the check after the build decides, for gas that fits: whether the net profit pays for it.
  lemma PostBuildDecides(c: Candidate, built: GasParams, rate: int, minProfitWei: int)
    requires Executable(c) && 0 < rate && 0 < minProfitWei
    requires 0 < built.gasLimit <= MAX_SAFE_INTEGER && 0 <= built.effectiveGasPrice
    ensures var post, cost := PostBuild(c, built, rate, minProfitWei), built.gasLimit * built.effectiveGasPrice;
            && post.Ok? && post.value.netProfit == c.assessment.netProfit
            && (post.value.shouldExecute <==>
                  CeilDiv(cost, rate) + MinProfitInTokenUnits(rate, minProfitWei) <= c.assessment.netProfit)
  {
    hide AfterSlippage, Net, CeilDiv;
    NetOfExecutable(c);
    var r := c.result.(totalGas := built.gasLimit);
    SameNet(c.result, r, c.hops);
    CeilDivIsCeil(minProfitWei, rate);
    MulMono(0, built.gasLimit, built.effectiveGasPrice);
    CeilDivIsCeil(built.gasLimit * built.effectiveGasPrice, rate);
    AtLeastOne(CeilDiv(minProfitWei, rate), minProfitWei, rate);
  }

  lemma SameNet(r: Outcome, q: Outcome, hops: nat)
    requires r.amountIn == q.amountIn && r.amountOut == q.amountOut
    ensures AfterSlippage(r, SLIPPAGE_BPS) == AfterSlippage(q, SLIPPAGE_BPS)
    ensures Net(r, SLIPPAGE_BPS, REVERT_RISK_BPS, hops) == Net(q, SLIPPAGE_BPS, REVERT_RISK_BPS, hops)
  {
  }

  lemma AtLeastOne(q: int, a: int, b: int)
    requires 0 < a && 0 < b && IsCeil(q, a, b)
    ensures 1 <= q
  {
  }

  // A transaction built for an executable candidate never costs more than the budget, even at its
  // maximum fee. It passes the check after the build if and only if the net profit reaches the minimum;
  // with a positive base fee that is always so, and then the net profit pays the whole maximum cost
  // and the minimum profit in wei.
  lemma BuiltUnderBudgetPasses(c: Candidate, w: World, minProfitWei: int)
    requires Executable(c) && 0 < w.rate && 0 < minProfitWei
    ensures var built := Build(c, w, minProfitWei);
            built.Ok? && built.value.gasLimit <= MAX_SAFE_INTEGER ==>
              var g, post := built.value, PostBuild(c, built.value, w.rate, minProfitWei);
              var enough := MinProfitInTokenUnits(w.rate, minProfitWei) <= c.assessment.netProfit;
              && g.gasLimit * g.maxFee <= GasBudgetWei(c, w.rate, minProfitWei)
              && post.Ok? && (post.value.shouldExecute <==> enough)
              && (0 < w.oracleFees.baseFee ==> enough)
              && (enough ==> g.gasLimit * g.maxFee + minProfitWei <= c.assessment.netProfit * w.rate)
  {
    hide RecommendGasParams, CeilDiv, PostBuild, DynamicBid, Executable;
    var built := Build(c, w, minProfitWei);
    if built.Ok? && built.value.gasLimit <= MAX_SAFE_INTEGER {
      var g, budget := built.value, GasBudgetWei(c, w.rate, minProfitWei);
      var bid := DynamicBid(c, w).value;
      ParamsKeepBudget(w.gasEstimate, w.oracleFees, GAS_MULTIPLIER_BPS,
                       if bid.Some? then Some(bid.value.maxFee) else None,
                       if bid.Some? then Some(bid.value.maxPriorityFee) else None, budget);
      CeilDivIsCeil(minProfitWei, w.rate);
      PostBuildDecides(c, g, w.rate, minProfitWei);
      MulMono(0, g.gasLimit, g.effectiveGasPrice);
      CeilDivIsCeil(g.gasLimit * g.effectiveGasPrice, w.rate);
      BudgetBounds(c.assessment.netProfit, CeilDiv(minProfitWei, w.rate), w.rate, minProfitWei, budget,
                   CeilDiv(g.gasLimit * g.effectiveGasPrice, w.rate), g.gasLimit * g.effectiveGasPrice);
      MulMono(1, g.gasLimit, w.oracleFees.baseFee);
    }
  }

  // Rounding both the gas and the minimum up into tokens still fits where the budget was kept.
  lemma BudgetBounds(net: int, least: int, rate: int, minProfitWei: int, budget: int, gasTokens: int, cost: int)
    requires 0 < rate && IsCeil(least, minProfitWei, rate) && IsCeil(gasTokens, cost, rate) && 0 <= cost <= budget
    requires budget == if net <= least then 0 else (net - least) * rate
    ensures gasTokens + least <= net <==> least <= net
    ensures least <= net ==> budget + minProfitWei <= net * rate
  {
    assert (net - least) * rate == net * rate - least * rate;
    if least <= net {
      CeilLe(gasTokens, cost, rate, net - least);
    }
    if gasTokens < 0 {
      MulMono(gasTokens, -1, rate);
    }
  }

  // What is built for a bid: the limit is the estimate and a quarter, the budget what the net profit
  // leaves above the minimum, the fees what is bid for the margin or the most the budget allows.
  lemma BuildTakesTheBid(c: Candidate, w: World, minProfitWei: int) returns (least: int)
    requires w.bidFees.Some? && NormalizeFees(w.bidFees.value).Ok? && 0 < w.rate && 0 <= minProfitWei
    ensures IsCeil(least, minProfitWei, w.rate)
    ensures var fees, margin := w.bidFees.value, ProfitMarginBps(c.assessment, c.result.amountIn);
            var priority := (fees.priorityFee * (10_000 + 40 * Max(0, Min(500, margin))) + 9_999) / 10_000;
            var maximum, limit := 2 * fees.baseFee + priority, (w.gasEstimate * 12_500 + 9_999) / 10_000;
            var budget := if c.assessment.netProfit <= least then 0 else (c.assessment.netProfit - least) * w.rate;
            var built := Build(c, w, minProfitWei);
            && (built.Ok? <==>
                  && 0 < w.gasEstimate && 0 <= w.oracleFees.baseFee <= w.oracleFees.maxFee && 0 <= w.oracleFees.priorityFee
                  && w.oracleFees.baseFee <= maximum && limit * w.oracleFees.baseFee <= budget)
            && (built.Ok? ==>
                  && built.value.gasLimit == limit
                  && built.value.maxFee <= maximum && built.value.maxPriorityFee <= priority
                  && (built.value.maxFee == maximum || budget < limit * (built.value.maxFee + 1))
                  && (built.value.maxPriorityFee == priority || built.value.maxPriorityFee == built.value.maxFee
                      || budget < limit * (w.oracleFees.baseFee + built.value.maxPriorityFee + 1)))
  {
    hide RecommendGasParams, CeilDiv, ScalePriorityFee, ProfitMarginBps;
    var fees, margin := w.bidFees.value, ProfitMarginBps(c.assessment, c.result.amountIn);
    least := CeilDiv(minProfitWei, w.rate);
    CeilDivIsCeil(minProfitWei, w.rate);
    BidIsScaled(fees, margin);
    var bid := ScalePriorityFee(fees, margin).value;
    ScaledIs(bid.maxPriorityFee, fees.priorityFee * (10_000 + 40 * Max(0, Min(500, margin))));
    MulMono(0, fees.priorityFee, 10_000 + 40 * Max(0, Min(500, margin)));
    ParamsTakeTheBid(w.gasEstimate, w.oracleFees, GAS_MULTIPLIER_BPS, Some(bid.maxFee), Some(bid.maxPriorityFee),
                     GasBudgetWei(c, w.rate, minProfitWei));
  }

  lemma ScaledIs(q: int, a: int)
    requires IsCeil(q, a, 10_000)
    ensures q == (a + 9_999) / 10_000
  {
  }

  // Preparing an executable candidate with a positive base fee and a positive minimum either throws on
  // the way or ends with a transaction; the check after the build never turns one down.
  lemma NothingBuiltIsTurnedDown(c: Candidate, w: World, minProfitWei: int)
    requires Executable(c) && 0 < w.rate && 0 < minProfitWei && 0 < w.oracleFees.baseFee
    ensures var r := Prepare(c, w, minProfitWei);
            r.Ok? ==> r.value == Some(Build(c, w, minProfitWei).value)
  {
    hide Build, Assess, Executable;
    BuiltUnderBudgetPasses(c, w, minProfitWei);
  }

  // Without a rate nothing is built, and a candidate is left without a transaction unless the bid throws.
  lemma NothingWithoutRate(c: Candidate, w: World, minProfitWei: int)
    requires w.rate <= 0
    ensures var bidIsSane := w.bidFees.Some? ==> NormalizeFees(w.bidFees.value).Ok?;
            && (bidIsSane ==> Prepare(c, w, minProfitWei) == Ok(None))
            && (!bidIsSane ==> Prepare(c, w, minProfitWei).Err?)
  {
  }

  // The gas limit must be a number the program can handle.
  lemma LimitMustBeSafe(c: Candidate, built: GasParams, rate: int, minProfitWei: int)
    ensures PostBuild(c, built, rate, minProfitWei).Ok? <==> 0 <= built.gasLimit <= 9_007_199_254_740_991
  {
    if 0 <= built.gasLimit <= 9_007_199_254_740_991 {
      AssessmentIsTotal(c.result.(totalGas := built.gasLimit),
                        Options(built.effectiveGasPrice, Some(rate), SLIPPAGE_BPS, REVERT_RISK_BPS,
                                MinProfitInTokenUnits(rate, minProfitWei), c.hops));
    }
  }

  // With no base fee a candidate that cannot reach the minimum is still built, for free, and turned
  // down only afterwards.
  lemma FreeGasIsBuiltAnyway(c: Candidate, w: World, minProfitWei: int)
    requires Executable(c) && 0 < w.rate && 0 < minProfitWei
    requires c.assessment.netProfit < MinProfitInTokenUnits(w.rate, minProfitWei)
    requires Build(c, w, minProfitWei).Ok? && Build(c, w, minProfitWei).value.gasLimit <= MAX_SAFE_INTEGER
    ensures w.oracleFees.baseFee == 0 && Build(c, w, minProfitWei).value.maxCost == 0
    ensures Prepare(c, w, minProfitWei) == Ok(None)
  {
    hide RecommendGasParams, Assess, Executable, DynamicBid, CeilDiv;
    BuiltUnderBudgetPasses(c, w, minProfitWei);
    var bid := DynamicBid(c, w).value;
    ParamsKeepBudget(w.gasEstimate, w.oracleFees, GAS_MULTIPLIER_BPS,
                     if bid.Some? then Some(bid.value.maxFee) else None,
                     if bid.Some? then Some(bid.value.maxPriorityFee) else None, 0);
    var g := Build(c, w, minProfitWei).value;
    MulMono(0, g.gasLimit, g.maxFee);
  }

  // A candidate assessed as executable at a rate of 10^12, with no gas to pay.
  function Faded(): Candidate {
    Candidate(Outcome(1_000_000, 2_000_000, 1_000_000, 0), 2,
              Assessment(true, 1_000_000, 0, 0, 10_000, 49_500, 940_500, 940_500, ""))
  }

  lemma FadedWasExecutable()
    ensures Executable(Faded())
  {
    assert Assess(Faded().result, 2, 0, 1_000_000_000_000, 1_000_000_000_000) == Ok(Faded().assessment);
  }

  // It happens: when the rate has fallen to one by the time the candidate is prepared, it is far below
  // the same minimum, is built at no cost, and is turned down.
  lemma FreeGasExample()
    ensures var w := World(None, Fees(0, 30, 60), 100_000, 1);
            var minProfitWei := 1_000_000_000_000;
            && Executable(Faded()) && Faded().assessment.netProfit < MinProfitInTokenUnits(w.rate, minProfitWei)
            && Build(Faded(), w, minProfitWei) == Ok(GasParams(0, 0, 125_000, 0, 0, 0))
            && Prepare(Faded(), w, minProfitWei) == Ok(None)
  {
    FadedWasExecutable();
    hide Executable;
    FreeGasIsBuiltAnyway(Faded(), World(None, Fees(0, 30, 60), 100_000, 1), 1_000_000_000_000);
  }
}
