/** src/execution/gas.ts: fee caps, the effective price and the parameters of a transaction. */
module Gas {
  import opened IntMath
  import opened Outcomes

  const GAS_MULTIPLIER_SCALE: int := 10_000

  datatype Fees = Fees(baseFee: int, priorityFee: int, maxFee: int)

  function NormalizeFees(fees: Fees): Result<Fees> {
    if fees.baseFee < 0 then Err("baseFee must be >= 0")
    else if fees.priorityFee < 0 then Err("priorityFee must be >= 0")
    else if fees.maxFee < 0 then Err("maxFee must be >= 0")
    else if fees.maxFee < fees.baseFee then Err("maxFee must be >= baseFee")
    else Ok(fees)
  }

  function EffectiveGasPrice(fees: Fees): Result<int> {
    var f :- NormalizeFees(fees);
    Ok(if f.baseFee + f.priorityFee > f.maxFee then f.maxFee else f.baseFee + f.priorityFee)
  }

  // The price of the Specification section of EIP-1559: the base fee plus the priority fee, which is
  // cut to what the maximum fee leaves. It lies between the base fee and the maximum.
  lemma EffectivePriceIsEip1559(fees: Fees)
    ensures EffectiveGasPrice(fees).Ok? <==> 0 <= fees.baseFee <= fees.maxFee && 0 <= fees.priorityFee
    ensures EffectiveGasPrice(fees).Ok? ==>
              && EffectiveGasPrice(fees).value == fees.baseFee + Min(fees.priorityFee, fees.maxFee - fees.baseFee)
              && fees.baseFee <= EffectiveGasPrice(fees).value <= fees.maxFee
  {
  }

  datatype Bid = Bid(maxFee: int, maxPriorityFee: int)

  // Without a budget the fees are left alone.
  function CapToBudget(baseFee: int, bid: Bid, gasLimit: int, budget: Option<int>): Result<Bid> {
    if budget.None? then Ok(bid)
    else if budget.value < 0 then Err("maxEstimatedCostWei must be >= 0")
    else if gasLimit <= 0 then Err("gasLimit must be > 0 when applying a gas cost budget")
    else
      var affordable := TDiv(budget.value, gasLimit);
      if affordable < baseFee then Err("gas cost budget is below current baseFee")
      else
        Ok(Bid(Min(bid.maxFee, affordable), Min(bid.maxPriorityFee, affordable - baseFee)))
  }

  // A cap is refused exactly when the budget does not pay the base fee. Otherwise the cost at the
  // capped maximum stays within the budget, a price one higher would break it or was not bid, and a
  // maximum that bore the base fee still does.
  lemma CapKeepsBudget(baseFee: int, bid: Bid, gasLimit: int, budget: int)
    requires 0 < gasLimit && 0 <= budget
    ensures var r := CapToBudget(baseFee, bid, gasLimit, Some(budget));
            && (r.Ok? <==> gasLimit * baseFee <= budget)
            && (r.Ok? ==>
                  && gasLimit * r.value.maxFee <= budget
                  && (r.value.maxFee == bid.maxFee || budget < gasLimit * (r.value.maxFee + 1))
                  && r.value.maxFee <= bid.maxFee && r.value.maxPriorityFee <= bid.maxPriorityFee
                  && gasLimit * (baseFee + r.value.maxPriorityFee) <= budget
                  && (baseFee <= bid.maxFee ==> baseFee <= r.value.maxFee)
                  && (0 <= bid.maxPriorityFee ==> 0 <= r.value.maxPriorityFee))
  {
    hide TDiv;
    TDivFloor(budget, gasLimit);
    var affordable := TDiv(budget, gasLimit);
    FloorGe(affordable, budget, gasLimit, baseFee);
    var r := CapToBudget(baseFee, bid, gasLimit, Some(budget));
    if r.Ok? {
      MulMono(r.value.maxFee, affordable, gasLimit);
      MulMono(baseFee + r.value.maxPriorityFee, affordable, gasLimit);
    }
  }

  // The multiplier is in units of 1 / 10000, already rounded up.
  function BufferedGasLimit(gasEstimate: int, multiplierBps: int): Result<int> {
    if multiplierBps <= 0 then Err("gasMultiplier must be a finite positive number")
    else if gasEstimate < 0 then Err("gasEstimate must be non-negative")
    else Ok(TDiv(gasEstimate * multiplierBps + GAS_MULTIPLIER_SCALE - 1, GAS_MULTIPLIER_SCALE))
  }

  // The limit is the scaled estimate rounded up; it never falls below the estimate for a multiplier of
  // at least one.
  lemma BufferRoundsUp(gasEstimate: int, multiplierBps: int)
    requires 0 <= gasEstimate && 0 < multiplierBps
    ensures var r := BufferedGasLimit(gasEstimate, multiplierBps);
            && r.Ok? && IsCeil(r.value, gasEstimate * multiplierBps, GAS_MULTIPLIER_SCALE)
            && (0 < gasEstimate ==> 0 < r.value)
            && (GAS_MULTIPLIER_SCALE <= multiplierBps ==> gasEstimate <= r.value)
  {
  }

  // --- The bid ---

  function Clamp(value: int, low: int, high: int): int {
    if value < low then low else if value > high then high else value
  }

  // One to three times the priority fee, as the margin goes from nothing to five percent.
  function ScalePriorityFee(fees: Fees, profitMarginBps: int): Result<Bid> {
    var f :- NormalizeFees(fees);
    var multiplierBps := 10_000 + TDiv(20_000 * Clamp(profitMarginBps, 0, 500), 500);
    var maxPriorityFee := TDiv(f.priorityFee * multiplierBps + 9_999, 10_000);
    Ok(Bid(f.baseFee * 2 + maxPriorityFee, maxPriorityFee))
  }

  // The bid is between one and three times the priority fee, and a larger margin never bids less.
  lemma BidFollowsMargin(fees: Fees, margin: int, larger: int)
    requires NormalizeFees(fees).Ok? && margin <= larger
    ensures ScalePriorityFee(fees, margin).Ok? && ScalePriorityFee(fees, larger).Ok?
    ensures var bid, more := ScalePriorityFee(fees, margin).value, ScalePriorityFee(fees, larger).value;
            && fees.priorityFee <= bid.maxPriorityFee <= more.maxPriorityFee <= 3 * fees.priorityFee
            && bid.maxFee == 2 * fees.baseFee + bid.maxPriorityFee
  {
    var m, m2 := 10_000 + 40 * Clamp(margin, 0, 500), 10_000 + 40 * Clamp(larger, 0, 500);
    MulMono(10_000, m, fees.priorityFee);
    MulMono(m, m2, fees.priorityFee);
    MulMono(m2, 30_000, fees.priorityFee);
  }

  // In numbers: the priority fee is scaled by one, and 0.4% more for every basis point of margin up to
  // five percent, rounded up; the maximum leaves room for the base fee to double.
  lemma BidIsScaled(fees: Fees, margin: int)
    requires NormalizeFees(fees).Ok?
    ensures ScalePriorityFee(fees, margin).Ok?
    ensures var bid, points := ScalePriorityFee(fees, margin).value, Max(0, Min(500, margin));
            && IsCeil(bid.maxPriorityFee, fees.priorityFee * (10_000 + 40 * points), 10_000)
            && bid.maxFee == 2 * fees.baseFee + bid.maxPriorityFee
  {
    MulMono(0, fees.priorityFee, 10_000 + 40 * Clamp(margin, 0, 500));
  }

  // --- The parameters of a transaction ---

  datatype GasParams = GasParams(
    maxFee: int, maxPriorityFee: int, gasLimit: int, effectiveGasPrice: int, estimatedCost: int, maxCost: int)

  function OrElse(o: Option<int>, other: int): int {
    if o.Some? then o.value else other
  }

  // What is bid before the cap.
  function FirstBid(fees: Fees, maxFeeOverride: Option<int>, priorityFeeOverride: Option<int>): Result<Bid> {
    var priority := OrElse(priorityFeeOverride, fees.priorityFee);
    var maxFee := OrElse(maxFeeOverride, fees.maxFee);
    if maxFeeOverride.Some? && maxFee < fees.baseFee then Err("maxFeePerGas is below current baseFee")
    else if priorityFeeOverride.Some? && maxFeeOverride.None? && maxFee <= fees.baseFee * 2 + priority then
      Ok(Bid(fees.baseFee * 2 + priority, priority))
    else Ok(Bid(maxFee, priority))
  }

  // The gas estimate and the fee snapshot come from elsewhere.
  function RecommendGasParams(
    gasEstimate: int, snapshot: Fees, multiplierBps: int,
    maxFeeOverride: Option<int>, priorityFeeOverride: Option<int>, budget: Option<int>): Result<GasParams>
  {
    if gasEstimate <= 0 then Err("gas estimate must be > 0")
    else
      var fees :- NormalizeFees(snapshot);
      var bid :- FirstBid(fees, maxFeeOverride, priorityFeeOverride);
      var gasLimit :- BufferedGasLimit(gasEstimate, multiplierBps);
      var capped :- CapToBudget(fees.baseFee, bid, gasLimit, budget);
      if capped.maxPriorityFee > capped.maxFee && priorityFeeOverride.Some? && maxFeeOverride.Some? && budget.None? then
        Err("maxPriorityFeePerGas cannot exceed maxFeePerGas")
      else
        var priority := Min(capped.maxPriorityFee, capped.maxFee);
        var effective :- EffectiveGasPrice(Fees(fees.baseFee, priority, capped.maxFee));
        Ok(GasParams(capped.maxFee, priority, gasLimit, effective, gasLimit * effective, gasLimit * capped.maxFee))
  }

  // With a budget, whatever the overrides: the cost at the effective price is at most the cost at the
  // maximum fee, which is at most the budget; the base fee is covered; and the budget covers the base
  // fee at the limit.
  lemma ParamsKeepBudget(
      gasEstimate: int, snapshot: Fees, multiplierBps: int,
      maxFeeOverride: Option<int>, priorityFeeOverride: Option<int>, budget: int)
    ensures var r := RecommendGasParams(gasEstimate, snapshot, multiplierBps, maxFeeOverride, priorityFeeOverride, Some(budget));
            r.Ok? ==>
              var g := r.value;
              && 0 < g.gasLimit && 0 <= snapshot.baseFee <= g.effectiveGasPrice <= g.maxFee
              && 0 <= g.maxPriorityFee <= g.maxFee
              && g.estimatedCost == g.gasLimit * g.effectiveGasPrice <= g.maxCost == g.gasLimit * g.maxFee <= budget
              && g.gasLimit * snapshot.baseFee <= budget
  {
    hide BufferedGasLimit, CapToBudget, EffectiveGasPrice;
    var r := RecommendGasParams(gasEstimate, snapshot, multiplierBps, maxFeeOverride, priorityFeeOverride, Some(budget));
    if r.Ok? {
      var bid := FirstBid(snapshot, maxFeeOverride, priorityFeeOverride).value;
      var gasLimit := BufferedGasLimit(gasEstimate, multiplierBps).value;
      BufferedWants(gasEstimate, multiplierBps);
      BufferRoundsUp(gasEstimate, multiplierBps);
      CapWants(snapshot.baseFee, bid, gasLimit, budget);
      CapKeepsBudget(snapshot.baseFee, bid, gasLimit, budget);
      EffectivePriceIsEip1559(Fees(snapshot.baseFee, r.value.maxPriorityFee, r.value.maxFee));
      MulMono(r.value.effectiveGasPrice, r.value.maxFee, gasLimit);
    }
  }

  lemma BufferedWants(gasEstimate: int, multiplierBps: int)
    ensures BufferedGasLimit(gasEstimate, multiplierBps).Ok? ==> 0 <= gasEstimate && 0 < multiplierBps
  {
  }

  lemma CapWants(baseFee: int, bid: Bid, gasLimit: int, budget: int)
    ensures CapToBudget(baseFee, bid, gasLimit, Some(budget)).Ok? ==> 0 <= budget && 0 < gasLimit
  {
  }

  // What is bid before the cap: overrides win, and a priority override alone lifts the maximum to twice
  // the base fee and the priority, if that is more.
  function WantedPriority(snapshot: Fees, priorityFeeOverride: Option<int>): int {
    if priorityFeeOverride.Some? then priorityFeeOverride.value else snapshot.priorityFee
  }

  function WantedMaximum(snapshot: Fees, maxFeeOverride: Option<int>, priorityFeeOverride: Option<int>): int {
    if maxFeeOverride.Some? then maxFeeOverride.value
    else if priorityFeeOverride.Some? then Max(snapshot.maxFee, snapshot.baseFee * 2 + priorityFeeOverride.value)
    else snapshot.maxFee
  }

  // With a budget: the parameters are given exactly when the fees are in order, the estimate positive,
  // the maximum asked for covers the base fee, the priority is not negative and the budget pays the base
  // fee. Each fee is then what was bid, or the most that budget or maximum allow.
  lemma ParamsTakeTheBid(
      gasEstimate: int, snapshot: Fees, multiplierBps: int,
      maxFeeOverride: Option<int>, priorityFeeOverride: Option<int>, budget: int)
    ensures var r := RecommendGasParams(gasEstimate, snapshot, multiplierBps, maxFeeOverride, priorityFeeOverride, Some(budget));
            var priority := WantedPriority(snapshot, priorityFeeOverride);
            var limit := (gasEstimate * multiplierBps + 9_999) / 10_000;
            && (r.Ok? <==>
                  && 0 < gasEstimate && 0 < multiplierBps
                  && 0 <= snapshot.baseFee <= snapshot.maxFee && 0 <= snapshot.priorityFee && 0 <= priority
                  && (maxFeeOverride.Some? ==> snapshot.baseFee <= maxFeeOverride.value)
                  && limit * snapshot.baseFee <= budget)
            && (r.Ok? ==>
                  var g := r.value;
                  && g.gasLimit == limit
                  && g.maxFee <= WantedMaximum(snapshot, maxFeeOverride, priorityFeeOverride)
                  && (g.maxFee == WantedMaximum(snapshot, maxFeeOverride, priorityFeeOverride)
                      || budget < limit * (g.maxFee + 1))
                  && g.maxPriorityFee <= priority
                  && (g.maxPriorityFee == priority || g.maxPriorityFee == g.maxFee
                      || budget < limit * (snapshot.baseFee + g.maxPriorityFee + 1))
                  && g.effectiveGasPrice == Min(snapshot.baseFee + g.maxPriorityFee, g.maxFee))
  {
    hide CapToBudget, EffectiveGasPrice, BufferedGasLimit;
    if 0 < gasEstimate && 0 < multiplierBps {
      BufferIs(gasEstimate, multiplierBps);
      var limit := BufferedGasLimit(gasEstimate, multiplierBps).value;
      var bid := FirstBid(snapshot, maxFeeOverride, priorityFeeOverride);
      if bid.Ok? && 0 <= snapshot.baseFee {
        CapIsTight(snapshot.baseFee, bid.value, limit, budget);
        var capped := CapToBudget(snapshot.baseFee, bid.value, limit, Some(budget));
        if capped.Ok? {
          EffectivePriceIsEip1559(Fees(snapshot.baseFee, Min(capped.value.maxPriorityFee, capped.value.maxFee), capped.value.maxFee));
        }
      }
    } else {
      BufferedWants(gasEstimate, multiplierBps);
    }
  }

  // Without a budget nothing is cut, but a priority that was asked for together with a maximum must not
  // exceed it; any other is lowered to it.
  lemma ParamsWithoutBudget(
      gasEstimate: int, snapshot: Fees, multiplierBps: int,
      maxFeeOverride: Option<int>, priorityFeeOverride: Option<int>)
    ensures var r := RecommendGasParams(gasEstimate, snapshot, multiplierBps, maxFeeOverride, priorityFeeOverride, None);
            var priority := WantedPriority(snapshot, priorityFeeOverride);
            var maximum := WantedMaximum(snapshot, maxFeeOverride, priorityFeeOverride);
            && (r.Ok? <==>
                  && 0 < gasEstimate && 0 < multiplierBps
                  && 0 <= snapshot.baseFee <= snapshot.maxFee && 0 <= snapshot.priorityFee && 0 <= priority
                  && (maxFeeOverride.Some? ==> snapshot.baseFee <= maxFeeOverride.value)
                  && (maxFeeOverride.Some? && priorityFeeOverride.Some? ==> priority <= maximum))
            && (r.Ok? ==>
                  var g := r.value;
                  && g.gasLimit == (gasEstimate * multiplierBps + 9_999) / 10_000
                  && g.maxFee == maximum && g.maxPriorityFee == Min(priority, maximum)
                  && g.effectiveGasPrice == Min(snapshot.baseFee + g.maxPriorityFee, maximum))
  {
    hide EffectiveGasPrice, BufferedGasLimit;
    if 0 < gasEstimate && 0 < multiplierBps {
      BufferIs(gasEstimate, multiplierBps);
      var bid := FirstBid(snapshot, maxFeeOverride, priorityFeeOverride);
      if bid.Ok? {
        EffectivePriceIsEip1559(Fees(snapshot.baseFee, Min(bid.value.maxPriorityFee, bid.value.maxFee), bid.value.maxFee));
      }
    } else {
      BufferedWants(gasEstimate, multiplierBps);
    }
  }

  lemma BufferIs(gasEstimate: int, multiplierBps: int)
    requires 0 < gasEstimate && 0 < multiplierBps
    ensures BufferedGasLimit(gasEstimate, multiplierBps) == Ok((gasEstimate * multiplierBps + 9_999) / 10_000)
    ensures 0 < (gasEstimate * multiplierBps + 9_999) / 10_000
  {
    MulMono(1, gasEstimate, multiplierBps);
  }

  lemma CapIsTight(baseFee: int, bid: Bid, gasLimit: int, budget: int)
    requires 0 < gasLimit && 0 <= baseFee
    ensures var r := CapToBudget(baseFee, bid, gasLimit, Some(budget));
            && (r.Ok? <==> gasLimit * baseFee <= budget)
            && (r.Ok? ==>
                  && r.value.maxFee <= bid.maxFee && r.value.maxPriorityFee <= bid.maxPriorityFee
                  && (r.value.maxFee == bid.maxFee || budget < gasLimit * (r.value.maxFee + 1))
                  && (r.value.maxPriorityFee == bid.maxPriorityFee
                      || budget < gasLimit * (baseFee + r.value.maxPriorityFee + 1))
                  && (0 <= bid.maxPriorityFee <==> 0 <= r.value.maxPriorityFee)
                  && (baseFee <= bid.maxFee ==> baseFee <= r.value.maxFee))
  {
    MulMono(0, baseFee, gasLimit);
    if 0 <= budget {
      CapKeepsBudget(baseFee, bid, gasLimit, budget);
      hide TDiv;
      TDivFloor(budget, gasLimit);
      assert gasLimit * (TDiv(budget, gasLimit) + 1) == (TDiv(budget, gasLimit) + 1) * gasLimit;
    }
  }
}
