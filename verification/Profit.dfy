/** src/profit/compute.ts and src/arb/assessment.ts: whether a simulated route is worth executing. */
module Profit {
  import opened IntMath
  import opened Outcomes

  const BPS_DENOM: int := 10_000
  const SLIPPAGE_BPS: int := 50
  const REVERT_RISK_BPS: int := 500

  // What the assessment reads of a simulated route.
  datatype Outcome = Outcome(amountIn: int, amountOut: int, profit: int, totalGas: int)

  datatype Options = Options(
    gasPrice: int, rate: Option<int>, slippageBps: int, revertRiskBps: int, minNetProfit: int, hopCount: int)

  datatype Assessment = Assessment(
    shouldExecute: bool, grossProfit: int, gasCost: int, gasCostInTokens: int,
    slippageDeduction: int, revertPenalty: int, netProfit: int, netProfitAfterGas: int, rejectReason: string)

  function CeilDiv(numerator: int, denominator: int): int
    requires denominator != 0
  {
    TDiv(numerator + denominator - 1, denominator)
  }

  lemma CeilDivIsCeil(a: int, b: int)
    requires 0 <= a && 0 < b
    ensures IsCeil(CeilDiv(a, b), a, b) && 0 <= CeilDiv(a, b)
  {
  }

  function GasCostInTokenUnits(gasCost: int, rate: int): Result<int> {
    if gasCost < 0 then Err("gasCost must be >= 0")
    else if rate <= 0 then Err("tokenToMaticRate must be > 0")
    else Ok(CeilDiv(gasCost, rate))
  }

  predicate IsSafe(n: int) {
    -MAX_SAFE_INTEGER <= n <= MAX_SAFE_INTEGER
  }

  function GasCostWei(gasUnits: int, gasPrice: int): Result<int> {
    if !IsSafe(gasUnits) || gasUnits < 0 then Err("gasUnits must be a finite non-negative safe integer")
    else Ok(gasUnits * gasPrice)
  }

  function ApplySlippage(amountOut: int, slippageBps: int): Result<int> {
    if amountOut < 0 then Err("amountOut must be >= 0")
    else if slippageBps < 0 || slippageBps > BPS_DENOM then Err("slippageBps must be between 0 and 10000")
    else Ok(TDiv(amountOut * (BPS_DENOM - slippageBps), BPS_DENOM))
  }

  function RevertRiskPenalty(grossProfit: int, hopCount: int, revertRiskBps: int): Result<int> {
    if grossProfit < 0 then Err("grossProfit must be >= 0")
    else if hopCount < 1 then Err("hopCount must be >= 1")
    else if revertRiskBps < 0 || revertRiskBps > BPS_DENOM then Err("revertRiskBps must be between 0 and 10000")
    else
      var extraHops := if hopCount > 2 then hopCount - 2 else 0;
      var adjusted := revertRiskBps + extraHops * 200;
      Ok(TDiv(grossProfit * (if adjusted > 3000 then 3000 else adjusted), BPS_DENOM))
  }

  function Invalid(r: Outcome, reason: string): Assessment {
    Assessment(false, r.profit, 0, 0, 0, 0, 0, 0, reason)
  }

  function Complaint(r: Outcome, o: Options): string {
    if r.amountIn <= 0 then "amountIn <= 0"
    else if r.amountOut < 0 then "amountOut < 0"
    else if r.profit != r.amountOut - r.amountIn then "profit mismatch"
    else if !IsSafe(r.totalGas) || r.totalGas < 0 then "invalid totalGas"
    else if o.gasPrice < 0 then "gasPriceWei < 0"
    else if o.slippageBps < 0 || o.slippageBps > BPS_DENOM then "invalid slippageBps"
    else if o.revertRiskBps < 0 || o.revertRiskBps > BPS_DENOM then "invalid revertRiskBps"
    else if o.minNetProfit < 0 then "minNetProfit < 0"
    else if o.hopCount < 1 then "invalid hopCount"
    else if o.rate.Some? && o.rate.value <= 0 then "tokenToMaticRate <= 0"
    else ""
  }

  // What is left of the output after slippage, and of that after the revert risk; gas is not in it.
  function AfterSlippage(r: Outcome, slippageBps: int): Result<int> {
    var adjusted :- ApplySlippage(r.amountOut, slippageBps);
    Ok(adjusted - r.amountIn)
  }

  function Net(r: Outcome, slippageBps: int, revertRiskBps: int, hopCount: int): Result<int> {
    var profit :- AfterSlippage(r, slippageBps);
    var penalty :- RevertRiskPenalty(if profit > 0 then profit else 0, hopCount, revertRiskBps);
    Ok(profit - penalty)
  }

  function ComputeProfit(r: Outcome, o: Options): Result<Assessment> {
    if Complaint(r, o) != "" then Ok(Invalid(r, Complaint(r, o)))
    else
      var gasCost :- GasCostWei(r.totalGas, o.gasPrice);
      var profit :- AfterSlippage(r, o.slippageBps);
      var net :- Net(r, o.slippageBps, o.revertRiskBps, o.hopCount);
      var gasTokens :- if o.rate.Some? then GasCostInTokenUnits(gasCost, o.rate.value) else Ok(0);
      var reason :=
        if r.profit <= 0 then "gross profit <= 0"
        else if profit <= 0 then "profit wiped by slippage"
        else if net - gasTokens < o.minNetProfit then "net profit below minimum"
        else if o.rate.Some? && net - gasTokens <= 0 then "gas cost exceeds net profit"
        else "";
      Ok(Assessment(reason == "", r.profit, gasCost, gasTokens, r.profit - profit, profit - net, net, net - gasTokens, reason))
  }

  // Slippage takes its share of the output and what is left is rounded down.
  lemma SlippageRoundsDown(r: Outcome, slippageBps: int)
    requires 0 <= r.amountOut && 0 <= slippageBps <= BPS_DENOM
    ensures var kept := ApplySlippage(r.amountOut, slippageBps);
            && kept.Ok? && 0 <= kept.value <= r.amountOut
            && r.amountOut * slippageBps <= (r.amountOut - kept.value) * BPS_DENOM < r.amountOut * slippageBps + BPS_DENOM
  {
    MulMono(0, r.amountOut, BPS_DENOM - slippageBps);
    MulMono(BPS_DENOM - slippageBps, BPS_DENOM, r.amountOut);
    TDivFloor(r.amountOut * (BPS_DENOM - slippageBps), BPS_DENOM);
    assert r.amountOut * (BPS_DENOM - slippageBps) == r.amountOut * BPS_DENOM - r.amountOut * slippageBps;
  }

  // Every hop beyond the second adds two percent of risk, up to thirty percent; the penalty is that
  // share of the profit, rounded down.
  lemma PenaltyIsPartial(gross: int, hopCount: int, revertRiskBps: int)
    requires 0 <= gross && 1 <= hopCount && 0 <= revertRiskBps <= BPS_DENOM
    ensures var penalty := RevertRiskPenalty(gross, hopCount, revertRiskBps);
            && penalty.Ok? && 0 <= penalty.value <= gross && 10 * penalty.value <= 3 * gross
            && IsFloor(penalty.value, gross * Min(3000, revertRiskBps + 200 * Max(0, hopCount - 2)), BPS_DENOM)
  {
    var adjusted := revertRiskBps + (if hopCount > 2 then hopCount - 2 else 0) * 200;
    var risk := if adjusted > 3000 then 3000 else adjusted;
    MulMono(0, gross, risk);
    MulMono(risk, 3000, gross);
    TDivFloor(gross * risk, BPS_DENOM);
  }

  // Numbers that make sense, spelled out.
  predicate Sane(r: Outcome, o: Options) {
    && 0 < r.amountIn && 0 <= r.amountOut && r.profit == r.amountOut - r.amountIn
    && 0 <= r.totalGas <= 9_007_199_254_740_991 && 0 <= o.gasPrice
    && 0 <= o.slippageBps <= 10_000 && 0 <= o.revertRiskBps <= 10_000
    && 0 <= o.minNetProfit && 1 <= o.hopCount && (o.rate.Some? ==> 0 < o.rate.value)
  }

  // An assessment never throws: every argument its steps would refuse has been turned down before. It
  // splits the simulated profit without loss into slippage, revert risk and net profit.
  lemma AssessmentIsTotal(r: Outcome, o: Options)
    ensures ComputeProfit(r, o).Ok?
    ensures var a := ComputeProfit(r, o).value;
            && a.grossProfit == r.profit
            && (Sane(r, o) ==>
                  && a.grossProfit == a.slippageDeduction + a.revertPenalty + a.netProfit
                  && 0 <= a.slippageDeduction && 0 <= a.revertPenalty && 0 <= a.gasCostInTokens
                  && a.gasCost == r.totalGas * o.gasPrice
                  && a.netProfitAfterGas == a.netProfit - a.gasCostInTokens)
  {
    hide ApplySlippage, RevertRiskPenalty, CeilDiv;
    if Sane(r, o) {
      SlippageRoundsDown(r, o.slippageBps);
      var profit := AfterSlippage(r, o.slippageBps).value;
      PenaltyIsPartial(if profit > 0 then profit else 0, o.hopCount, o.revertRiskBps);
      MulMono(0, r.totalGas, o.gasPrice);
      if o.rate.Some? {
        CeilDivIsCeil(r.totalGas * o.gasPrice, o.rate.value);
      }
    }
  }

  // Exactly which routes are accepted, in terms of the numbers that came in.
  lemma AcceptedExactly(r: Outcome, o: Options)
    ensures ComputeProfit(r, o).Ok?
    ensures var profit := r.amountOut * (10_000 - o.slippageBps) / 10_000 - r.amountIn;
            var risk := Min(3_000, o.revertRiskBps + 200 * Max(0, o.hopCount - 2));
            var net := profit - (if 0 < profit then profit * risk / 10_000 else 0);
            ComputeProfit(r, o).value.shouldExecute <==>
              && Sane(r, o) && 0 < profit
              && (o.rate.None? ==> o.minNetProfit <= net)
              && (o.rate.Some? ==>
                    exists gas :: && IsCeil(gas, r.totalGas * o.gasPrice, o.rate.value)
                                  && o.minNetProfit <= net - gas && 0 < net - gas)
  {
    hide CeilDiv, ApplySlippage, RevertRiskPenalty;
    AssessmentIsTotal(r, o);
    if Sane(r, o) {
      var kept := ApplySlippage(r.amountOut, o.slippageBps).value;
      SlippageIs(r.amountOut, o.slippageBps);
      var profit := kept - r.amountIn;
      PenaltyIs(if profit > 0 then profit else 0, o.hopCount, o.revertRiskBps);
      SlippageRoundsDown(r, o.slippageBps);
      if o.rate.Some? {
        MulMono(0, r.totalGas, o.gasPrice);
        CeilDivIsCeil(r.totalGas * o.gasPrice, o.rate.value);
        OneCeil(CeilDiv(r.totalGas * o.gasPrice, o.rate.value), r.totalGas * o.gasPrice, o.rate.value);
      }
    }
  }

  // A route whose numbers make no sense is turned down with nothing but its simulated profit.
  lemma NonsenseIsTurnedDown(r: Outcome, o: Options)
    requires !Sane(r, o)
    ensures ComputeProfit(r, o).Ok?
    ensures var a := ComputeProfit(r, o).value;
            && !a.shouldExecute && a.grossProfit == r.profit
            && a.gasCost == a.gasCostInTokens == a.slippageDeduction == a.revertPenalty == 0
            && a.netProfit == a.netProfitAfterGas == 0
  {
  }

  lemma SlippageIs(amountOut: int, slippageBps: int)
    requires 0 <= amountOut && 0 <= slippageBps <= BPS_DENOM
    ensures ApplySlippage(amountOut, slippageBps) == Ok(amountOut * (10_000 - slippageBps) / 10_000)
  {
    MulMono(0, amountOut, 10_000 - slippageBps);
  }

  lemma PenaltyIs(gross: int, hopCount: int, revertRiskBps: int)
    requires 0 <= gross && 1 <= hopCount && 0 <= revertRiskBps <= BPS_DENOM
    ensures RevertRiskPenalty(gross, hopCount, revertRiskBps)
            == Ok(gross * Min(3_000, revertRiskBps + 200 * Max(0, hopCount - 2)) / 10_000)
  {
    MulMono(0, gross, Min(3_000, revertRiskBps + 200 * Max(0, hopCount - 2)));
  }

  lemma OneCeil(q: int, a: int, b: int)
    requires 0 < b && IsCeil(q, a, b)
    ensures forall r :: IsCeil(r, a, b) ==> r == q
  {
    forall r | IsCeil(r, a, b)
      ensures r == q
    {
      CeilLe(q, a, b, r);
      CeilLe(r, a, b, q);
    }
  }

  // What an accepted route is worth at a known rate: the net profit pays for the gas and the required
  // minimum, both rounded up into token units, and something is left.
  lemma AcceptedPaysForGas(r: Outcome, o: Options)
    requires o.rate.Some?
    ensures var a := ComputeProfit(r, o).value;
            a.shouldExecute ==>
              && Sane(r, o) && 0 < r.profit
              && a.gasCost <= a.gasCostInTokens * o.rate.value
              && a.gasCost + o.minNetProfit * o.rate.value <= a.netProfit * o.rate.value
              && a.gasCost < a.netProfit * o.rate.value
  {
    AssessmentIsTotal(r, o);
    hide AfterSlippage, Net, CeilDiv;
    var a := ComputeProfit(r, o).value;
    if a.shouldExecute {
      MulMono(0, r.totalGas, o.gasPrice);
      CeilDivIsCeil(a.gasCost, o.rate.value);
      MulMono(a.gasCostInTokens + o.minNetProfit, a.netProfit, o.rate.value);
      assert (a.gasCostInTokens + o.minNetProfit) * o.rate.value == a.gasCostInTokens * o.rate.value + o.minNetProfit * o.rate.value;
      MulStrict(a.gasCostInTokens, a.netProfit, o.rate.value);
    }
  }

  // --- assessment.ts ---

  function MinProfitInTokenUnits(rate: int, minProfitWei: int): int {
    if rate <= 0 then 0 else CeilDiv(minProfitWei, rate)
  }

  function Assess(r: Outcome, hops: nat, gasPrice: int, rate: int, minProfitWei: int): Result<Assessment> {
    ComputeProfit(r, Options(gasPrice, Some(rate), SLIPPAGE_BPS, REVERT_RISK_BPS, MinProfitInTokenUnits(rate, minProfitWei), hops))
  }

  // An executable route pays for its gas and the minimum profit in wei, despite every rounding.
  lemma ExecutablePaysMinimum(r: Outcome, hops: nat, gasPrice: int, rate: int, minProfitWei: int)
    requires 0 <= minProfitWei
    ensures Assess(r, hops, gasPrice, rate, minProfitWei).Ok?
    ensures var a := Assess(r, hops, gasPrice, rate, minProfitWei).value;
            a.shouldExecute ==> r.totalGas * gasPrice + minProfitWei <= a.netProfit * rate
  {
    hide ComputeProfit, CeilDiv;
    var o := Options(gasPrice, Some(rate), SLIPPAGE_BPS, REVERT_RISK_BPS, MinProfitInTokenUnits(rate, minProfitWei), hops);
    AssessmentIsTotal(r, o);
    AcceptedPaysForGas(r, o);
    if ComputeProfit(r, o).value.shouldExecute {
      CeilDivIsCeil(minProfitWei, rate);
    }
  }

  function ProfitMarginBps(a: Assessment, amountIn: int): int {
    if amountIn <= 0 || a.netProfitAfterGas <= 0 then 0 else TDiv(a.netProfitAfterGas * 10_000, amountIn)
  }

  // The margin is the net profit over the input in basis points, rounded down; no profit, no margin.
  lemma MarginRoundsDown(a: Assessment, amountIn: int)
    ensures var margin := ProfitMarginBps(a, amountIn);
            if 0 < amountIn && 0 < a.netProfitAfterGas then IsFloor(margin, a.netProfitAfterGas * 10_000, amountIn) && 0 <= margin
            else margin == 0
  {
    if 0 < amountIn && 0 < a.netProfitAfterGas {
      TDivFloor(a.netProfitAfterGas * 10_000, amountIn);
    }
  }

  // The minimum in token units is rounded up; without a rate it is nothing.
  lemma MinimumRoundsUp(rate: int, minProfitWei: int)
    ensures rate <= 0 ==> MinProfitInTokenUnits(rate, minProfitWei) == 0
    ensures 0 < rate && 0 <= minProfitWei ==> IsCeil(MinProfitInTokenUnits(rate, minProfitWei), minProfitWei, rate)
  {
    if 0 < rate && 0 <= minProfitWei {
      CeilDivIsCeil(minProfitWei, rate);
    }
  }
}
