/** src/math/balancer.ts: the weighted quote and its inverse, over any power function. */
module Balancer {
  import opened IntMath

  const ONE: int := 1_000_000_000_000_000_000
  const MAX_IN_RATIO: int := 30 * 10_000_000_000_000_000
  const MAX_OUT_RATIO: int := 30 * 10_000_000_000_000_000
  const MAX_POW_ITERATIONS: nat := 255

  // Fixed-point base and exponent to power; the program approximates it by series.
  type Power = (int, int) -> int

  datatype Pool = Pool(balances: seq<int>, weights: seq<int>, swapFee: int)

  predicate Quotable(p: Pool, inIdx: int, outIdx: int) {
    && 0 <= inIdx < |p.balances| && 0 <= outIdx < |p.balances|
    && inIdx < |p.weights| && outIdx < |p.weights| && inIdx != outIdx
    && 0 < p.balances[inIdx] && 0 < p.balances[outIdx]
    && 0 < p.weights[inIdx] && 0 < p.weights[outIdx]
    && 0 <= p.swapFee < ONE
  }

  function AmountOut(pow: Power, amountIn: int, p: Pool, inIdx: int, outIdx: int): int {
    if amountIn <= 0 || !Quotable(p, inIdx, outIdx) then 0
    else
      var balIn, balOut := p.balances[inIdx], p.balances[outIdx];
      if amountIn > TDiv(balIn * MAX_IN_RATIO, ONE) then 0
      else
        var denominator := balIn + TDiv(amountIn * (ONE - p.swapFee), ONE);
        if denominator <= 0 then 0
        else
          var base := TDiv(balIn * ONE, denominator);
          if base <= 0 || base > ONE then 0
          else
            var exponent := TDiv(p.weights[inIdx] * ONE, p.weights[outIdx]);
            if exponent <= 0 then 0
            else
              var power := pow(base, exponent);
              if power < 0 || power > ONE then 0
              else
                var amountOut := TDiv(balOut * (ONE - power), ONE);
                if amountOut > 0 then amountOut else 0
  }

  // A quote never exceeds the output balance, whatever the power function does.
  lemma QuoteIsCovered(pow: Power, amountIn: int, p: Pool, inIdx: int, outIdx: int)
    ensures var r := AmountOut(pow, amountIn, p, inIdx, outIdx);
            0 <= r && (r > 0 ==> 0 <= outIdx < |p.balances| && r <= p.balances[outIdx])
  {
  }

  // With equal weights the exponent is one. Where the power function then misses its base by at most
  // eps, the quote exceeds that of a constant product by at most 1 + eps parts in 10^18 of the output
  // balance, and falls short of it by less than eps such parts and one unit.
  lemma EqualWeightsAreConstantProduct(pow: Power, eps: int, amountIn: int, p: Pool, inIdx: int, outIdx: int)
    requires Quotable(p, inIdx, outIdx) && p.weights[inIdx] == p.weights[outIdx]
    requires 0 < amountIn <= TDiv(p.balances[inIdx] * MAX_IN_RATIO, ONE)
    requires var base := BaseOf(amountIn, p, inIdx);
             0 <= pow(base, ONE) && base - eps <= pow(base, ONE) <= base + eps
    ensures var afterFee, balOut := TDiv(amountIn * (ONE - p.swapFee), ONE), p.balances[outIdx];
            var total, out := p.balances[inIdx] + afterFee, AmountOut(pow, amountIn, p, inIdx, outIdx);
            && out * total * ONE <= balOut * afterFee * ONE + (1 + eps) * (balOut * total)
            && balOut * afterFee * ONE - eps * (balOut * total) - total * ONE < out * total * ONE
  {
    hide TDiv;
    var balIn, balOut := p.balances[inIdx], p.balances[outIdx];
    var afterFee := TDiv(amountIn * (ONE - p.swapFee), ONE);
    AfterFeeIsPart(amountIn, p.swapFee);
    RatioIsPart(balIn, amountIn, afterFee);
    UnitExponent(p.weights[inIdx]);
    var base := BaseOf(amountIn, p, inIdx);
    var power := pow(base, ONE);
    var out := AmountOut(pow, amountIn, p, inIdx, outIdx);
    assert out == if power > ONE then 0 else Positive(TDiv(balOut * (ONE - power), ONE));
    QuoteOfPower(balOut, power, out);
    ConstantProduct(balIn, afterFee, balOut, base, power, eps, out);
  }

  // The ratio of balances the quote raises to the power of the weights.
  function BaseOf(amountIn: int, p: Pool, inIdx: int): int
    requires 0 <= inIdx < |p.balances|
  {
    var denominator := p.balances[inIdx] + TDiv(amountIn * (ONE - p.swapFee), ONE);
    if denominator == 0 then 0 else TDiv(p.balances[inIdx] * ONE, denominator)
  }

  function Positive(x: int): int {
    if x > 0 then x else 0
  }

  // A power above one quotes nothing, any other the share it leaves, rounded down.
  lemma QuoteOfPower(balOut: int, power: int, out: int)
    requires 0 < balOut && 0 <= power
    requires out == if power > ONE then 0 else Positive(TDiv(balOut * (ONE - power), ONE))
    ensures 0 <= out && (out == 0 || out * ONE <= balOut * (ONE - power))
    ensures balOut * (ONE - power) < (out + 1) * ONE
  {
    if power <= ONE {
      MulMono(0, balOut, ONE - power);
      TDivFloor(balOut * (ONE - power), ONE);
    } else {
      MulMono(ONE - power, 0, balOut);
    }
  }

  lemma AfterFeeIsPart(amountIn: int, fee: int)
    requires 0 < amountIn && 0 <= fee < ONE
    ensures 0 <= TDiv(amountIn * (ONE - fee), ONE) <= amountIn
  {
    MulMono(0, amountIn, ONE - fee);
    MulMono(ONE - fee, ONE, amountIn);
    TDivFloor(amountIn * (ONE - fee), ONE);
    CancelLe(TDiv(amountIn * (ONE - fee), ONE), amountIn, ONE);
  }

  lemma RatioIsPart(balIn: int, amountIn: int, afterFee: int)
    requires 0 < balIn && 0 <= afterFee <= amountIn <= TDiv(balIn * MAX_IN_RATIO, ONE)
    ensures IsFloor(TDiv(balIn * ONE, balIn + afterFee), balIn * ONE, balIn + afterFee)
    ensures 0 < TDiv(balIn * ONE, balIn + afterFee) <= ONE
  {
    TDivFloor(balIn * MAX_IN_RATIO, ONE);
    TDivFloor(balIn * ONE, balIn + afterFee);
    var base := TDiv(balIn * ONE, balIn + afterFee);
    FloorGe(base, balIn * ONE, balIn + afterFee, 1);
    FloorGe(base, balIn * ONE, balIn + afterFee, ONE + 1);
    assert (ONE + 1) * (balIn + afterFee) > balIn * ONE;
  }

  lemma UnitExponent(w: int)
    requires 0 < w
    ensures TDiv(w * ONE, w) == ONE
  {
    TDivFloor(w * ONE, w);
    FloorUnique(TDiv(w * ONE, w), ONE, w * ONE, w);
  }

  lemma ConstantProduct(balIn: int, afterFee: int, balOut: int, base: int, power: int, eps: int, out: int)
    requires 0 < balIn && 0 <= afterFee && 0 < balOut && IsFloor(base, balIn * ONE, balIn + afterFee)
    requires base - eps <= power <= base + eps
    requires 0 <= out && (out == 0 || out * ONE <= balOut * (ONE - power)) && balOut * (ONE - power) < (out + 1) * ONE
    ensures var total := balIn + afterFee;
            && out * total * ONE <= balOut * afterFee * ONE + (1 + eps) * (balOut * total)
            && balOut * afterFee * ONE - eps * (balOut * total) - total * ONE < out * total * ONE
  {
    var total := balIn + afterFee;
    RatioLeft(balIn, afterFee, base);
    ScaledShare(balOut, total, power, base, eps, out);
    MulMono(afterFee * ONE, (ONE - base) * total, balOut);
    MulMono((ONE - base) * total, afterFee * ONE + total, balOut);
    Distribute(afterFee * ONE, total, balOut);
    Regroup(balOut, afterFee, ONE);
    MulMono(0, balOut, afterFee * ONE);
    MulMono(0, balOut, total);
    MulMono(0, 1 + eps, balOut * total);
    Distribute(1, eps, balOut * total);
  }

  // What the ratio leaves of one, in units of 1 / total.
  lemma RatioLeft(balIn: int, afterFee: int, base: int)
    requires 0 < balIn && 0 <= afterFee && IsFloor(base, balIn * ONE, balIn + afterFee)
    ensures afterFee * ONE <= (ONE - base) * (balIn + afterFee) <= afterFee * ONE + (balIn + afterFee)
  {
    var total := balIn + afterFee;
    Distribute(ONE, base, total);
    Distribute(balIn, afterFee, ONE);
    Distribute(base, 1, total);
  }

  lemma ScaledShare(balOut: int, total: int, power: int, base: int, eps: int, out: int)
    requires 0 < balOut && 0 < total && base - eps <= power <= base + eps
    requires 0 <= out && (out == 0 || out * ONE <= balOut * (ONE - power)) && balOut * (ONE - power) < (out + 1) * ONE
    ensures out == 0 || out * total * ONE <= (ONE - base) * total * balOut + eps * (balOut * total)
    ensures (ONE - base) * total * balOut - eps * (balOut * total) - total * ONE < out * total * ONE
  {
    var value := balOut * (ONE - power);
    if out != 0 {
      MulMono(out * ONE, value, total);
    }
    MulStrict(value, (out + 1) * ONE, total);
    Regroup(out, ONE, total);
    Distribute(out, 1, ONE);
    Distribute(out * ONE, ONE, total);
    NearShare(balOut, total, power, base, eps);
  }

  // The share left by the power is near the share left by its base.
  lemma NearShare(balOut: int, total: int, power: int, base: int, eps: int)
    requires 0 < balOut && 0 < total && base - eps <= power <= base + eps
    ensures var exact := (ONE - base) * total * balOut;
            exact - eps * (balOut * total) <= balOut * (ONE - power) * total <= exact + eps * (balOut * total)
  {
    var bt := balOut * total;
    MulMono(1, balOut, total);
    MulMono(ONE - base - eps, ONE - power, bt);
    MulMono(ONE - power, ONE - base + eps, bt);
    Distribute(ONE - base, eps, bt);
    Regroup(balOut, ONE - power, total);
    Regroup(ONE - base, total, balOut);
  }

  // The first guess of the inverse: none when the request is refused.
  function Candidate(pow: Power, amountOut: int, p: Pool, inIdx: int, outIdx: int): int {
    if amountOut <= 0 || !Quotable(p, inIdx, outIdx) then 0
    else
      var balIn, balOut := p.balances[inIdx], p.balances[outIdx];
      if amountOut >= balOut || amountOut > TDiv(balOut * MAX_OUT_RATIO, ONE) then 0
      else
        var exponent := TDiv(p.weights[outIdx] * ONE, p.weights[inIdx]);
        var base := TDiv(balOut * ONE, balOut - amountOut);
        if exponent <= 0 || base < ONE then 0
        else
          var power := pow(base, exponent);
          if power < ONE then 0
          else
            var amountInBeforeFee := TDiv(balIn * (power - ONE), ONE);
            TDiv(amountInBeforeFee * ONE, ONE - p.swapFee) + 1
  }

  function Doubled(x: int, times: nat): int {
    if times == 0 then x else 2 * Doubled(x, times - 1)
  }

  lemma {:induction false} DoubledIs(x: int, k: nat)
    ensures Doubled(x, k) == x * Pow2(k)
  {
    if k > 0 {
      DoubledIs(x, k - 1);
    }
  }

  // Some doubling of the first guess, up to 255 of them, pays enough.
  predicate Reachable(quote: int -> int, want: int, candidate: int, doublings: nat) {
    exists k: nat :: k <= doublings && quote(Doubled(candidate, k)) >= want
  }

  function QuoteOf(pow: Power, p: Pool, inIdx: int, outIdx: int): int -> int {
    (amount: int) => AmountOut(pow, amount, p, inIdx, outIdx)
  }

  lemma ReachableMeans(pow: Power, want: int, p: Pool, inIdx: int, outIdx: int, candidate: int)
    ensures Reachable(QuoteOf(pow, p, inIdx, outIdx), want, candidate, MAX_POW_ITERATIONS)
            <==> exists k: nat :: k <= 255 && want <= AmountOut(pow, candidate * Pow2(k), p, inIdx, outIdx)
  {
    hide AmountOut, Doubled, Pow2;
    var quote := QuoteOf(pow, p, inIdx, outIdx);
    if Reachable(quote, want, candidate, MAX_POW_ITERATIONS) {
      var k: nat :| k <= 255 && quote(Doubled(candidate, k)) >= want;
      DoubledIs(candidate, k);
      assert want <= AmountOut(pow, candidate * Pow2(k), p, inIdx, outIdx);
    }
    if k: nat :| k <= 255 && want <= AmountOut(pow, candidate * Pow2(k), p, inIdx, outIdx) {
      DoubledIs(candidate, k);
      assert quote(Doubled(candidate, k)) >= want;
    }
  }

  // The inverse quote. It answers when and only when some doubling of the first guess, up to 255, pays
  // enough; its answer pays enough and one unit less does not. Nothing is asked of the power function.
  method GetBalancerAmountIn(pow: Power, amountOut: int, p: Pool, inIdx: int, outIdx: int) returns (r: int)
    ensures var candidate := Candidate(pow, amountOut, p, inIdx, outIdx);
            r != 0 <==> 0 < candidate
                        && exists k: nat :: k <= 255 && amountOut <= AmountOut(pow, candidate * Pow2(k), p, inIdx, outIdx)
    ensures r != 0 ==>
              && 0 < r && amountOut <= AmountOut(pow, r, p, inIdx, outIdx)
              && AmountOut(pow, r - 1, p, inIdx, outIdx) < amountOut
  {
    hide AmountOut, Candidate;
    var candidate := Candidate(pow, amountOut, p, inIdx, outIdx);
    if candidate <= 0 {
      return 0;
    }
    Refusals(pow, amountOut, p, inIdx, outIdx);
    ReachableMeans(pow, amountOut, p, inIdx, outIdx, candidate);
    r := Search(QuoteOf(pow, p, inIdx, outIdx), amountOut, candidate, MAX_POW_ITERATIONS);
  }

  lemma Refusals(pow: Power, amountOut: int, p: Pool, inIdx: int, outIdx: int)
    requires 0 < Candidate(pow, amountOut, p, inIdx, outIdx)
    ensures 0 < amountOut && QuoteOf(pow, p, inIdx, outIdx)(0) == 0
  {
  }

  method Search(quote: int -> int, want: int, candidate: int, doublings: nat) returns (r: int)
    requires 0 < want && 0 < candidate && quote(0) < want
    ensures r != 0 <==> Reachable(quote, want, candidate, doublings)
    ensures r != 0 ==> 0 < r && want <= quote(r) && quote(r - 1) < want
  {
    var low, high := 0, candidate;
    var quotedOut := quote(high);
    assert Doubled(candidate, 0) == candidate;
    if quotedOut < want {
      low := high;
      high := high * 2;
      assert high == Doubled(candidate, 1);
      for i := 0 to doublings
        invariant low < high == Doubled(candidate, i + 1)
        invariant quotedOut < want && quote(low) < want && 0 < low
        invariant forall k: nat :: k <= i ==> quote(Doubled(candidate, k)) < want
      {
        quotedOut := quote(high);
        if quotedOut >= want {
          break;
        }
        low := high;
        high := high * 2;
      }
      if quotedOut < want {
        return 0;
      }
    }
    while high - low > 1
      invariant 0 <= low < high && quote(low) < want <= quote(high)
    {
      var mid := (low + high) / 2;
      if quote(mid) >= want {
        high := mid;
      } else {
        low := mid;
      }
    }
    r := high;
  }
}
