/** src/math/balancer.ts: the weighted quotes keep the weighted product of the balances. */
module BalancerWeights {
  import opened IntMath
  import opened Balancer

  lemma {:induction false} PowIsMonotone(a: nat, b: nat, n: nat)
    requires a <= b
    ensures Pow(a, n) <= Pow(b, n)
  {
    if n > 0 {
      PowIsMonotone(a, b, n - 1);
      MulMono(a, b, Pow(a, n - 1));
      MulMono(Pow(a, n - 1), Pow(b, n - 1), b);
    }
  }

  lemma {:induction false} PowOfProduct(a: nat, b: nat, n: nat)
    ensures 0 <= a * b && Pow(a * b, n) == Pow(a, n) * Pow(b, n)
  {
    MulMono(0, a, b);
    if n > 0 {
      PowOfProduct(a, b, n - 1);
      Shuffle(a, b, Pow(a, n - 1), Pow(b, n - 1));
    }
  }

  lemma Shuffle(a: int, b: int, x: int, y: int)
    ensures a * b * (x * y) == (a * x) * (b * y)
  {
  }

  // The weighted product of two amounts.
  function Weighted(x: nat, wx: nat, y: nat, wy: nat): nat {
    MulMono(0, Pow(x, wx), Pow(y, wy));
    Pow(x, wx) * Pow(y, wy)
  }

  lemma WeightedIsMonotone(x: nat, x2: nat, wx: nat, y: nat, y2: nat, wy: nat)
    requires x <= x2 && y <= y2
    ensures Weighted(x, wx, y, wy) <= Weighted(x2, wx, y2, wy)
  {
    PowIsMonotone(x, x2, wx);
    PowIsMonotone(y, y2, wy);
    MulMono(Pow(x, wx), Pow(x2, wx), Pow(y, wy));
    MulMono(Pow(y, wy), Pow(y2, wy), Pow(x2, wx));
  }

  lemma WeightedOfProducts(a: nat, b: nat, wx: nat, c: nat, d: nat, wy: nat)
    ensures 0 <= a * b && 0 <= c * d
    ensures Weighted(a * b, wx, c * d, wy) == Weighted(a, wx, c, wy) * Weighted(b, wx, d, wy)
  {
    PowOfProduct(a, b, wx);
    PowOfProduct(c, d, wy);
    Shuffle(Pow(a, wx), Pow(b, wx), Pow(c, wy), Pow(d, wy));
  }

  // In units of ONE, power is within eps of base to the power of w over v.
  ghost predicate IsPower(power: int, base: int, w: nat, v: nat, eps: nat) {
    && 0 <= power && 0 <= base
    && Weighted(base, w, ONE, v) <= Weighted(ONE, w, power + eps, v)
    && Weighted(ONE, w, if power > eps then power - eps else 0, v) <= Weighted(base, w, ONE, v)
  }

  // Scaling both sides of such a comparison by a pair of balances.
  lemma Scale(a: nat, b: nat, p: nat, q: nat, w: nat, v: nat, x: nat, y: nat)
    requires Weighted(a, w, b, v) <= Weighted(p, w, q, v)
    ensures 0 <= x * a && 0 <= y * b && 0 <= x * p && 0 <= y * q
    ensures Weighted(x * a, w, y * b, v) <= Weighted(x * p, w, y * q, v)
  {
    WeightedOfProducts(x, a, w, y, b, v);
    WeightedOfProducts(x, p, w, y, q, v);
    MulMono(Weighted(a, w, b, v), Weighted(p, w, q, v), Weighted(x, w, y, v));
  }

  // What is left of a balance: y after, y * power / ONE in theory.
  lemma KeepsProduct(balIn: nat, total: nat, base: nat, power: int, balOut: nat, kept: nat, eps: nat, w: nat, v: nat)
    requires IsPower(power, base, w, v, eps) && total <= balIn * ONE <= base * total + total
    requires balOut * power <= kept
    ensures 0 <= balOut * eps && 0 <= balOut * ONE && 0 <= total * ONE
    ensures Weighted(balIn * ONE - total, w, balOut * ONE, v) <= Weighted(total * ONE, w, kept + balOut * eps, v)
  {
    MulMono(0, eps, balOut);
    Scale(base, ONE, ONE, power + eps, w, v, total, balOut);
    assert total * base == base * total;
    WeightedIsMonotone(balIn * ONE - total, total * base, w, balOut * ONE, balOut * ONE, v);
    assert balOut * (power + eps) == balOut * power + balOut * eps;
    WeightedIsMonotone(total * ONE, total * ONE, w, balOut * (power + eps), kept + balOut * eps, v);
  }

  lemma TakesNoMore(balIn: nat, total: nat, base: nat, power: int, balOut: nat, kept: int, eps: nat, w: nat, v: nat)
    requires IsPower(power, base, w, v, eps) && base * total <= balIn * ONE && kept <= balOut * power
    ensures 0 <= balOut * eps && 0 <= balOut * ONE && 0 <= total * ONE && 0 <= balIn * ONE
    ensures var least := if kept > balOut * eps then kept - balOut * eps else 0;
            Weighted(total * ONE, w, least, v) <= Weighted(balIn * ONE, w, balOut * ONE, v)
  {
    MulMono(0, eps, balOut);
    var low := if power > eps then power - eps else 0;
    var least := if kept > balOut * eps then kept - balOut * eps else 0;
    assert balOut * (power - eps) == balOut * power - balOut * eps;
    if power <= eps {
      MulMono(power, eps, balOut);
    }
    assert least <= balOut * low;
    Scale(ONE, low, base, ONE, w, v, total, balOut);
    WeightedIsMonotone(total * ONE, total * ONE, w, least, balOut * low, v);
    assert total * base == base * total;
    WeightedIsMonotone(total * base, balIn * ONE, w, balOut * ONE, balOut * ONE, v);
  }

  // The quote, for any weights. Where the power function is within eps of the exact power at the base it
  // is asked for, the weighted product of the balances does not fall, but for the rounding of the base
  // and eps of the output balance; and had the quote been one unit larger and that eps, it would not
  // have risen. A trade is answered up to three tenths of the input balance.
  lemma QuoteKeepsWeightedProduct(pow: Power, eps: nat, amountIn: int, p: Pool, inIdx: int, outIdx: int)
    requires Quotable(p, inIdx, outIdx) && 0 < amountIn && 10 * amountIn <= 3 * p.balances[inIdx]
    requires p.weights[outIdx] <= p.weights[inIdx] * ONE
    requires var base := BaseOf(amountIn, p, inIdx);
             IsPower(pow(base, TDiv(p.weights[inIdx] * ONE, p.weights[outIdx])), base,
                     p.weights[inIdx], p.weights[outIdx], eps)
    ensures var balIn, balOut, wIn, wOut := p.balances[inIdx], p.balances[outIdx], p.weights[inIdx], p.weights[outIdx];
            var total := balIn + TDiv(amountIn * (ONE - p.swapFee), ONE);
            var out := AmountOut(pow, amountIn, p, inIdx, outIdx);
            var least := (balOut - out - 1) * ONE - balOut * eps;
            && 0 <= total * ONE && 0 <= balIn * ONE - total && 0 <= balIn * ONE && 0 <= balOut * ONE
            && out <= balOut && 0 <= (balOut - out) * ONE + balOut * eps
            && Weighted(balIn * ONE - total, wIn, balOut * ONE, wOut)
               <= Weighted(total * ONE, wIn, (balOut - out) * ONE + balOut * eps, wOut)
            && Weighted(total * ONE, wIn, if least > 0 then least else 0, wOut)
               <= Weighted(balIn * ONE, wIn, balOut * ONE, wOut)
  {
    hide TDiv, Weighted, IsPower;
    var balIn, balOut, wIn, wOut := p.balances[inIdx], p.balances[outIdx], p.weights[inIdx], p.weights[outIdx];
    var total := balIn + TDiv(amountIn * (ONE - p.swapFee), ONE);
    TradeFits(balIn, amountIn);
    AfterFeeIsPart(amountIn, p.swapFee);
    RatioIsPart(balIn, amountIn, total - balIn);
    ExponentIsPositive(wIn, wOut);
    var base := TDiv(balIn * ONE, total);
    var power := pow(base, TDiv(wIn * ONE, wOut));
    PowerIsNonNegative(power, base, wIn, wOut, eps);
    var out := AmountOut(pow, amountIn, p, inIdx, outIdx);
    QuoteOfPower(balOut, power, out);
    QuoteIsCovered(pow, amountIn, p, inIdx, outIdx);
    assert balOut * (ONE - power) == balOut * ONE - balOut * power;
    assert base * total + total == (base + 1) * total;
    MulMono(0, eps, balOut);
    if power <= ONE {
      TakenIsCovered(balOut, power, out);
      KeepsProduct(balIn, total, base, power, balOut, (balOut - out) * ONE, eps, wIn, wOut);
    } else {
      WeightedIsMonotone(balIn * ONE - total, total * ONE, wIn, balOut * ONE, (balOut - out) * ONE + balOut * eps, wOut);
    }
    TakesNoMore(balIn, total, base, power, balOut, (balOut - out - 1) * ONE, eps, wIn, wOut);
  }

  lemma TradeFits(balIn: int, amountIn: int)
    requires 0 < balIn && 0 < amountIn
    ensures amountIn <= TDiv(balIn * MAX_IN_RATIO, ONE) <==> 10 * amountIn <= 3 * balIn
  {
  }

  lemma ExponentIsPositive(w: int, v: int)
    requires 0 < w && 0 < v && v <= w * ONE
    ensures 0 < TDiv(w * ONE, v)
  {
    TDivFloor(w * ONE, v);
    FloorGe(TDiv(w * ONE, v), w * ONE, v, 1);
  }

  lemma PowerIsNonNegative(power: int, base: int, w: nat, v: nat, eps: nat)
    requires IsPower(power, base, w, v, eps)
    ensures 0 <= power
  {
  }

  lemma TakenIsCovered(balOut: int, power: int, out: int)
    requires 0 < balOut && 0 <= power <= ONE && 0 <= out && (out == 0 || out * ONE <= balOut * (ONE - power))
    ensures balOut * power <= (balOut - out) * ONE
  {
    MulMono(power, ONE, balOut);
    assert balOut * (ONE - power) == balOut * ONE - balOut * power;
  }

  // Pools the program goes on with.
  predicate Usable(p: Pool, inIdx: int, outIdx: int) {
    && 0 <= inIdx && inIdx < |p.balances| && 0 <= outIdx && outIdx < |p.balances|
    && inIdx < |p.weights| && outIdx < |p.weights| && inIdx != outIdx
    && p.balances[inIdx] >= 1 && p.balances[outIdx] >= 1 && p.weights[inIdx] >= 1 && p.weights[outIdx] >= 1
    && 0 <= p.swapFee <= 999_999_999_999_999_999
  }

  // Trades the program turns down.
  lemma QuoteRefuses(pow: Power, amountIn: int, p: Pool, inIdx: int, outIdx: int)
    requires amountIn <= 0 || !Usable(p, inIdx, outIdx) || 10 * amountIn > 3 * p.balances[inIdx]
             || p.weights[inIdx] * ONE < p.weights[outIdx]
    ensures Usable(p, inIdx, outIdx) <==> Quotable(p, inIdx, outIdx)
    ensures AmountOut(pow, amountIn, p, inIdx, outIdx) == 0
  {
    if 0 < amountIn && Quotable(p, inIdx, outIdx) {
      TradeFits(p.balances[inIdx], amountIn);
      NoExponent(p.weights[inIdx], p.weights[outIdx]);
    }
  }

  lemma NoExponent(w: int, v: int)
    requires 0 < w && 0 < v
    ensures w * ONE < v ==> TDiv(w * ONE, v) == 0
  {
    TDivFloor(w * ONE, v);
    FloorGe(TDiv(w * ONE, v), w * ONE, v, 1);
  }

  // The first guess of the inverse, from the inverse power: before the fee it brings the weighted
  // product back for the output wanted, in the same sense; the fee is then divided out, and one added.
  lemma CandidateKeepsWeightedProduct(pow: Power, eps: nat, want: int, p: Pool, inIdx: int, outIdx: int) returns (paid: int)
    requires Quotable(p, inIdx, outIdx) && 0 < want && 10 * want <= 3 * p.balances[outIdx]
    requires p.weights[inIdx] <= p.weights[outIdx] * ONE
    requires var base := TDiv(p.balances[outIdx] * ONE, p.balances[outIdx] - want);
             IsPower(pow(base, TDiv(p.weights[outIdx] * ONE, p.weights[inIdx])), base,
                                  p.weights[outIdx], p.weights[inIdx], eps)
             && ONE <= pow(base, TDiv(p.weights[outIdx] * ONE, p.weights[inIdx]))
    ensures 0 <= paid && IsFloor(Candidate(pow, want, p, inIdx, outIdx) - 1, paid * ONE, ONE - p.swapFee)
    ensures var balIn, balOut, wIn, wOut := p.balances[inIdx], p.balances[outIdx], p.weights[inIdx], p.weights[outIdx];
            var left := balOut - want;
            var least := (balIn + paid) * ONE - balIn * eps;
            && 0 <= left * ONE && 0 <= balOut * ONE - left && 0 <= balIn * ONE && 0 <= balOut * ONE
            && 0 <= (balIn + paid + 1) * ONE + balIn * eps
            && Weighted(balOut * ONE - left, wOut, balIn * ONE, wIn)
               <= Weighted(left * ONE, wOut, (balIn + paid + 1) * ONE + balIn * eps, wIn)
            && Weighted(left * ONE, wOut, if least > 0 then least else 0, wIn)
               <= Weighted(balOut * ONE, wOut, balIn * ONE, wIn)
  {
    hide TDiv, Weighted, IsPower;
    var balIn, balOut, wIn, wOut := p.balances[inIdx], p.balances[outIdx], p.weights[inIdx], p.weights[outIdx];
    var left := balOut - want;
    OutputFits(balOut, want);
    ExponentIsPositive(wOut, wIn);
    var base := TDiv(balOut * ONE, left);
    BaseIsAboveOne(balOut, left);
    var power := pow(base, TDiv(wOut * ONE, wIn));
    paid := TDiv(balIn * (power - ONE), ONE);
    MulMono(0, power - ONE, balIn);
    TDivFloor(balIn * (power - ONE), ONE);
    TDivFloor(paid * ONE, ONE - p.swapFee);
    assert balIn * (power - ONE) == balIn * power - balIn * ONE;
    assert base * left + left == (base + 1) * left;
    MulMono(0, eps, balIn);
    KeepsProduct(balOut, left, base, power, balIn, (balIn + paid + 1) * ONE, eps, wOut, wIn);
    TakesNoMore(balOut, left, base, power, balIn, (balIn + paid) * ONE, eps, wOut, wIn);
  }

  lemma OutputFits(balOut: int, want: int)
    requires 0 < balOut && 0 < want
    ensures want <= TDiv(balOut * MAX_OUT_RATIO, ONE) <==> 10 * want <= 3 * balOut
  {
  }

  lemma BaseIsAboveOne(balOut: int, left: int)
    requires 0 < left <= balOut
    ensures ONE <= TDiv(balOut * ONE, left) && IsFloor(TDiv(balOut * ONE, left), balOut * ONE, left)
  {
    TDivFloor(balOut * ONE, left);
    MulMono(left, balOut, ONE);
    FloorGe(TDiv(balOut * ONE, left), balOut * ONE, left, ONE);
  }

  // Requests it turns down: no guess is made.
  lemma CandidateRefuses(pow: Power, want: int, p: Pool, inIdx: int, outIdx: int)
    requires want <= 0 || !Usable(p, inIdx, outIdx) || 10 * want > 3 * p.balances[outIdx]
             || p.weights[outIdx] * ONE < p.weights[inIdx]
             || pow(TDiv(p.balances[outIdx] * ONE, p.balances[outIdx] - want),
                    TDiv(p.weights[outIdx] * ONE, p.weights[inIdx])) < 1_000_000_000_000_000_000
    ensures Candidate(pow, want, p, inIdx, outIdx) == 0
  {
    if 0 < want && Quotable(p, inIdx, outIdx) {
      OutputFits(p.balances[outIdx], want);
      NoExponent(p.weights[outIdx], p.weights[inIdx]);
    }
  }
}
