/** src/math/curve.ts, getCurveAmountOut: what a quote is in terms of the pool. */
module CurveQuote {
  import opened IntMath
  import opened Outcomes
  import opened CurveNewton
  import opened Curve

  // The fee is charged on the drop of the scaled balance and rounded down; what is left is scaled back
  // and rounded down.
  lemma PayoutTakesFee(dy: int, fee: int, rate: int) returns (after: int)
    requires 0 <= fee < 10_000_000_000 && 0 < rate
    ensures dy <= 0 ==> Payout(dy, fee, rate) == 0
    ensures 0 < dy ==>
              && IsCeil(after, dy * (10_000_000_000 - fee), 10_000_000_000)
              && IsFloor(Payout(dy, fee, rate), after * 1_000_000_000_000_000_000, rate)
  {
    after := 0;
    if 0 < dy {
      MulMono(0, dy, fee);
      TDivFloor(dy * fee, 10_000_000_000);
      after := dy - TDiv(dy * fee, 10_000_000_000);
      assert dy * (10_000_000_000 - fee) == dy * 10_000_000_000 - dy * fee;
      MulMono(1, 10_000_000_000 - fee, dy);
      assert 0 < after;
      TDivFloor(after * 1_000_000_000_000_000_000, rate);
    }
  }

  // The scaled balances, and the coin that comes in after the trade.
  lemma TradeIsThePools(amountIn: int, pool: Pool, i: int, j: int)
    requires Quotable(pool, i, j) && 0 < amountIn
    ensures var tr := TradeOf(amountIn, pool, i, j);
            && tr.i == i && tr.j == j && |tr.xp| == |pool.balances|
            && IsFloor(tr.x - tr.xp[i], amountIn * pool.rates[i], 1_000_000_000_000_000_000)
            && forall k :: 0 <= k < |tr.xp| ==>
                 IsFloor(tr.xp[k], pool.balances[k] * pool.rates[k], 1_000_000_000_000_000_000)
  {
    MulMono(0, amountIn, pool.rates[i]);
    TDivFloor(amountIn * pool.rates[i], PRECISION);
    var tr := TradeOf(amountIn, pool, i, j);
    forall k | 0 <= k < |tr.xp|
      ensures IsFloor(tr.xp[k], pool.balances[k] * pool.rates[k], 1_000_000_000_000_000_000)
    {
      MulMono(0, pool.balances[k], pool.rates[k]);
      TDivFloor(pool.balances[k] * pool.rates[k], PRECISION);
    }
  }

  // A quote: the output coin's scaled balance drops to the balance getY finds and one unit more, and the
  // drop is paid less the fee.
  lemma QuoteIsTheDrop(amountIn: int, pool: Pool, i: int, j: int, d: int) returns (after: int)
    requires Quotable(pool, i, j) && 0 < amountIn && 0 < d
    requires Invariant(ToXp(pool.balances, pool.rates), pool.A) == Ok(d)
    ensures var tr := TradeOf(amountIn, pool, i, j);
            var quote, drop := AmountOut(amountIn, pool, i, j), tr.xp[j] - OutputBalance(tr, pool.A, d) - 1;
            && quote.Ok? && (drop <= 0 ==> quote.value == 0)
            && (0 < drop ==>
                  && IsCeil(after, drop * (10_000_000_000 - pool.fee), 10_000_000_000)
                  && IsFloor(quote.value, after * 1_000_000_000_000_000_000, pool.rates[j]))
  {
    hide Payout, OutputBalance, Invariant;
    var tr := TradeOf(amountIn, pool, i, j);
    after := PayoutTakesFee(tr.xp[j] - OutputBalance(tr, pool.A, d) - 1, pool.fee, pool.rates[j]);
  }

  // What is quoted nothing without looking at the invariant.
  lemma QuoteRefuses(amountIn: int, pool: Pool, i: int, j: int)
    ensures var n := |pool.balances|;
            var usable := && 0 <= pool.fee < 10_000_000_000 && 0 < pool.A && 2 <= n && n == |pool.rates|
                          && 0 <= i < n && 0 <= j < n && i != j
                          && (forall k :: 0 <= k < n ==>
                                0 < pool.balances[k] && 0 < pool.rates[k]
                                && 1_000_000_000_000_000_000 <= pool.balances[k] * pool.rates[k]);
            && (usable <==> Quotable(pool, i, j))
            && (amountIn <= 0 || !usable ==> AmountOut(amountIn, pool, i, j) == Ok(0))
  {
    var n := |pool.balances|;
    if n == |pool.rates| {
      forall k | 0 <= k < n && 0 < pool.balances[k] && 0 < pool.rates[k]
        ensures 0 < ToXp(pool.balances, pool.rates)[k] <==>
                  1_000_000_000_000_000_000 <= pool.balances[k] * pool.rates[k]
      {
        MulMono(0, pool.balances[k], pool.rates[k]);
        TDivFloor(pool.balances[k] * pool.rates[k], PRECISION);
        FloorGe(TDiv(pool.balances[k] * pool.rates[k], PRECISION), pool.balances[k] * pool.rates[k], PRECISION, 1);
      }
    }
  }

  // --- The quadratic ---

  // What the roundings of C take, in units of the product of the denominators.
  function Lost(tr: Trade, d: nat, k: nat): nat
    requires tr.Valid() && k <= |tr.xp|
  {
    if k == 0 then 0
    else if k - 1 == tr.j then Lost(tr, d, k - 1)
    else
      ProductIsPositive(tr, k);
      MulMono(0, Lost(tr, d, k - 1), d);
      Lost(tr, d, k - 1) * d + Product(tr, k)
  }

  lemma {:induction false} ProductIsPositive(tr: Trade, k: nat)
    requires tr.Valid() && k <= |tr.xp|
    ensures 0 < Product(tr, k)
  {
    if k > 0 {
      ProductIsPositive(tr, k - 1);
      if k - 1 != tr.j {
        MulMono(1, tr.Coin(k - 1), |tr.xp|);
        MulMono(1, tr.Coin(k - 1) * |tr.xp|, Product(tr, k - 1));
      }
    }
  }

  // From below: C is at least D to the number of coins over that product, less what the roundings take.
  lemma {:induction false} CLosesLittle(tr: Trade, d: nat, k: nat)
    requires tr.Valid() && 0 < d && k <= |tr.xp|
    ensures PowerOfD(tr, d, k) <= tr.C(d, k) * Product(tr, k) + Lost(tr, d, k)
  {
    hide TDiv, Trade.C;
    if k == 0 {
      CStarts(tr, d);
    } else {
      CLosesLittle(tr, d, k - 1);
      CNonNegative(tr, d, k - 1);
      CAdvances(tr, d, k);
      if k - 1 != tr.j {
        ProductIsPositive(tr, k - 1);
        MulMono(1, tr.Coin(k - 1), |tr.xp|);
        LossStep(tr.C(d, k - 1), d, tr.Coin(k - 1) * |tr.xp|, Product(tr, k - 1), PowerOfD(tr, d, k - 1),
                 Lost(tr, d, k - 1), tr.C(d, k));
      }
    }
  }

  lemma LossStep(c: int, d: int, x: int, p: int, e: int, lost: int, next: int)
    requires 0 < d && 0 < x && 0 < p && e <= c * p + lost && IsFloor(next, c * d, x)
    ensures e * d <= next * (x * p) + (lost * d + x * p)
  {
    MulMono(c * d, (next + 1) * x, p);
    MulMono(e, c * p + lost, d);
    assert (next + 1) * x * p == next * (x * p) + x * p && c * d * p == c * p * d;
    Distribute(c * p, lost, d);
  }

  // The two coefficients of the quadratic getY solves, y * y - T * y = Constant: D less the other
  // balances and less 100 D / (A n) rounded down, and 100 C D / (A n n) rounded down.
  lemma CoefficientsAreThePools(tr: Trade, A: int, d: int)
    requires tr.Valid() && 0 < A && 0 < d
    ensures var n := |tr.xp|;
            && IsFloor(d - tr.S(n) - tr.T(A, d), d * 100, A * n)
            && IsFloor(tr.Constant(A, d), tr.C(d, n) * d * 100, A * n * n)
            && tr.S(n) == Sum(tr.xp) + tr.x - tr.xp[tr.i] - tr.xp[tr.j]
  {
    hide TDiv, Trade.S, Trade.C, Sum;
    var n := |tr.xp|;
    MulMono(1, A, n);
    MulMono(1, A * n, n);
    CNonNegative(tr, d, n);
    MulMono(0, tr.C(d, n), d);
    TDivFloor(d * A_PRECISION, A * n);
    TDivFloor(tr.C(d, n) * d * A_PRECISION, A * n * n);
    SumOfOthers(tr, n);
    assert tr.xp[..n] == tr.xp;
  }
}
