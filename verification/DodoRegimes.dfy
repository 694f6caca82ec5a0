/** src/math/dodo.ts, getDodoGrossAmountOut: which balance, target and price a trade is solved at. */
module DodoRegimes {
  import opened IntMath
  import opened IntegerRoot
  import opened Dodo

  // What a trade of `amount` is paid at price i against the balance v1 with target v0, read as the
  // solution of the pool's equation instead of the way it is computed.
  ghost predicate Priced(gross: int, v0: int, v1: int, amount: int, i: int, k: int)
    requires 0 < v1
  {
    var one := 1_000_000_000_000_000_000;
    if k == 0 then
      IsFloor(gross, i * amount, one) || (gross == v1 && v1 * one <= i * amount)
    else if k == one then
      exists t :: 0 <= t && IsFloor(t, i * amount * v1, v0 * v0) && IsFloor(gross, v1 * t, t + one)
    else
      var b, m := BOf(v0, v1, amount, i, k), MOf(v0, k);
      if b.negative && m <= 2 * b.size then gross == 0
      else
        exists n, v2 :: Leaves(n, v2, b.Value(), m, k) && gross == if v2 > v1 then 0 else v1 - v2
  }

  // v2 is the balance left: twice (1 - k) times it solves the quadratic, rounded up.
  ghost predicate Leaves(n: int, v2: int, b: int, m: int, k: int) {
    Solves(n, b, m) && IsCeil(v2, n * 1_000_000_000_000_000_000, (1_000_000_000_000_000_000 - k) * 2)
  }

  lemma SolveIsPriced(v0: int, v1: int, amount: int, i: int, k: int)
    requires 0 < v0 && 0 < v1 && 0 < amount && 0 < i && 0 <= k <= ONE
    ensures Priced(Solve(v0, v1, amount, i, k), v0, v1, amount, i, k)
  {
    MulMono(1, i, amount);
    if k == 0 {
      TDivFloor(i * amount, ONE);
      FloorGe((i * amount) / ONE, i * amount, ONE, v1);
    } else if k == ONE {
      SteepIsPriced(v0, v1, amount, i);
    } else {
      hide BOf, MOf, RootOf, Solve, Solves, Saturated;
      SaturationNeedsNoRoot(v0, v1, amount, i, k);
      if Saturated(v0, v1, amount, i, k) {
        LargerTradePaysMore(v0, v1, amount, amount, i, k);
      } else {
        var n, v2 := SolveIsQuadratic(v0, v1, amount, i, k);
        assert Leaves(n, v2, BOf(v0, v1, amount, i, k).Value(), MOf(v0, k), k);
      }
    }
  }

  lemma SteepIsPriced(v0: int, v1: int, amount: int, i: int)
    requires 0 < v0 && 0 < v1 && 0 < amount && 0 < i
    ensures Priced(Solve(v0, v1, amount, i, ONE), v0, v1, amount, i, ONE)
  {
    MulMono(1, i, amount);
    MulMono(0, i * amount, v1);
    MulStrict(0, v0, v0);
    SteepValue(v0, v1, amount, i);
    hide Solve, SteepTemp;
    var t := SteepTemp(v0, v1, amount, i);
    TDivFloor(i * amount * v1, v0 * v0);
    MulMono(0, v1, t);
    TDivFloor(v1 * t, t + ONE);
    assert IsFloor(t, i * amount * v1, v0 * v0) && IsFloor(Solve(v0, v1, amount, i, ONE), v1 * t, t + ONE);
  }

  // Pools and trades that are quoted nothing from the start.
  predicate Tradable(p: Pool, amount: int) {
    && 0 < amount && 0 < p.i && 0 <= p.K <= 1_000_000_000_000_000_000
    && 0 < p.B && 0 < p.Q && 0 < p.B0 && 0 < p.Q0
  }

  lemma OthersAreQuotedNothing(p: Pool, amount: int, baseToQuote: bool)
    requires !Tradable(p, amount)
    ensures GrossOut(p, amount, baseToQuote) == 0
  {
  }

  // Selling base. With R at one, the trade is solved against the quote target; with R above one it
  // first buys the surplus of quote back at the price integral and goes on against the target; with R
  // below one it is solved against the quote reserve.
  lemma SellingBaseIsPriced(p: Pool, amount: int)
    requires Tradable(p, amount)
    ensures var gross := GrossOut(p, amount, true);
            && (p.rState == 0 ==> Priced(gross, p.Q0, p.Q0, amount, p.i, p.K))
            && (p.rState != 0 && p.rState != 1 ==> Priced(gross, p.Q0, p.Q, amount, p.i, p.K))
            && (p.rState == 1 ==>
                  var pay, receive := p.B0 - p.B, p.Q - p.Q0;
                  if pay < 0 || receive < 0 then gross == 0
                  else if amount < pay then IsIntegral(gross, receive, p.B0, p.B, amount, p.i, p.K)
                  else if amount == pay then gross == receive
                  else Priced(gross - receive, p.Q0, p.Q0, amount - pay, p.i, p.K))
  {
    hide Solve, GeneralIntegrate, Priced, IsIntegral;
    SolveIsPriced(p.Q0, p.Q0, amount, p.i, p.K);
    SolveIsPriced(p.Q0, p.Q, amount, p.i, p.K);
    var pay := p.B0 - p.B;
    if 0 <= pay < amount {
      SolveIsPriced(p.Q0, p.Q0, amount - pay, p.i, p.K);
    } else if amount < pay {
      IntegralIs(GeneralIntegrate(p.B0, p.B + amount, p.B, p.i, p.K), p.Q - p.Q0, p.B0, p.B, amount, p.i, p.K);
    }
  }

  // The exact price integral rounded down, up to what its roundings take, and at most the surplus.
  ghost predicate IsIntegral(gross: int, receive: int, x0: int, x: int, amount: int, i: int, k: int) {
    exists r ::
      && gross == (if r > receive then receive else r)
      && r * (ONE2 * Pair(x, amount)) <= ExactWorth(x0, x, amount, i, k)
      && ExactWorth(x0, x, amount, i, k) - Slack(x, amount, i, k) < (r + 1) * (ONE2 * Pair(x, amount))
  }

  lemma IntegralIs(r: int, receive: int, x0: int, x: int, amount: int, i: int, k: int)
    requires 0 < x <= x0 && 0 <= amount && 0 < i && 0 <= k <= ONE && r == GeneralIntegrate(x0, x + amount, x, i, k)
    ensures IsIntegral(if r > receive then receive else r, receive, x0, x, amount, i, k)
  {
    hide GeneralIntegrate, Pair, ExactWorth, Slack;
    WorthIsRoundedDown(x0, x, amount, i, k);
  }

  // The pool seen from the other token: reserves and targets change places, R turns over and the price
  // is the reciprocal, rounded down.
  function Mirror(p: Pool): Pool
    requires 0 < p.i
  {
    Pool(1_000_000_000_000_000_000_000_000_000_000_000_000 / p.i, p.K, p.Q, p.B, p.Q0, p.B0,
         if p.rState == 0 then 0 else if p.rState == 1 then 2 else 1, p.lpFeeRate, p.mtFeeRate)
  }

  // Selling quote is selling base in the mirrored pool.
  lemma SellingQuoteIsMirrored(p: Pool, amount: int)
    requires Tradable(p, amount)
    ensures GrossOut(p, amount, false) == GrossOut(Mirror(p), amount, true)
  {
    hide Solve, BackToOne;
  }
}
