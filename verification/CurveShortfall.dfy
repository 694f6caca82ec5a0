/** src/math/curve.ts: a pool on which the inverse quote ends on an amount that does not pay enough. */
module CurveShortfall {
  import opened IntMath
  import opened Outcomes
  import opened CurveNewton
  import opened Curve
  import opened CurveSearch

  const E18: int := 1_000_000_000_000_000_000
  const E24: int := 1_000_000_000_000_000_000_000_000
  const D: int := 2 * E24

  // Coin 0 has six decimals fewer in its balance and eighteen more in its rate: both scaled balances are
  // 10^24, and one unit of coin 0 is worth 10^18 of coin 1.
  function Coarse(): Pool {
    Pool([1_000_000, E24], [E18 * E18, E18], 4_000_000, 10_000)
  }

  lemma CoarseIsBalanced()
    ensures Quotable(Coarse(), 0, 1) && ToXp(Coarse().balances, Coarse().rates) == [E24, E24]
    ensures Invariant([E24, E24], Coarse().A) == Ok(D)
  {
    hide Invariant;
    var p := Coarse();
    assert ToXp(p.balances, p.rates) == [E24, E24];
    BalancedPool([E24, E24], p.A, E24);
  }

  // The quadratic of a trade of a units.
  lemma TradeOfUnits(a: int)
    requires 0 < a && Quotable(Coarse(), 0, 1)
    ensures var tr := TradeOf(a, Coarse(), 0, 1);
            && tr == Trade(E24 + a * E18, 0, 1, [E24, E24])
            && tr.T(Coarse().A, D) == 99 * (E24 / 100) - a * E18
            && tr.Constant(Coarse().A, D) == TDiv(TDiv(D * D, (E24 + a * E18) * 2) * D * A_PRECISION, 40_000)
  {
    hide TDiv;
    var p := Coarse();
    assert ToXp(p.balances, p.rates) == [E24, E24] by { CoarseIsBalanced(); }
    assert a * (E18 * E18) == (a * E18) * E18;
    ExactQuotient(a * E18, E18);
    var tr := TradeOf(a, p, 0, 1);
    ExactQuotient(E24 / 100, 20_000);
    assert tr.S(2) == tr.S(1) == tr.S(0) + tr.Coin(0);
    assert tr.C(D, 2) == tr.C(D, 1) == TDiv(tr.C(D, 0) * D, tr.Coin(0) * 2);
  }

  // Every trade's loop starts below 2^254.
  lemma StartIsSmall(a: int)
    requires 0 < a && Quotable(Coarse(), 0, 1)
    ensures var tr := TradeOf(a, Coarse(), 0, 1);
            var t, c := tr.T(Coarse().A, D), tr.Constant(Coarse().A, D);
            Fit(D, t, c) && D < Pow2(254) && Next(D, t, c) < Pow2(254)
  {
    hide TDiv, Next, Trade.T, Trade.Constant, Pow2, TradeOf;
    TradeOfUnits(a);
    var tr := TradeOf(a, Coarse(), 0, 1);
    var t, c := tr.T(Coarse().A, D), tr.Constant(Coarse().A, D);
    StartFits(tr, Coarse().A, D);
    var c1 := TDiv(D * D, (E24 + a * E18) * 2);
    TDivShrinks(D * D, 1, D * D, (E24 + a * E18) * 2);
    Whole(D * D);
    MulMono(0, c1, D * A_PRECISION);
    MulMono(c1, D * D, D * A_PRECISION);
    TDivShrinks(c1 * D * A_PRECISION, 1, c1 * D * A_PRECISION, 40_000);
    Whole(c1 * D * A_PRECISION);
    NextIsSmall(D, t, c);
    BigPower();
  }

  lemma Whole(a: int)
    requires 0 <= a
    ensures TDiv(a, 1) == a
  {
  }

  lemma NextIsSmall(y: int, t: int, c: int)
    requires Fit(y, t, c)
    ensures Next(y, t, c) <= y * y + c
  {
    hide Next;
    NextIsFloor(y, t, c);
    MulMono(1, 2 * y - t, Next(y, t, c));
  }

  lemma BigPower()
    ensures 1_000 * D * D * D < Pow2(254)
  {
    hide Pow2;
    SixtyFour();
    assert Pow2(2) == 4 by { SmallPowers(); }
    Squared(64, 18_446_744_073_709_551_616);
    PowersAdd(128, 128);
    PowersAdd(254, 2);
  }

  lemma SmallPowers()
    ensures Pow2(2) == 4 && Pow2(8) == 256
  {
    Squared(2, 4);
    Squared(4, 16);
  }

  lemma Squared(n: nat, p: int)
    requires Pow2(n) == p
    ensures Pow2(n + n) == p * p
  {
    PowersAdd(n, n);
  }

  lemma {:induction false} PowersAdd(m: nat, n: nat)
    ensures Pow2(m + n) == Pow2(m) * Pow2(n)
  {
    if m > 0 {
      PowersAdd(m - 1, n);
    }
  }

  // One unit lowers the output balance by at most 1.1 * 10^18, two units by at least 1.95 * 10^18.
  lemma OneUnit()
    requires Quotable(Coarse(), 0, 1)
    ensures Drop(1, Coarse(), 0, 1, D) <= 11 * (E18 / 10)
  {
    hide TradeOf, Trade.T, Trade.Constant, Next, Descend, F, Fit;
    TradeOfUnits(1);
    var tr := TradeOf(1, Coarse(), 0, 1);
    var t, c := tr.T(Coarse().A, D), tr.Constant(Coarse().A, D);
    StartFits(tr, Coarse().A, D);
    DescendStaysAbove(D, t, c, MAX_ITERATIONS);
    var y := E24 - 11 * (E18 / 10);
    assert F(y, t, c) <= 0 by { OneUnitShort(); }
    AtLeast(OutputBalance(tr, Coarse().A, D), y, t, c);
  }

  lemma OneUnitShort()
    ensures F(E24 - 11 * (E18 / 10), 99 * (E24 / 100) - E18,
              TDiv(TDiv(D * D, (E24 + E18) * 2) * D * A_PRECISION, 40_000)) <= 0
  {
  }

  lemma AtLeast(r: int, y: int, t: int, c: int)
    requires 0 <= r && t <= r && 0 < F(r + 1, t, c) && F(y, t, c) <= 0
    ensures y <= r
  {
    hide F;
    if r < y {
      FIncreases(r + 1, y, t, c);
    }
  }

  lemma TwoUnits()
    requires Quotable(Coarse(), 0, 1)
    ensures 195 * (E18 / 100) < Drop(2, Coarse(), 0, 1, D)
  {
    hide TradeOf, Trade.T, Trade.Constant, Next, Descend, F, Fit, Pow2;
    TradeOfUnits(2);
    StartIsSmall(2);
    var tr := TradeOf(2, Coarse(), 0, 1);
    var t, c := tr.T(Coarse().A, D), tr.Constant(Coarse().A, D);
    SettlesFrom(D, t, c);
    DescendStaysAbove(D, t, c, MAX_ITERATIONS);
    var y := E24 - 195 * (E18 / 100) - 2;
    assert 1 < F(y, t, c) by { TwoUnitsOver(); }
    var r := OutputBalance(tr, Coarse().A, D);
    if y <= r {
      FIncreases(y, r, t, c);
    }
  }

  lemma TwoUnitsOver()
    ensures 1 < F(E24 - 195 * (E18 / 100) - 2, 99 * (E24 / 100) - 2 * E18,
                  TDiv(TDiv(D * D, (E24 + 2 * E18) * 2) * D * A_PRECISION, 40_000))
  {
  }

  const WANT: int := 19 * (E18 / 10)

  lemma QuoteIsPayout(a: int)
    requires 0 < a
    ensures Quotable(Coarse(), 0, 1)
    ensures AmountOut(a, Coarse(), 0, 1) == Ok(Payout(Drop(a, Coarse(), 0, 1, D), Coarse().fee, E18))
  {
    hide Drop, Payout, Invariant;
    CoarseIsBalanced();
  }

  // One unit is not enough, every larger amount is.
  lemma OnePaysTooLittle()
    ensures QuoteOf(Coarse(), 0, 1)(1) < WANT
  {
    hide Drop, Quotable, Payout;
    QuoteIsPayout(1);
    OneUnit();
    PayoutIsMonotone(Drop(1, Coarse(), 0, 1, D), 11 * (E18 / 10), Coarse().fee, E18);
    assert Payout(11 * (E18 / 10), Coarse().fee, E18) < WANT by { PayoutOfOne(); }
  }

  lemma PayoutOfOne()
    ensures Payout(11 * (E18 / 10), 4_000_000, E18) < WANT
  {
  }

  lemma PayoutOfTwo()
    ensures WANT <= Payout(195 * (E18 / 100), 4_000_000, E18)
  {
  }

  lemma TwoPayEnough(a: int)
    requires 2 <= a
    ensures AmountOut(a, Coarse(), 0, 1).Ok? && WANT <= QuoteOf(Coarse(), 0, 1)(a)
  {
    hide Drop, Quotable, Payout, Invariant, Pow2, Next, TradeOf, Trade.T, Trade.Constant;
    QuoteIsPayout(a);
    CoarseIsBalanced();
    StartIsSmall(a);
    LargerTradePaysNoLess(2, a, Coarse(), 0, 1, D);
    TwoUnits();
    PayoutIsMonotone(195 * (E18 / 100), Drop(2, Coarse(), 0, 1, D) - 1, Coarse().fee, E18);
    PayoutOfTwo();
  }

  // The search doubles nothing, halves an interval of more than 2^64 and is left with its lower bound:
  // the inverse quote asks for one unit, and one unit is paid too little.
  lemma InverseQuoteFallsShort()
    ensures AmountIn(WANT, Coarse(), 0, 1) == Ok(1)
    ensures AmountOut(1, Coarse(), 0, 1).Ok? && AmountOut(1, Coarse(), 0, 1).value < WANT
  {
    hide AmountOut, Pow2, Quotable, Bisect, Raise;
    var quote := QuoteOf(Coarse(), 0, 1);
    QuoteIsPayout(1);
    OnePaysTooLittle();
    AsksAsQuotable(Coarse(), 0, 1);
    TwoPayEnough(WANT * 10);
    RaiseAtOnce(quote, WANT, EXPANSIONS);
    forall x | 1 < x <= WANT * 10
      ensures quote(x) >= WANT
    {
      TwoPayEnough(x);
    }
    assert 1 + Pow2(BISECTIONS) <= WANT * 10 by { SixtyFour(); }
    BisectFallsShort(quote, WANT, 1, WANT * 10, BISECTIONS);
  }

  lemma SixtyFour()
    ensures Pow2(64) == 18_446_744_073_709_551_616
  {
    hide Pow2;
    assert Pow2(8) == 256 by { SmallPowers(); }
    Squared(8, 256);
    Squared(16, 256 * 256);
    Squared(32, 4_294_967_296);
  }
}
