/** src/math/uniswap_v2.ts: constant-product quotes, forward and inverse. */
module UniswapV2 {
  import opened IntMath
  import opened Outcomes

  predicate Quotable(reserveIn: int, reserveOut: int, feeNumerator: int, feeDenominator: int) {
    0 < reserveIn && 0 < reserveOut && 0 < feeNumerator < feeDenominator
  }

  // What the input reserve counts for after a deposit, in units of 1 / feeDenominator.
  function Deposited(amountIn: int, reserveIn: int, feeNumerator: int, feeDenominator: int): int {
    reserveIn * feeDenominator + amountIn * feeNumerator
  }

  lemma DepositedIsPositive(amountIn: int, reserveIn: int, feeNumerator: int, feeDenominator: int)
    requires 0 <= amountIn && 0 < reserveIn && 0 < feeNumerator < feeDenominator
    ensures 0 < Deposited(amountIn, reserveIn, feeNumerator, feeDenominator)
  {
  }

  function AmountOut(amountIn: int, reserveIn: int, reserveOut: int, feeNumerator: int, feeDenominator: int): int {
    if amountIn <= 0 || !Quotable(reserveIn, reserveOut, feeNumerator, feeDenominator) then 0
    else
      DepositedIsPositive(amountIn, reserveIn, feeNumerator, feeDenominator);
      TDiv(amountIn * feeNumerator * reserveOut, Deposited(amountIn, reserveIn, feeNumerator, feeDenominator))
  }

  function AmountIn(amountOut: int, reserveIn: int, reserveOut: int, feeNumerator: int, feeDenominator: int): Result<int> {
    if amountOut <= 0 || !Quotable(reserveIn, reserveOut, feeNumerator, feeDenominator) then Ok(0)
    else if amountOut >= reserveOut then Err("V2Math: insufficient liquidity for desired output")
    else
      MulMono(1, reserveOut - amountOut, feeNumerator);
      Ok(TDiv(reserveIn * amountOut * feeDenominator, (reserveOut - amountOut) * feeNumerator) + 1)
  }

  // A deposit pays at least x if and only if it covers x at the post-trade price.
  lemma PaysAtLeast(a: int, x: int, reserveIn: int, reserveOut: int, n: int, d: int)
    requires 0 < a && 0 < x && Quotable(reserveIn, reserveOut, n, d)
    ensures x <= AmountOut(a, reserveIn, reserveOut, n, d)
            <==> reserveIn * x * d <= a * ((reserveOut - x) * n)
  {
    var denominator := Deposited(a, reserveIn, n, d);
    DepositedIsPositive(a, reserveIn, n, d);
    MulMono(1, a, n);
    MulMono(0, a * n, reserveOut);
    TDivFloor(a * n * reserveOut, denominator);
    FloorGe(TDiv(a * n * reserveOut, denominator), a * n * reserveOut, denominator, x);
    Crossed(a, x, reserveIn, reserveOut, n, d);
  }

  lemma Crossed(a: int, x: int, reserveIn: int, reserveOut: int, n: int, d: int)
    ensures x * Deposited(a, reserveIn, n, d) - a * n * reserveOut
         == reserveIn * x * d - a * ((reserveOut - x) * n)
  {
  }

  // The inverse quote is sufficient, two less is not, and one less suffices exactly when the division
  // in it leaves no remainder.
  lemma InverseIsTight(x: int, reserveIn: int, reserveOut: int, n: int, d: int)
    requires Quotable(reserveIn, reserveOut, n, d) && 0 < x < reserveOut
    ensures var i := AmountIn(x, reserveIn, reserveOut, n, d);
            && i.Ok?
            && x <= AmountOut(i.value, reserveIn, reserveOut, n, d)
            && AmountOut(i.value - 2, reserveIn, reserveOut, n, d) < x
            && 0 < (reserveOut - x) * n
            && (x <= AmountOut(i.value - 1, reserveIn, reserveOut, n, d)
                <==> (reserveIn * x * d) % ((reserveOut - x) * n) == 0)
  {
    hide AmountOut, AmountIn, TDiv, Deposited;
    var num, den := reserveIn * x * d, (reserveOut - x) * n;
    MulMono(1, reserveOut - x, n);
    MulMono(1, reserveIn, x);
    MulMono(1, reserveIn * x, d);
    TDivFloor(num, den);
    var q := TDiv(num, den);
    InverseValue(x, reserveIn, reserveOut, n, d, q);
    PaysAtLeast(q + 1, x, reserveIn, reserveOut, n, d);
    if q > 0 {
      PaysAtLeast(q, x, reserveIn, reserveOut, n, d);
    } else {
      NothingForNothing(0, reserveIn, reserveOut, n, d);
    }
    ExactDivision(num, den, q);
    if q > 1 {
      PaysAtLeast(q - 1, x, reserveIn, reserveOut, n, d);
      assert (q - 1) * den == q * den - den;
    } else {
      NothingForNothing(q - 1, reserveIn, reserveOut, n, d);
    }
  }

  lemma InverseValue(x: int, reserveIn: int, reserveOut: int, n: int, d: int, q: int)
    requires Quotable(reserveIn, reserveOut, n, d) && 0 < x < reserveOut && 0 < (reserveOut - x) * n
    requires q == TDiv(reserveIn * x * d, (reserveOut - x) * n)
    ensures AmountIn(x, reserveIn, reserveOut, n, d) == Ok(q + 1)
  {
  }

  lemma ExactDivision(num: int, den: int, q: int)
    requires 0 < num && 0 < den && IsFloor(q, num, den)
    ensures num % den == 0 <==> 0 < q && num <= q * den
  {
    TDivFloor(num, den);
    FloorUnique(q, num / den, num, den);
    assert num == (num / den) * den + num % den;
    if num % den == 0 && q <= 0 {
      MulMono(q, 0, den);
    }
  }

  lemma NothingForNothing(a: int, reserveIn: int, reserveOut: int, n: int, d: int)
    requires a <= 0
    ensures AmountOut(a, reserveIn, reserveOut, n, d) == 0
  {
  }

  // What is quoted nothing either way, and what the inverse throws on.
  lemma RefusesExactly(x: int, reserveIn: int, reserveOut: int, n: int, d: int)
    ensures var usable := 0 < reserveIn && 0 < reserveOut && 0 < n && n < d;
            && (usable <==> Quotable(reserveIn, reserveOut, n, d))
            && (x <= 0 || !usable ==>
                  AmountOut(x, reserveIn, reserveOut, n, d) == 0 && AmountIn(x, reserveIn, reserveOut, n, d) == Ok(0))
            && (AmountIn(x, reserveIn, reserveOut, n, d).Err? <==> 0 < x && usable && reserveOut <= x)
  {
  }

  // The payout is the greatest that keeps the product of the reserves, the fee left out of the deposit;
  // it is less than the reserve, and with the whole deposit counted the product never drops.
  lemma PayoutKeepsProduct(a: int, reserveIn: int, reserveOut: int, n: int, d: int)
    requires 0 < a && Quotable(reserveIn, reserveOut, n, d)
    ensures var x, deposited := AmountOut(a, reserveIn, reserveOut, n, d), Deposited(a, reserveIn, n, d);
            && 0 <= x < reserveOut
            && deposited * (reserveOut - x - 1) < reserveIn * d * reserveOut <= deposited * (reserveOut - x)
            && reserveIn * reserveOut <= (reserveIn + a) * (reserveOut - x)
  {
    hide Deposited, TDiv;
    var deposited := Deposited(a, reserveIn, n, d);
    DepositedIsPositive(a, reserveIn, n, d);
    DepositedIs(a, reserveIn, reserveOut, n, d);
    MulMono(1, a, n);
    MulMono(0, a * n, reserveOut);
    TDivFloor(a * n * reserveOut, deposited);
    FloorOfShare(a * n * reserveOut, deposited, reserveOut, AmountOut(a, reserveIn, reserveOut, n, d));
    WholeDeposit(a, reserveIn, reserveOut, n, d, AmountOut(a, reserveIn, reserveOut, n, d));
  }

  lemma DepositedIs(a: int, reserveIn: int, reserveOut: int, n: int, d: int)
    requires 0 < a && Quotable(reserveIn, reserveOut, n, d)
    ensures Deposited(a, reserveIn, n, d) * reserveOut == reserveIn * d * reserveOut + a * n * reserveOut
    ensures 0 < reserveIn * d * reserveOut
  {
  }

  lemma FloorOfShare(part: int, deposited: int, reserveOut: int, x: int)
    requires 0 < deposited && IsFloor(x, part, deposited) && part < deposited * reserveOut
    ensures x < reserveOut
    ensures deposited * (reserveOut - x - 1) < deposited * reserveOut - part <= deposited * (reserveOut - x)
  {
  }

  lemma WholeDeposit(a: int, reserveIn: int, reserveOut: int, n: int, d: int, x: int)
    requires 0 < a && Quotable(reserveIn, reserveOut, n, d) && x < reserveOut
    requires reserveIn * d * reserveOut <= Deposited(a, reserveIn, n, d) * (reserveOut - x)
    ensures reserveIn * reserveOut <= (reserveIn + a) * (reserveOut - x)
  {
  }
}
