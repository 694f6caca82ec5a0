/** src/math/sqrt_price_math.ts: Q64.96 prices, next prices and token deltas with directed rounding. */
module SqrtPriceMath {
  import opened IntMath
  import opened FullMath
  import opened Outcomes

  const Q96: int := 0x1_0000_0000_0000_0000_0000_0000

  function GetNextSqrtPriceFromAmount0RoundingUp(price: int, liquidity: int, amount: int, add: bool): Result<int> {
    if amount == 0 then Ok(price)
    else
      var numerator1 := liquidity * Q96;
      var product := amount * price;
      if add then
        var denominator := numerator1 + product;
        if denominator >= numerator1 then MulDivRoundingUp(numerator1, price, denominator)
        else if price == 0 then Err("division by zero")
        else DivRoundingUp(numerator1, TDiv(numerator1, price) + amount)
      else if numerator1 <= product then Err("SqrtPriceMath: denominator underflow")
      else MulDivRoundingUp(numerator1, price, numerator1 - product)
  }

  function GetNextSqrtPriceFromAmount1RoundingDown(price: int, liquidity: int, amount: int, add: bool): Result<int> {
    if add then
      var quotient :- MulDiv(amount, Q96, liquidity);
      Ok(price + quotient)
    else
      var quotient :- MulDivRoundingUp(amount, Q96, liquidity);
      if price <= quotient then Err("SqrtPriceMath: price underflow")
      else Ok(price - quotient)
  }

  function GetNextSqrtPriceFromInput(price: int, liquidity: int, amountIn: int, zeroForOne: bool): Result<int> {
    if price <= 0 then Err("SqrtPriceMath: sqrtPX96 must be > 0")
    else if liquidity <= 0 then Err("SqrtPriceMath: liquidity must be > 0")
    else if zeroForOne then GetNextSqrtPriceFromAmount0RoundingUp(price, liquidity, amountIn, true)
    else GetNextSqrtPriceFromAmount1RoundingDown(price, liquidity, amountIn, true)
  }

  function GetNextSqrtPriceFromOutput(price: int, liquidity: int, amountOut: int, zeroForOne: bool): Result<int> {
    if price <= 0 then Err("SqrtPriceMath: sqrtPX96 must be > 0")
    else if liquidity <= 0 then Err("SqrtPriceMath: liquidity must be > 0")
    else if zeroForOne then GetNextSqrtPriceFromAmount1RoundingDown(price, liquidity, amountOut, false)
    else GetNextSqrtPriceFromAmount0RoundingUp(price, liquidity, amountOut, false)
  }

  function GetAmount0Delta(ratioA: int, ratioB: int, liquidity: int, roundUp: bool): Result<int> {
    var (lo, hi) := if ratioA > ratioB then (ratioB, ratioA) else (ratioA, ratioB);
    var numerator1 := liquidity * Q96;
    var numerator2 := hi - lo;
    if lo <= 0 then Err("SqrtPriceMath: sqrtRatioAX96 must be > 0")
    else if roundUp then
      var scaled :- MulDivRoundingUp(numerator1, numerator2, hi);
      DivRoundingUp(scaled, lo)
    else
      var scaled :- MulDiv(numerator1, numerator2, hi);
      Ok(TDiv(scaled, lo))
  }

  function GetAmount1Delta(ratioA: int, ratioB: int, liquidity: int, roundUp: bool): Result<int> {
    var (lo, hi) := if ratioA > ratioB then (ratioB, ratioA) else (ratioA, ratioB);
    if roundUp then MulDivRoundingUp(liquidity, hi - lo, Q96)
    else MulDiv(liquidity, hi - lo, Q96)
  }

  // The token0 amount between two prices is L * 2^96 * (hi - lo) / (lo * hi), rounded once
  // although the code divides twice; the order of the two prices does not matter.
  lemma Amount0DeltaExact(a: int, b: int, liquidity: int)
    requires 0 < a <= b && 0 <= liquidity
    ensures GetAmount0Delta(a, b, liquidity, true) == GetAmount0Delta(b, a, liquidity, true)
    ensures GetAmount0Delta(a, b, liquidity, false) == GetAmount0Delta(b, a, liquidity, false)
    ensures GetAmount0Delta(a, b, liquidity, true).Ok? && GetAmount0Delta(a, b, liquidity, false).Ok?
    ensures IsCeil(GetAmount0Delta(a, b, liquidity, true).value, liquidity * Q96 * (b - a), a * b)
    ensures IsFloor(GetAmount0Delta(a, b, liquidity, false).value, liquidity * Q96 * (b - a), a * b)
    ensures 0 <= GetAmount0Delta(a, b, liquidity, false).value
  {
    var n := liquidity * Q96;
    MulDivRoundsUp(n, b - a, b);
    var up := MulDivRoundingUp(n, b - a, b).value;
    DivRoundingUpIsCeil(up, a);
    CeilNest(n * (b - a), b, a, up, DivRoundingUp(up, a).value);
    MulDivRoundsDown(n, b - a, b);
    var down := MulDiv(n, b - a, b).value;
    TDivFloor(down, a);
    FloorNest(n * (b - a), b, a, down, TDiv(down, a));
  }

  // The token1 amount between two prices is L * (hi - lo) / 2^96, rounded as asked.
  lemma Amount1DeltaExact(a: int, b: int, liquidity: int)
    requires a <= b && 0 <= liquidity
    ensures GetAmount1Delta(a, b, liquidity, true) == GetAmount1Delta(b, a, liquidity, true)
    ensures GetAmount1Delta(a, b, liquidity, false) == GetAmount1Delta(b, a, liquidity, false)
    ensures GetAmount1Delta(a, b, liquidity, true).Ok? && GetAmount1Delta(a, b, liquidity, false).Ok?
    ensures IsCeil(GetAmount1Delta(a, b, liquidity, true).value, liquidity * (b - a), Q96)
    ensures IsFloor(GetAmount1Delta(a, b, liquidity, false).value, liquidity * (b - a), Q96)
    ensures 0 <= GetAmount1Delta(a, b, liquidity, false).value
  {
    MulDivRoundsUp(liquidity, b - a, Q96);
    MulDivRoundsDown(liquidity, b - a, Q96);
  }

  // Adding token0: the next price is the least p with p * (L*2^96 + amount*price) >= L*2^96*price.
  // The overflow fallback of the Solidity original is never taken.
  lemma NextPriceAdding0(price: int, liquidity: int, amount: int)
    requires 0 < price && 0 < liquidity && 0 <= amount
    ensures var r := GetNextSqrtPriceFromInput(price, liquidity, amount, true);
            r.Ok? && IsCeil(r.value, liquidity * Q96 * price, liquidity * Q96 + amount * price)
  {
    var n := liquidity * Q96;
    MulMono(0, amount, price);
    if amount != 0 {
      MulDivRoundsUp(n, price, n + amount * price);
    } else {
      assert (price - 1) * n == price * n - n;
    }
  }

  // Removing token0: underflow is thrown exactly when the amount is not below the virtual reserve.
  lemma NextPriceRemoving0(price: int, liquidity: int, amount: int)
    requires 0 < price && 0 < liquidity && 0 < amount
    ensures var r := GetNextSqrtPriceFromOutput(price, liquidity, amount, false);
            && (r.Ok? <==> amount * price < liquidity * Q96)
            && (r.Ok? ==> IsCeil(r.value, liquidity * Q96 * price, liquidity * Q96 - amount * price))
  {
  }

  // Adding token1: the price rises by amount * 2^96 / L rounded down.
  lemma NextPriceAdding1(price: int, liquidity: int, amount: int)
    requires 0 < price && 0 < liquidity && 0 <= amount
    ensures var r := GetNextSqrtPriceFromInput(price, liquidity, amount, false);
            r.Ok? && IsFloor(r.value - price, amount * Q96, liquidity) && price <= r.value
  {
  }

  // Removing token1: the price falls by amount * 2^96 / L rounded up, and stays positive or throws.
  lemma NextPriceRemoving1(price: int, liquidity: int, amount: int)
    requires 0 < price && 0 < liquidity && 0 <= amount
    ensures var r := GetNextSqrtPriceFromOutput(price, liquidity, amount, true);
            && (r.Ok? <==> amount * Q96 <= (price - 1) * liquidity)
            && (r.Ok? ==> IsCeil(price - r.value, amount * Q96, liquidity) && 0 < r.value <= price)
  {
    MulDivRoundsUp(amount, Q96, liquidity);
    CeilLe(MulDivRoundingUp(amount, Q96, liquidity).value, amount * Q96, liquidity, price - 1);
  }

  // A price or a liquidity that is not positive is refused, and so is a delta from a price that is not.
  lemma RefusesNonPositive(price: int, liquidity: int, amount: int, zeroForOne: bool)
    requires price <= 0 || liquidity <= 0
    ensures GetNextSqrtPriceFromInput(price, liquidity, amount, zeroForOne).Err?
    ensures GetNextSqrtPriceFromOutput(price, liquidity, amount, zeroForOne).Err?
    ensures forall other, roundUp :: price <= 0 ==> GetAmount0Delta(price, other, liquidity, roundUp).Err?
  {
  }
}
