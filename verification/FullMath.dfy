/** src/math/full_math.ts: product-then-divide with both roundings. */
module FullMath {
  import opened IntMath
  import opened Outcomes

  function MulDiv(a: int, b: int, denominator: int): Result<int> {
    if denominator == 0 then Err("mulDiv: denominator is zero")
    else Ok(TDiv(a * b, denominator))
  }

  function MulDivRoundingUp(a: int, b: int, denominator: int): Result<int> {
    if denominator == 0 then Err("mulDivRoundingUp: denominator is zero")
    else
      var product := a * b;
      var result := TDiv(product, denominator);
      Ok(if TRem(product, denominator) > 0 then result + 1 else result)
  }

  function DivRoundingUp(a: int, b: int): Result<int> {
    if b == 0 then Err("divRoundingUp: divisor is zero")
    else
      var result := TDiv(a, b);
      Ok(if TRem(a, b) > 0 then result + 1 else result)
  }

  lemma MulDivRoundsDown(a: int, b: int, d: int)
    requires 0 <= a && 0 <= b && 0 < d
    ensures MulDiv(a, b, d).Ok? && IsFloor(MulDiv(a, b, d).value, a * b, d)
    ensures 0 <= MulDiv(a, b, d).value
  {
  }

  lemma DivRoundingUpIsCeil(a: int, b: int)
    requires 0 <= a && 0 < b
    ensures DivRoundingUp(a, b).Ok? && IsCeil(DivRoundingUp(a, b).value, a, b)
    ensures 0 <= DivRoundingUp(a, b).value
  {
  }

  lemma MulDivRoundsUp(a: int, b: int, d: int)
    requires 0 <= a && 0 <= b && 0 < d
    ensures MulDivRoundingUp(a, b, d).Ok? && IsCeil(MulDivRoundingUp(a, b, d).value, a * b, d)
    ensures 0 <= MulDivRoundingUp(a, b, d).value
  {
  }
}
