/** src/math/dodo.ts, sqrt: Newton's method for the integer square root. */
module IntegerRoot {
  import opened IntMath
  import opened Outcomes

  predicate IsRoot(r: int, v: int) {
    0 <= r && r * r <= v < (r + 1) * (r + 1)
  }

  // The square root digit by digit, two bits of v at a time.
  function Root(v: nat): (r: nat)
    ensures IsRoot(r, v)
  {
    if v == 0 then 0
    else
      var half := Root(v / 4);
      var r := 2 * half;
      NextDigit(half, v / 4, v);
      if (r + 1) * (r + 1) <= v then r + 1 else r
  }

  // The root of v, given that of v with its two lowest bits cut off.
  lemma NextDigit(half: int, quarter: int, v: int)
    requires IsRoot(half, quarter) && 4 * quarter <= v < 4 * quarter + 4
    ensures var r := 2 * half; if (r + 1) * (r + 1) <= v then IsRoot(r + 1, v) else IsRoot(r, v)
  {
  }

  lemma SquareIsMonotone(a: int, b: int)
    requires 0 <= a <= b
    ensures a * a <= b * b
  {
    MulMono(a, b, a);
    MulMono(a, b, b);
  }

  lemma RootIsUnique(r: int, q: int, v: int)
    requires IsRoot(r, v) && IsRoot(q, v)
    ensures r == q
  {
    if r < q {
      SquareIsMonotone(r + 1, q);
    } else if q < r {
      SquareIsMonotone(q + 1, r);
    }
  }

  // The number of binary digits.
  function Bits(v: nat): (n: nat)
    ensures v < Pow2(n)
  {
    if v == 0 then 0 else 1 + Bits(v / 2)
  }

  lemma {:induction false} Pow2Adds(m: nat, n: nat)
    ensures Pow2(m + n) == Pow2(m) * Pow2(n)
  {
    if m > 0 {
      Pow2Adds(m - 1, n);
      assert Pow2(m + n) == 2 * Pow2(m - 1 + n);
      assert 2 * Pow2(m - 1) * Pow2(n) == 2 * (Pow2(m - 1) * Pow2(n));
    }
  }

  lemma {:induction false} Pow2Grows(m: nat, n: nat)
    requires m <= n
    ensures Pow2(m) <= Pow2(n)
  {
    if m < n {
      Pow2Grows(m, n - 1);
    }
  }

  // The first guess is above the root.
  lemma GuessIsAbove(v: nat)
    ensures v < Pow2((Bits(v) + 1) / 2) * Pow2((Bits(v) + 1) / 2)
  {
    hide Pow2, Bits;
    var half := (Bits(v) + 1) / 2;
    Pow2Grows(Bits(v), half + half);
    Pow2Adds(half, half);
  }

  // One Newton step.
  function Mean(x: int, v: int): int
    requires 0 < x
  {
    (x + v / x) / 2
  }

  // v is below the square of the next integer: x is not below the root.
  predicate NotBelow(x: int, v: int) {
    0 <= x && v < (x + 1) * (x + 1)
  }

  // A Newton step never falls below the root, from wherever it starts.
  lemma StepIsAbove(x: int, v: int)
    requires 0 < x && 0 <= v
    ensures NotBelow(Mean(x, v), v)
    ensures 2 <= v ==> 0 < Mean(x, v)
  {
    var q := v / x;
    TDivFloor(v, x);
    MeanSquare(x, q + 1, Mean(x, v) + 1);
  }

  // The square of a mean is at least the product.
  lemma MeanSquare(a: int, b: int, mean: int)
    requires 0 <= a && 0 <= b && a + b <= 2 * mean
    ensures a * b <= mean * mean
  {
  }

  // Where the step no longer goes down, the root has been reached.
  lemma StopIsRoot(x: int, v: nat)
    requires 0 < x && NotBelow(x, v) && x <= Mean(x, v)
    ensures IsRoot(x, v) && x == Root(v)
  {
    TDivFloor(v, x);
    MulMono(x, v / x, x);
    RootIsUnique(x, Root(v), v);
  }

  lemma GuessIsNotBelow(v: nat)
    ensures NotBelow(Pow2((Bits(v) + 1) / 2), v)
  {
    hide Pow2, Bits;
    var guess := Pow2((Bits(v) + 1) / 2);
    GuessIsAbove(v);
    MulMono(guess, guess + 1, guess);
    MulMono(guess, guess + 1, guess + 1);
  }

  lemma SmallRoot(v: nat)
    requires v < 2
    ensures IsRoot(v, v) && v == Root(v)
  {
  }

  method Sqrt(value: int) returns (r: Result<int>)
    ensures r.Err? <==> value < 0
    ensures r.Ok? ==> IsRoot(r.value, value) && r.value == Root(value)
  {
    hide Root, Bits, Pow2, IsRoot, NotBelow, Mean;
    if value < 0 {
      return Err("DODOMath: sqrt undefined for negative");
    }
    if value < 2 {
      SmallRoot(value);
      return Ok(value);
    }
    var x0 := Pow2((Bits(value) + 1) / 2);
    GuessIsNotBelow(value);
    StepIsAbove(x0, value);
    var x1 := NextGuess(x0, value);
    while x1 < x0
      invariant 0 < x0 && 0 < x1 && NotBelow(x0, value) && x1 == Mean(x0, value)
      decreases x0
    {
      StepIsAbove(x0, value);
      x0 := x1;
      x1 := NextGuess(x0, value);
      StepIsAbove(x0, value);
    }
    StopIsRoot(x0, value);
    r := Ok(x0);
  }

  method NextGuess(x0: int, value: int) returns (x1: int)
    requires 0 < x0
    ensures x1 == Mean(x0, value)
  {
    x1 := (x0 + value / x0) / 2;
  }
}
