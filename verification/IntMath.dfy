/** Integer division as the program performs it, and the facts about rounding the proofs rest on. */
module IntMath {

  // BigInt division truncates toward zero.
  function TDiv(a: int, b: int): int
    requires b != 0
  {
    if a >= 0 then a / b else -((-a) / b)
  }

  // The remainder takes the sign of the dividend.
  function TRem(a: int, b: int): int
    requires b != 0
  {
    a - b * TDiv(a, b)
  }

  // The largest integer a double represents with all smaller ones.
  const MAX_SAFE_INTEGER: int := 9_007_199_254_740_991

  function Min(a: int, b: int): int { if a < b then a else b }

  function Max(a: int, b: int): int { if a > b then a else b }

  function Pow(b: nat, e: nat): nat {
    if e == 0 then 1 else b * Pow(b, e - 1)
  }

  function Pow2(n: nat): (p: int)
    ensures 1 <= p
  {
    if n == 0 then 1 else 2 * Pow2(n - 1)
  }

  // q is a/b rounded down (b positive).
  predicate IsFloor(q: int, a: int, b: int) {
    q * b <= a < (q + 1) * b
  }

  // q is a/b rounded up (b positive).
  predicate IsCeil(q: int, a: int, b: int) {
    (q - 1) * b < a <= q * b
  }

  lemma MulMono(a: int, b: int, c: int)
    requires a <= b && 0 <= c
    ensures a * c <= b * c
    ensures c * a <= c * b
  {
  }

  lemma MulStrict(a: int, b: int, c: int)
    requires a < b && 0 < c
    ensures a * c < b * c
    ensures c * a < c * b
  {
  }

  lemma Distribute(a: int, b: int, c: int)
    ensures (a + b) * c == a * c + b * c
    ensures (a - b) * c == a * c - b * c
  {
  }

  lemma Regroup(a: int, b: int, c: int)
    ensures a * b * c == a * (b * c)
    ensures a * b * c == a * c * b
  {
  }

  lemma CancelLe(a: int, b: int, c: int)
    requires a * c <= b * c && 0 < c
    ensures a <= b
  {
  }

  lemma CancelLt(a: int, b: int, c: int)
    requires a * c < b * c && 0 <= c
    ensures a < b
  {
  }

  lemma TDivFloor(a: int, b: int)
    requires 0 <= a && 0 < b
    ensures IsFloor(TDiv(a, b), a, b)
    ensures TDiv(a, b) == a / b && 0 <= TDiv(a, b)
    ensures TRem(a, b) == a - b * (a / b) && 0 <= TRem(a, b) < b
  {
  }

  // Rounding down is adjoint to multiplication.
  lemma FloorGe(q: int, a: int, b: int, k: int)
    requires 0 < b && IsFloor(q, a, b)
    ensures k <= q <==> k * b <= a
  {
  }

  // Rounding up is adjoint to multiplication.
  lemma CeilLe(q: int, a: int, b: int, k: int)
    requires 0 < b && IsCeil(q, a, b)
    ensures q <= k <==> a <= k * b
  {
  }

  lemma FloorUnique(q: int, r: int, a: int, b: int)
    requires 0 < b && IsFloor(q, a, b) && IsFloor(r, a, b)
    ensures q == r
  {
  }

  // floor(floor(x / b) / a) = floor(x / (a * b))
  lemma FloorNest(x: int, b: int, a: int, q1: int, q: int)
    requires 0 < a && 0 < b && IsFloor(q1, x, b) && IsFloor(q, q1, a)
    ensures IsFloor(q, x, a * b)
  {
    MulMono(q * a, q1, b);
    assert q * a * b == q * (a * b);
    MulMono(q1 + 1, (q + 1) * a, b);
    assert (q + 1) * a * b == (q + 1) * (a * b);
  }

  // ceil(ceil(x / b) / a) = ceil(x / (a * b))
  lemma CeilNest(x: int, b: int, a: int, q1: int, q: int)
    requires 0 < a && 0 < b && IsCeil(q1, x, b) && IsCeil(q, q1, a)
    ensures IsCeil(q, x, a * b)
  {
    MulMono(q1, q * a, b);
    assert q * a * b == q * (a * b);
    MulMono((q - 1) * a, q1 - 1, b);
    assert (q - 1) * a * b == (q - 1) * (a * b);
  }
}
