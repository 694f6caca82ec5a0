/** src/math/dodo.ts: proactive market maker quotes. Every dividend here is non-negative, so `/` truncates as BigInt does. */
module Dodo {
  import opened IntMath
  import opened IntegerRoot

  const ONE: int := 1_000_000_000_000_000_000
  const ONE2: int := ONE * ONE

  const RSTATE_ONE: int := 0
  const RSTATE_ABOVE_ONE: int := 1

  function MulFloor(a: int, b: int): int {
    (a * b) / ONE
  }

  function DivFloor(a: int, b: int): int {
    if b <= 0 then 0 else (a * ONE) / b
  }

  function DivCeil(a: int, b: int): int {
    if b <= 0 then 0 else (a * ONE + b - 1) / b
  }

  function ReciprocalFloor(target: int): int {
    if target <= 0 then 0 else ONE2 / target
  }

  function GeneralIntegrate(v0: int, v1: int, v2: int, i: int, k: int): int {
    if v0 <= 0 || v1 <= 0 || v2 <= 0 || v1 < v2 || i <= 0 || k < 0 || k > ONE then 0
    else
      var fairAmount := i * (v1 - v2);
      if k == 0 then fairAmount / ONE
      else
        var penalty := MulFloor(k, DivFloor((v0 * v0) / v1, v2));
        ((ONE - k + penalty) * fairAmount) / ONE2
  }

  // --- The quadratic ---

  // A sign and a size, as the code keeps b; Value is the number they stand for.
  datatype Signed = Signed(negative: bool, size: int) {
    function Value(): int { if negative then -size else size }
  }

  // b of the quadratic: (ONE - k) * v1 less what the trade adds, scaled down toward zero.
  function BOf(v0: int, v1: int, delta: int, i: int, k: int): Signed
    requires 0 < v1
  {
    var part2 := ((k * v0) / v1) * v0 + i * delta;
    var bAbs := (ONE - k) * v1;
    if bAbs >= part2 then Signed(false, (bAbs - part2) / ONE) else Signed(true, (part2 - bAbs) / ONE)
  }

  // The constant under the root; it does not depend on the trade.
  function MOf(v0: int, k: int): int {
    MulFloor((ONE - k) * 4, MulFloor(k, v0) * v0)
  }

  lemma MIsNonNegative(v0: int, k: int)
    requires 0 < v0 && 0 <= k <= ONE
    ensures 0 <= MOf(v0, k)
  {
  }

  lemma UnderRoot(b: Signed, m: int)
    requires 0 <= m
    ensures 0 <= b.size * b.size + m
  {
  }

  function RootOf(b: Signed, m: int): (r: nat)
    requires 0 <= m
    ensures IsRoot(r, b.size * b.size + m)
  {
    UnderRoot(b, m);
    Root(b.size * b.size + m)
  }

  // The guard that answers zero: the root no longer exceeds a negative b.
  predicate Saturated(v0: int, v1: int, delta: int, i: int, k: int) {
    && 0 < v0 && 0 < v1 && 0 < delta && 0 < i && 0 < k < ONE
    && (MIsNonNegative(v0, k);
        var b := BOf(v0, v1, delta, i, k);
        b.negative && RootOf(b, MOf(v0, k)) <= b.size)
  }

  // A caller can tell without the root: it does not exceed the size exactly when m is at most twice it.
  lemma SaturationNeedsNoRoot(v0: int, v1: int, delta: int, i: int, k: int)
    ensures Saturated(v0, v1, delta, i, k) <==>
            && 0 < v0 && 0 < v1 && 0 < delta && 0 < i && 0 < k < ONE
            && BOf(v0, v1, delta, i, k).negative && MOf(v0, k) <= 2 * BOf(v0, v1, delta, i, k).size
  {
    hide BOf, MOf, RootOf, IsRoot;
    if 0 < v0 && 0 < v1 && 0 < delta && 0 < i && 0 < k < ONE {
      MIsNonNegative(v0, k);
      BIsNonNegative(v0, v1, delta, i, k);
      RootAtMostSize(BOf(v0, v1, delta, i, k), MOf(v0, k));
    }
  }

  lemma RootAtMostSize(b: Signed, m: int)
    requires 0 <= m && 0 <= b.size
    ensures RootOf(b, m) <= b.size <==> m <= 2 * b.size
  {
    hide Root;
    var r := RootOf(b, m);
    assert (b.size + 1) * (b.size + 1) == b.size * b.size + 2 * b.size + 1;
    if r <= b.size {
      MulMono(r + 1, b.size + 1, r + 1);
      MulMono(r + 1, b.size + 1, b.size + 1);
    } else {
      MulMono(b.size + 1, r, r);
      MulMono(b.size + 1, r, b.size + 1);
    }
  }

  function Solve(v0: int, v1: int, delta: int, i: int, k: int): int {
    if v0 <= 0 || v1 <= 0 || delta <= 0 || i <= 0 || k < 0 || k > ONE then 0
    else if k == 0 then
      var linear := MulFloor(i, delta);
      if linear > v1 then v1 else linear
    else if k == ONE then
      var temp := SteepTemp(v0, v1, delta, i);
      if temp == 0 then 0 else (v1 * temp) / (temp + ONE)
    else
      MIsNonNegative(v0, k);
      var b := BOf(v0, v1, delta, i, k);
      var squareRoot := RootOf(b, MOf(v0, k));
      if b.negative && squareRoot <= b.size then 0
      else
        var numerator := if b.negative then squareRoot - b.size else b.size + squareRoot;
        var v2 := DivCeil(numerator, (ONE - k) * 2);
        if v2 > v1 then 0 else v1 - v2
  }

  function SteepTemp(v0: int, v1: int, delta: int, i: int): (t: int)
    requires 0 < v0 && 0 < v1 && 0 < delta && 0 < i
    ensures 0 <= t
  {
    var idelta := i * delta;
    MulMono(1, i, delta);
    MulMono(0, idelta, v1);
    MulMono(1, v0, v0);
    if idelta == 0 then 0 else (idelta * v1) / (v0 * v0)
  }

  method SolveQuadraticFunctionForTrade(v0: int, v1: int, delta: int, i: int, k: int) returns (r: int)
    ensures r == Solve(v0, v1, delta, i, k)
  {
    if v0 <= 0 || v1 <= 0 || delta <= 0 || i <= 0 || k < 0 || k > ONE {
      return 0;
    }
    if k == 0 {
      var linear := MulFloor(i, delta);
      return if linear > v1 then v1 else linear;
    }
    if k == ONE {
      var temp := SteepTemp(v0, v1, delta, i);
      return if temp == 0 then 0 else (v1 * temp) / (temp + ONE);
    }
    r := SolveCurved(v0, v1, delta, i, k);
  }

  method SolveCurved(v0: int, v1: int, delta: int, i: int, k: int) returns (r: int)
    requires 0 < v0 && 0 < v1 && 0 < delta && 0 < i && 0 < k < ONE
    ensures r == Solve(v0, v1, delta, i, k)
  {
    hide Root, RootOf, IsRoot, MulFloor, DivCeil, MOf;
    var part2 := ((k * v0) / v1) * v0 + i * delta;
    var bAbs := (ONE - k) * v1;
    var bSig := false;
    if bAbs >= part2 {
      bAbs := bAbs - part2;
    } else {
      bAbs := part2 - bAbs;
      bSig := true;
    }
    bAbs := bAbs / ONE;
    ghost var b := BOf(v0, v1, delta, i, k);
    assert b == Signed(bSig, bAbs);
    hide BOf;
    var underRoot := MulFloor((ONE - k) * 4, MulFloor(k, v0) * v0);
    MIs(v0, k);
    MIsNonNegative(v0, k);
    UnderRoot(b, underRoot);
    var root := Sqrt(bAbs * bAbs + underRoot);
    var squareRoot := root.value;
    RootIs(b, underRoot, squareRoot);
    if bSig && squareRoot <= bAbs {
      return 0;
    }
    var numerator := if bSig then squareRoot - bAbs else bAbs + squareRoot;
    var v2 := DivCeil(numerator, (ONE - k) * 2);
    r := if v2 > v1 then 0 else v1 - v2;
  }

  lemma MIs(v0: int, k: int)
    ensures MOf(v0, k) == MulFloor((ONE - k) * 4, MulFloor(k, v0) * v0)
  {
  }

  lemma RootIs(b: Signed, m: int, r: int)
    requires 0 <= m && 0 <= b.size * b.size + m && r == Root(b.size * b.size + m)
    ensures r == RootOf(b, m)
  {
  }

  // --- What the numerator is ---

  // n is the largest integer with n * (n - 2b) <= m: twice (1 - k) times the balance that solves the
  // pool's quadratic, rounded down.
  predicate Solves(n: int, b: int, m: int) {
    b <= n && n * (n - 2 * b) <= m < (n + 1) * (n + 1 - 2 * b)
  }

  lemma ProductOfSumAndDifference(r: int, v: int)
    ensures (v + r) * (v + r - 2 * v) == r * r - v * v
  {
  }

  lemma NumeratorSolves(b: Signed, m: int)
    requires 0 <= m && 0 <= b.size
    ensures Solves(b.Value() + RootOf(b, m), b.Value(), m)
  {
    var r := RootOf(b, m);
    assert IsRoot(r, b.size * b.size + m);
    hide RootOf;
    SameSquare(b);
    ProductOfSumAndDifference(r, b.Value());
    ProductOfSumAndDifference(r + 1, b.Value());
  }

  lemma SameSquare(b: Signed)
    ensures b.size * b.size == b.Value() * b.Value()
  {
  }

  // Up to rounding, b and m are the coefficients of the pool's quadratic
  // (1 - k) * v2 * v2 - ((1 - k) * v1 - k * v0 * v0 / v1 - i * delta) * v2 - k * v0 * v0 = 0.
  lemma CoefficientsAreThePools(v0: int, v1: int, delta: int, i: int, k: int)
    requires 0 < v0 && 0 < v1 && 0 < delta && 0 < i && 0 <= k <= ONE
    ensures var b := BOf(v0, v1, delta, i, k).Value();
            var exact := (ONE - k) * (v1 * v1) - k * (v0 * v0) - i * delta * v1;
            exact - ONE * v1 < b * ONE * v1 < exact + (ONE + v0) * v1
    ensures var exact := 4 * (ONE - k) * (k * (v0 * v0));
            MOf(v0, k) * ONE2 <= exact < (MOf(v0, k) + 1) * ONE2 + 4 * (ONE - k) * v0 * ONE
  {
    hide BOf, MOf;
    var q := (k * v0) / v1;
    MulMono(0, k, v0);
    TDivFloor(k * v0, v1);
    var s := (ONE - k) * v1 - (q * v0 + i * delta);
    var b := BOf(v0, v1, delta, i, k).Value();
    BTruncates(v0, v1, delta, i, k);
    SlopeBounds(v0, v1, k, q, i * delta, s, b);
    MOfBounds(v0, k);
  }

  lemma BTruncates(v0: int, v1: int, delta: int, i: int, k: int)
    requires 0 < v1
    ensures var s := (ONE - k) * v1 - (((k * v0) / v1) * v0 + i * delta);
            s - ONE < BOf(v0, v1, delta, i, k).Value() * ONE < s + ONE
  {
  }

  lemma SlopeBounds(v0: int, v1: int, k: int, q: int, paid: int, s: int, b: int)
    requires 0 < v0 && 0 < v1 && IsFloor(q, k * v0, v1)
    requires s == (ONE - k) * v1 - (q * v0 + paid) && s - ONE < b * ONE < s + ONE
    ensures var exact := (ONE - k) * (v1 * v1) - k * (v0 * v0) - paid * v1;
            exact - ONE * v1 < b * ONE * v1 < exact + (ONE + v0) * v1
  {
    MulStrict(s - ONE, b * ONE, v1);
    MulStrict(b * ONE, s + ONE, v1);
    assert (s - ONE) * v1 == s * v1 - ONE * v1 && (s + ONE) * v1 == s * v1 + ONE * v1;
    SlopeTimes(v0, v1, k, q, paid);
    assert (ONE + v0) * v1 == ONE * v1 + v0 * v1;
  }

  lemma SlopeTimes(v0: int, v1: int, k: int, q: int, paid: int)
    requires 0 < v0 && 0 < v1 && IsFloor(q, k * v0, v1)
    ensures var exact := (ONE - k) * (v1 * v1) - k * (v0 * v0) - paid * v1;
            exact <= ((ONE - k) * v1 - (q * v0 + paid)) * v1 < exact + v0 * v1
  {
    MulMono(q * v1, k * v0, v0);
    MulStrict(k * v0, (q + 1) * v1, v0);
    Distribute(q, 1, v1);
    Distribute(q * v1, v1, v0);
    Regroup(k, v0, v0);
    Regroup(q, v1, v0);
    Distribute((ONE - k) * v1, q * v0 + paid, v1);
    Distribute(q * v0, paid, v1);
    Regroup(ONE - k, v1, v1);
  }

  lemma MOfBounds(v0: int, k: int)
    requires 0 < v0 && 0 <= k <= ONE
    ensures var exact := 4 * (ONE - k) * (k * (v0 * v0));
            MOf(v0, k) * ONE2 <= exact < (MOf(v0, k) + 1) * ONE2 + 4 * (ONE - k) * v0 * ONE
  {
    MIsNonNegative(v0, k);
    var f := MulFloor(k, v0);
    MulMono(0, k, v0);
    TDivFloor(k * v0, ONE);
    MulMono(0, f, v0);
    MulMono(0, (ONE - k) * 4, f * v0);
    TDivFloor((ONE - k) * 4 * (f * v0), ONE);
    ProductBounds(v0, (ONE - k) * 4, k * v0, f, MOf(v0, k));
  }

  lemma ProductBounds(v0: int, c: int, kv: int, f: int, m: int)
    requires 0 < v0 && 0 <= c && IsFloor(f, kv, ONE) && IsFloor(m, c * (f * v0), ONE)
    ensures m * ONE2 <= c * (kv * v0) < (m + 1) * ONE2 + c * v0 * ONE
  {
    MulMono(0, c, v0);
    MulMono(f * ONE, kv, c * v0);
    MulMono(kv, (f + 1) * ONE, c * v0);
    assert f * ONE * (c * v0) == c * (f * v0) * ONE;
    assert (f + 1) * ONE * (c * v0) == c * (f * v0) * ONE + c * v0 * ONE;
    assert kv * (c * v0) == c * (kv * v0);
  }

  lemma BIsNonNegative(v0: int, v1: int, delta: int, i: int, k: int)
    requires 0 < v1
    ensures 0 <= BOf(v0, v1, delta, i, k).size
  {
  }

  // For 0 < k < ONE and an unsaturated trade the balance left is the least v2 with
  // 2 * (ONE - k) * v2 >= n * ONE, where n solves the quadratic; the payout is the rest of v1.
  lemma SolveIsQuadratic(v0: int, v1: int, delta: int, i: int, k: int) returns (n: int, v2: int)
    requires 0 < v0 && 0 < v1 && 0 < delta && 0 < i && 0 < k < ONE
    requires !Saturated(v0, v1, delta, i, k)
    ensures 0 <= n && Solves(n, BOf(v0, v1, delta, i, k).Value(), MOf(v0, k))
    ensures IsCeil(v2, n * ONE, (ONE - k) * 2) && 0 <= v2
    ensures Solve(v0, v1, delta, i, k) == if v2 > v1 then 0 else v1 - v2
  {
    hide BOf, MOf, RootOf;
    MIsNonNegative(v0, k);
    BIsNonNegative(v0, v1, delta, i, k);
    var b := BOf(v0, v1, delta, i, k);
    NumeratorSolves(b, MOf(v0, k));
    n := b.Value() + RootOf(b, MOf(v0, k));
    v2 := DivCeil(n, (ONE - k) * 2);
    CeilOf(n * ONE, (ONE - k) * 2);
  }

  lemma CeilOf(a: int, b: int)
    requires 0 <= a && 0 < b
    ensures IsCeil((a + b - 1) / b, a, b) && 0 <= (a + b - 1) / b
  {
  }

  // --- Never more than there is ---

  lemma FloorBelow(a: int, b: int, c: int)
    requires 0 <= a && 0 < b && 0 <= c && a <= c * b
    ensures 0 <= a / b <= c
  {
  }

  // A trade is never paid more than the balance it is solved against.
  lemma SolveIsBounded(v0: int, v1: int, delta: int, i: int, k: int)
    ensures 0 <= Solve(v0, v1, delta, i, k)
    ensures 0 < v1 ==> Solve(v0, v1, delta, i, k) <= v1
  {
    hide BOf, MOf, RootOf, Root, SteepTemp;
    if v0 <= 0 || v1 <= 0 || delta <= 0 || i <= 0 || k < 0 || k > ONE {
    } else if k == 0 {
      MulMono(0, i, delta);
    } else if k == ONE {
      var temp := SteepTemp(v0, v1, delta, i);
      MulMono(0, v1, temp);
      MulMono(temp, temp + ONE, v1);
      FloorBelow(v1 * temp, temp + ONE, v1);
    } else if !Saturated(v0, v1, delta, i, k) {
      var n, v2 := SolveIsQuadratic(v0, v1, delta, i, k);
    }
  }

  // --- A larger trade ---

  lemma ProductRises(x: int, y: int, b: int)
    requires x <= y && b <= x
    ensures x * (x - 2 * b) <= y * (y - 2 * b)
  {
  }

  // As b falls the numerator falls.
  lemma SolvesIsMonotone(n: int, b: int, n2: int, b2: int, m: int)
    requires Solves(n, b, m) && Solves(n2, b2, m) && b2 <= b && 0 <= n
    ensures n2 <= n
  {
    MulMono(b2, b, n + 1);
    assert (n + 1) * (n + 1 - 2 * b2) == (n + 1) * (n + 1) - 2 * ((n + 1) * b2);
    assert (n + 1) * (n + 1 - 2 * b) == (n + 1) * (n + 1) - 2 * ((n + 1) * b);
    if n2 > n {
      ProductRises(n + 1, n2, b2);
    }
  }

  lemma BFalls(v0: int, v1: int, delta: int, delta2: int, i: int, k: int)
    requires 0 < v1 && 0 < i && delta <= delta2
    ensures BOf(v0, v1, delta2, i, k).Value() <= BOf(v0, v1, delta, i, k).Value()
  {
    MulMono(delta, delta2, i);
    var s := (ONE - k) * v1 - ((k * v0) / v1) * v0;
    var x, x2 := s - i * delta, s - i * delta2;
    assert x2 <= x;
  }

  lemma CeilIsMonotone(q: int, a: int, q2: int, a2: int, b: int)
    requires 0 < b && IsCeil(q, a, b) && IsCeil(q2, a2, b) && a2 <= a
    ensures q2 <= q
  {
  }

  lemma SteepIsMonotone(v0: int, v1: int, delta: int, delta2: int, i: int)
    requires 0 < v0 && 0 < v1 && 0 < delta <= delta2 && 0 < i
    ensures Solve(v0, v1, delta, i, ONE) <= Solve(v0, v1, delta2, i, ONE)
  {
    MulMono(delta, delta2, i);
    MulMono(i * delta, i * delta2, v1);
    MulMono(1, v0, v0);
    MulMono(1, i, delta);
    MulMono(0, i * delta, v1);
    FloorIsMonotone(i * delta * v1, i * delta2 * v1, v0 * v0);
    hide Solve, SteepTemp;
    var t, t2 := SteepTemp(v0, v1, delta, i), SteepTemp(v0, v1, delta2, i);
    SteepValue(v0, v1, delta, i);
    SteepValue(v0, v1, delta2, i);
    ShareIsMonotone(v1, t, t2);
  }

  lemma FloorIsMonotone(a: int, a2: int, b: int)
    requires 0 <= a <= a2 && 0 < b
    ensures a / b <= a2 / b
  {
    TDivFloor(a, b);
    TDivFloor(a2, b);
    FloorGe(a2 / b, a2, b, a / b);
  }

  lemma SteepValue(v0: int, v1: int, delta: int, i: int)
    requires 0 < v0 && 0 < v1 && 0 < delta && 0 < i && 0 < v0 * v0
    ensures SteepTemp(v0, v1, delta, i) == (i * delta * v1) / (v0 * v0)
    ensures var t := SteepTemp(v0, v1, delta, i);
            Solve(v0, v1, delta, i, ONE) == (v1 * t) / (t + ONE)
  {
  }

  lemma ShareIsMonotone(v1: int, t: int, t2: int)
    requires 0 < v1 && 0 <= t <= t2
    ensures (v1 * t) / (t + ONE) <= (v1 * t2) / (t2 + ONE)
  {
    MulMono(0, v1, t);
    MulMono(0, v1, t2);
    TDivFloor(v1 * t, t + ONE);
    TDivFloor(v1 * t2, t2 + ONE);
    var q := (v1 * t) / (t + ONE);
    MulMono(t, t + ONE, v1);
    CancelLe(q, v1, t + ONE);
    ShareStep(v1, t, t2, q);
    FloorGe((v1 * t2) / (t2 + ONE), v1 * t2, t2 + ONE, q);
  }

  // What is worth q of t + ONE is worth q of t2 + ONE, as q is at most v1.
  lemma ShareStep(v1: int, t: int, t2: int, q: int)
    requires 0 <= t <= t2 && q <= v1 && q * (t + ONE) <= v1 * t
    ensures q * (t2 + ONE) <= v1 * t2
  {
  }

  // A larger trade is saturated if a smaller one is.
  lemma SaturationSpreads(v0: int, v1: int, delta: int, delta2: int, i: int, k: int)
    requires Saturated(v0, v1, delta, i, k) && delta <= delta2
    ensures Saturated(v0, v1, delta2, i, k)
  {
    hide BOf, MOf;
    MIsNonNegative(v0, k);
    BFalls(v0, v1, delta, delta2, i, k);
    BIsNonNegative(v0, v1, delta, i, k);
    BIsNonNegative(v0, v1, delta2, i, k);
    var b, b2, m := BOf(v0, v1, delta, i, k), BOf(v0, v1, delta2, i, k), MOf(v0, k);
    NumeratorSolves(b, m);
    NumeratorSolves(b2, m);
    RootCoversSize(b, m);
    SolvesIsMonotone(b.Value() + RootOf(b, m), b.Value(), b2.Value() + RootOf(b2, m), b2.Value(), m);
    NegativeAgain(v0, v1, delta, delta2, i, k);
  }

  lemma NegativeAgain(v0: int, v1: int, delta: int, delta2: int, i: int, k: int)
    requires 0 < v1 && 0 < i && delta <= delta2 && BOf(v0, v1, delta, i, k).negative
    ensures BOf(v0, v1, delta2, i, k).negative
  {
  }

  lemma RootCoversSize(b: Signed, m: int)
    requires 0 <= m && 0 <= b.size
    ensures b.size <= RootOf(b, m)
  {
    var r := RootOf(b, m);
    if r < b.size {
      MulMono(r + 1, b.size, r + 1);
      MulMono(r + 1, b.size, b.size);
    }
  }

  // A saturated trade is paid nothing. That is the only way a larger trade can be paid less.
  lemma LargerTradePaysMore(v0: int, v1: int, delta: int, delta2: int, i: int, k: int)
    requires delta <= delta2
    ensures Saturated(v0, v1, delta2, i, k) ==> Solve(v0, v1, delta2, i, k) == 0
    ensures Solve(v0, v1, delta, i, k) <= Solve(v0, v1, delta2, i, k)
            <==> !Saturated(v0, v1, delta2, i, k) || Solve(v0, v1, delta, i, k) == 0
  {
    SolveIsBounded(v0, v1, delta, i, k);
    SolveIsBounded(v0, v1, delta2, i, k);
    if Saturated(v0, v1, delta2, i, k) {
      hide BOf, MOf, RootOf, Root;
    } else if v0 <= 0 || v1 <= 0 || delta <= 0 || i <= 0 || k < 0 || k > ONE {
    } else if k == 0 {
      MulMono(delta, delta2, i);
    } else if k == ONE {
      SteepIsMonotone(v0, v1, delta, delta2, i);
    } else {
      CurvedIsMonotone(v0, v1, delta, delta2, i, k);
    }
  }

  lemma CurvedIsMonotone(v0: int, v1: int, delta: int, delta2: int, i: int, k: int)
    requires 0 < v0 && 0 < v1 && 0 < delta <= delta2 && 0 < i && 0 < k < ONE
    requires !Saturated(v0, v1, delta2, i, k)
    ensures Solve(v0, v1, delta, i, k) <= Solve(v0, v1, delta2, i, k)
  {
    hide BOf, MOf, RootOf, Root, Solve, Solves, Saturated;
    if Saturated(v0, v1, delta, i, k) {
      SaturationSpreads(v0, v1, delta, delta2, i, k);
    } else {
      var n, v2 := SolveIsQuadratic(v0, v1, delta, i, k);
      var n2, w2 := SolveIsQuadratic(v0, v1, delta2, i, k);
      BFalls(v0, v1, delta, delta2, i, k);
      SolvesIsMonotone(n, BOf(v0, v1, delta, i, k).Value(), n2, BOf(v0, v1, delta2, i, k).Value(), MOf(v0, k));
      CeilIsMonotone(v2, n * ONE, w2, n2 * ONE, (ONE - k) * 2);
    }
  }

  // Adding five times the reserve to a nearly flat pool is paid nothing, adding the reserve once is not.
  lemma SaturatedTradeIsPaidNothing()
    ensures Saturated(ONE, ONE, 5 * ONE, ONE, 1)
    ensures Solve(ONE, ONE, ONE, ONE, 1) > 0 == Solve(ONE, ONE, 5 * ONE, ONE, 1)
  {
    hide Root, RootOf;
    var m := MOf(ONE, 1);
    MIsNonNegative(ONE, 1);
    var flat, steep := BOf(ONE, ONE, ONE, ONE, 1), BOf(ONE, ONE, 5 * ONE, ONE, 1);
    SizeCovers(steep, m);
    RootBetween(flat, m, 2 * 1_000_000_000);
  }

  lemma SizeCovers(b: Signed, m: int)
    requires 0 <= b.size && 0 <= m < 2 * b.size + 1
    ensures RootOf(b, m) == b.size
  {
    hide Root;
    CloseAbove(b.size, m);
    RootBetween(b, m, b.size);
  }

  lemma CloseAbove(x: int, m: int)
    requires 0 <= x && 0 <= m < 2 * x + 1
    ensures IsRoot(x, x * x + m)
  {
  }

  lemma RootBetween(b: Signed, m: int, r: int)
    requires 0 <= r && 0 <= m && IsRoot(r, b.size * b.size + m)
    ensures RootOf(b, m) == r
  {
    hide Root;
    UnderRoot(b, m);
    RootIsUnique(RootOf(b, m), r, b.size * b.size + m);
  }

  // --- The regimes ---

  datatype Pool = Pool(i: int, K: int, B: int, Q: int, B0: int, Q0: int, rState: int, lpFeeRate: int, mtFeeRate: int)

  // x is paid in and y received; until x is back at its target the pool pays out its surplus of y.
  function BackToOne(x0: int, x: int, y0: int, y: int, amount: int, i: int, k: int): int {
    if x0 < x || y < y0 then 0
    else
      var pay, receive := x0 - x, y - y0;
      if amount < pay then
        var integral := GeneralIntegrate(x0, x + amount, x, i, k);
        if integral > receive then receive else integral
      else if amount == pay then receive
      else receive + Solve(y0, y0, amount - pay, i, k)
  }

  function GrossOut(p: Pool, amount: int, baseToQuote: bool): int {
    if amount <= 0 then 0
    else if p.i <= 0 || p.K < 0 || p.K > ONE then 0
    else if p.B <= 0 || p.Q <= 0 || p.B0 <= 0 || p.Q0 <= 0 then 0
    else if baseToQuote then
      if p.rState == RSTATE_ONE then Solve(p.Q0, p.Q0, amount, p.i, p.K)
      else if p.rState == RSTATE_ABOVE_ONE then BackToOne(p.B0, p.B, p.Q0, p.Q, amount, p.i, p.K)
      else Solve(p.Q0, p.Q, amount, p.i, p.K)
    else
      var inverseI := ReciprocalFloor(p.i);
      if inverseI <= 0 then 0
      else if p.rState == RSTATE_ONE then Solve(p.B0, p.B0, amount, inverseI, p.K)
      else if p.rState == RSTATE_ABOVE_ONE then Solve(p.B0, p.B, amount, inverseI, p.K)
      else BackToOne(p.Q0, p.Q, p.B0, p.B, amount, inverseI, p.K)
  }

  lemma IntegralIsNonNegative(v0: int, v1: int, v2: int, i: int, k: int)
    ensures 0 <= GeneralIntegrate(v0, v1, v2, i, k)
  {
    if !(v0 <= 0 || v1 <= 0 || v2 <= 0 || v1 < v2 || i <= 0 || k < 0 || k > ONE) {
      MulMono(0, i, v1 - v2);
      if k != 0 {
        MulMono(0, v0, v0);
        QuotientIsNonNegative(v0 * v0, v1);
        QuotientIsNonNegative((v0 * v0) / v1 * ONE, v2);
        var v := DivFloor((v0 * v0) / v1, v2);
        MulMono(0, k, v);
        QuotientIsNonNegative(k * v, ONE);
        MulMono(0, ONE - k + MulFloor(k, v), i * (v1 - v2));
        QuotientIsNonNegative((ONE - k + MulFloor(k, v)) * (i * (v1 - v2)), ONE2);
      }
    }
  }

  // The pool pays at most the exact integral of its price from v2 to v1, which is
  // i * (v1 - v2) * (1 - k + k * v0 * v0 / (v1 * v2)), and short of it only what the roundings take.
  lemma IntegralIsRoundedDown(v0: int, v1: int, v2: int, i: int, k: int)
    requires 0 < v0 && 0 < v2 <= v1 && 0 < i && 0 <= k <= ONE
    ensures var fair, pair := i * (v1 - v2), v1 * v2;
            var r := GeneralIntegrate(v0, v1, v2, i, k);
            && r * (ONE2 * pair) <= fair * ((ONE - k) * pair + k * (v0 * v0))
            && fair * ((ONE - k) * pair + k * (v0 * v0) - k * v1 - 2 * pair) < (r + 1) * (ONE2 * pair)
  {
    hide GeneralIntegrate, DivFloor, MulFloor, IsFloor;
    var fair, pair := i * (v1 - v2), v1 * v2;
    var r := GeneralIntegrate(v0, v1, v2, i, k);
    MulMono(0, i, v1 - v2);
    MulMono(1, v1, v2);
    MulMono(0, v0, v0);
    var penalty := if k == 0 then 0 else MulFloor(k, DivFloor((v0 * v0) / v1, v2));
    IntegralIsFloor(v0, v1, v2, i, k, penalty);
    PenaltyBounds(v0 * v0, v1, v2, k, penalty);
    Distribute(ONE - k, penalty, pair);
    ScaleUp(r, fair, ONE - k + penalty, pair, (ONE - k) * pair + k * (v0 * v0), k * v1 + 2 * pair);
  }

  lemma IntegralIsFloor(v0: int, v1: int, v2: int, i: int, k: int, penalty: int)
    requires 0 < v0 && 0 < v2 <= v1 && 0 < i && 0 <= k <= ONE
    requires penalty == if k == 0 then 0 else MulFloor(k, DivFloor((v0 * v0) / v1, v2))
    ensures 0 <= penalty
    ensures IsFloor(GeneralIntegrate(v0, v1, v2, i, k), (ONE - k + penalty) * (i * (v1 - v2)), ONE2)
  {
    var fair := i * (v1 - v2);
    MulMono(0, i, v1 - v2);
    MulMono(0, v0, v0);
    QuotientIsNonNegative(v0 * v0, v1);
    QuotientIsNonNegative((v0 * v0) / v1 * ONE, v2);
    MulMono(0, k, DivFloor((v0 * v0) / v1, v2));
    QuotientIsNonNegative(k * DivFloor((v0 * v0) / v1, v2), ONE);
    MulMono(0, ONE - k + penalty, fair);
    TDivFloor((ONE - k + penalty) * fair, ONE2);
    TDivFloor(fair, ONE);
    if k == 0 {
      FlatIntegral(fair, fair / ONE);
    }
  }

  lemma FlatIntegral(fair: int, q: int)
    requires IsFloor(q, fair, ONE)
    ensures IsFloor(q, ONE * fair, ONE2)
  {
  }

  // Three roundings: the square over v1, that over v2 in units of ONE, and k times it.
  lemma PenaltyBounds(square: int, v1: int, v2: int, k: int, penalty: int)
    requires 0 <= square && 0 < v1 && 0 < v2 && 0 <= k <= ONE
    requires penalty == if k == 0 then 0 else MulFloor(k, DivFloor(square / v1, v2))
    ensures penalty * (v1 * v2) <= k * square <= penalty * (v1 * v2) + k * v1 + 2 * (v1 * v2)
  {
    MulMono(1, v1, v2);
    if k > 0 {
      var a := square / v1;
      var b := DivFloor(a, v2);
      TDivFloor(square, v1);
      TDivFloor(a * ONE, v2);
      MulMono(0, k, b);
      TDivFloor(k * b, ONE);
      PenaltyChain(square, v1, v2, k, a, b, penalty);
    }
  }

  lemma PenaltyChain(square: int, v1: int, v2: int, k: int, a: int, b: int, penalty: int)
    requires 0 <= square && 0 < v1 && 0 < v2 && 0 < k <= ONE && 0 <= a && 0 <= b && 0 <= penalty
    requires IsFloor(a, square, v1) && IsFloor(b, a * ONE, v2) && IsFloor(penalty, k * b, ONE)
    ensures penalty * (v1 * v2) <= k * square <= penalty * (v1 * v2) + k * v1 + 2 * (v1 * v2)
  {
    MulMono(1, v1, v2);
    TwoRoundings(square, v1, v2, a, b);
    ThirdRoundingDown(square, v1 * v2, k, b, penalty);
    ThirdRoundingUp(square, v1, v1 * v2, k, b, penalty);
  }

  lemma TwoRoundings(square: int, v1: int, v2: int, a: int, b: int)
    requires 0 < v1 && 0 < v2 && IsFloor(a, square, v1) && IsFloor(b, a * ONE, v2)
    ensures b * (v1 * v2) <= square * ONE <= (b + 1) * (v1 * v2) + ONE * v1
  {
    MulMono(b * v2, a * ONE, v1);
    MulMono(a * ONE, (b + 1) * v2, v1);
    assert b * v2 * v1 == b * (v1 * v2) && (b + 1) * v2 * v1 == (b + 1) * (v1 * v2);
    assert a * ONE * v1 == a * v1 * ONE && (a + 1) * v1 * ONE == a * v1 * ONE + v1 * ONE;
  }

  lemma ThirdRoundingDown(square: int, pair: int, k: int, b: int, penalty: int)
    requires 0 < pair && 0 < k && b * pair <= square * ONE && penalty * ONE <= k * b
    ensures penalty * pair <= k * square
  {
    MulMono(penalty * ONE, k * b, pair);
    MulMono(b * pair, square * ONE, k);
    assert penalty * ONE * pair == penalty * pair * ONE && k * b * pair == b * pair * k;
    assert square * ONE * k == k * square * ONE;
    CancelLe(penalty * pair, k * square, ONE);
  }

  lemma ThirdRoundingUp(square: int, v1: int, pair: int, k: int, b: int, penalty: int)
    requires 0 < pair && 0 < k <= ONE && 0 < v1
    requires square * ONE <= (b + 1) * pair + ONE * v1 && k * b < (penalty + 1) * ONE
    ensures k * square <= penalty * pair + k * v1 + 2 * pair
  {
    MulMono(square * ONE, (b + 1) * pair + ONE * v1, k);
    MulMono(k * b, (penalty + 1) * ONE, pair);
    MulMono(k, ONE, pair);
    assert square * ONE * k == k * square * ONE;
    assert ((b + 1) * pair + ONE * v1) * k == k * b * pair + k * pair + k * v1 * ONE;
    assert (penalty + 1) * ONE * pair == (penalty * pair + pair) * ONE;
    CancelLe(k * square, penalty * pair + k * v1 + 2 * pair, ONE);
  }

  lemma ScaleUp(r: int, fair: int, rate: int, pair: int, exact: int, slack: int)
    requires 0 <= fair && 0 < pair && IsFloor(r, rate * fair, ONE2)
    requires rate * pair <= exact <= rate * pair + slack
    ensures r * (ONE2 * pair) <= fair * exact
    ensures fair * (exact - slack) < (r + 1) * (ONE2 * pair)
  {
    MulMono(r * ONE2, rate * fair, pair);
    MulMono(rate * pair, exact, fair);
    MulStrict(rate * fair, (r + 1) * ONE2, pair);
    MulMono(exact - slack, rate * pair, fair);
    assert rate * fair * pair == fair * (rate * pair);
    assert r * ONE2 * pair == r * (ONE2 * pair) && (r + 1) * ONE2 * pair == (r + 1) * (ONE2 * pair);
  }

  lemma QuotientIsNonNegative(a: int, b: int)
    requires 0 <= a && 0 < b
    ensures 0 <= a / b
  {
  }

  // Returning to the target pays out at most the whole reserve of y.
  lemma BackToOneIsBounded(x0: int, x: int, y0: int, y: int, amount: int, i: int, k: int)
    requires 0 < y0
    ensures 0 <= BackToOne(x0, x, y0, y, amount, i, k)
    ensures 0 <= y ==> BackToOne(x0, x, y0, y, amount, i, k) <= y
  {
    hide Solve, GeneralIntegrate;
    IntegralIsNonNegative(x0, x + amount, x, i, k);
    SolveIsBounded(y0, y0, amount - (x0 - x), i, k);
  }

  // The payout is at most the output reserve, and at most the output target when R is one.
  lemma PayoutIsCovered(p: Pool, amount: int, baseToQuote: bool)
    ensures var gross := GrossOut(p, amount, baseToQuote);
            && 0 <= gross
            && (gross > 0 && p.rState != RSTATE_ONE ==> gross <= if baseToQuote then p.Q else p.B)
            && (gross > 0 && p.rState == RSTATE_ONE ==> gross <= if baseToQuote then p.Q0 else p.B0)
  {
    hide Solve, BackToOne, ReciprocalFloor;
    var inverse := ReciprocalFloor(p.i);
    if 0 < p.B0 && 0 < p.Q0 && 0 < p.B && 0 < p.Q {
      if baseToQuote {
        SolveIsBounded(p.Q0, p.Q0, amount, p.i, p.K);
        SolveIsBounded(p.Q0, p.Q, amount, p.i, p.K);
        BackToOneIsBounded(p.B0, p.B, p.Q0, p.Q, amount, p.i, p.K);
      } else {
        SolveIsBounded(p.B0, p.B0, amount, inverse, p.K);
        SolveIsBounded(p.B0, p.B, amount, inverse, p.K);
        BackToOneIsBounded(p.Q0, p.Q, p.B0, p.B, amount, inverse, p.K);
      }
    }
  }

  // From the boundary on, no trade is paid less than any smaller one, unless it is saturated and the
  // smaller one was already beyond the boundary and paid for it.
  lemma AcrossTheBoundary(x0: int, x: int, y0: int, y: int, small: int, large: int, i: int, k: int)
    requires x <= x0 && 0 < y0 <= y && small <= large && x0 - x <= large
    ensures BackToOne(x0, x, y0, y, small, i, k) <= BackToOne(x0, x, y0, y, large, i, k)
            <==> || !Saturated(y0, y0, large - (x0 - x), i, k)
                 || Solve(y0, y0, small - (x0 - x), i, k) == 0
  {
    hide Solve, GeneralIntegrate, Saturated;
    var pay := x0 - x;
    SolveIsBounded(y0, y0, small - pay, i, k);
    SolveIsBounded(y0, y0, large - pay, i, k);
    LargerTradePaysMore(y0, y0, small - pay, large - pay, i, k);
    NoTradeNoPay(y0, y0, small - pay, i, k);
    NoTradeNoPay(y0, y0, large - pay, i, k);
  }

  lemma NoTradeNoPay(v0: int, v1: int, delta: int, i: int, k: int)
    ensures delta <= 0 ==> Solve(v0, v1, delta, i, k) == 0
    ensures delta <= 0 ==> !Saturated(v0, v1, delta, i, k)
  {
  }

  // Short of the boundary rounding can cost a larger trade: here 8 units are paid less than 7.
  lemma ShortOfTheBoundaryRoundingShows()
    ensures BackToOne(11, 1, 1, 1000, 7, ONE, ONE) == 105
    ensures BackToOne(11, 1, 1, 1000, 8, ONE, ONE) == 104
  {
  }

  // --- Short of the boundary ---

  // The exact worth of a trade short of the boundary is ExactWorth over ONE2 * Pair.
  function Pair(x: int, amount: int): int {
    (x + amount) * x
  }

  function ExactWorth(x0: int, x: int, amount: int, i: int, k: int): int {
    i * amount * ((ONE - k) * Pair(x, amount) + k * (x0 * x0))
  }

  // What the roundings of a trade can take from its exact worth, less the last unit, in the same parts.
  function Slack(x: int, amount: int, i: int, k: int): int {
    i * amount * (k * (x + amount) + 2 * Pair(x, amount))
  }

  lemma WorthIsRoundedDown(x0: int, x: int, amount: int, i: int, k: int)
    requires 0 < x <= x0 && 0 <= amount && 0 < i && 0 <= k <= ONE
    ensures 0 < Pair(x, amount) && 0 <= Slack(x, amount, i, k)
    ensures var r := GeneralIntegrate(x0, x + amount, x, i, k);
            && r * (ONE2 * Pair(x, amount)) <= ExactWorth(x0, x, amount, i, k)
            && ExactWorth(x0, x, amount, i, k) - Slack(x, amount, i, k) < (r + 1) * (ONE2 * Pair(x, amount))
  {
    hide GeneralIntegrate;
    IntegralIsRoundedDown(x0, x + amount, x, i, k);
    MulMono(1, x + amount, x);
    MulMono(0, i, amount);
    MulMono(0, k, x + amount);
    MulMono(0, k * (x + amount) + 2 * Pair(x, amount), i * amount);
    Remainder(i * amount, (ONE - k) * Pair(x, amount) + k * (x0 * x0), k * (x + amount), 2 * Pair(x, amount));
  }

  lemma Remainder(fair: int, exact: int, a: int, b: int)
    ensures fair * (exact - a - b) == fair * exact - fair * (a + b)
  {
  }

  // The exact worth rises with the amount.
  lemma WorthRises(x0: int, x: int, small: int, large: int, i: int, k: int)
    requires 0 < x <= x0 && 0 <= small <= large && 0 < i && 0 <= k <= ONE
    ensures ExactWorth(x0, x, small, i, k) * Pair(x, large) <= ExactWorth(x0, x, large, i, k) * Pair(x, small)
  {
    var p, q, c, w := Pair(x, small), Pair(x, large), k * (x0 * x0), ONE - k;
    MulMono(1, x0, x0);
    MulMono(0, k, x0 * x0);
    MulMono(1, x + small, x);
    MulMono(1, x + large, x);
    MulMono(0, p, q);
    MulMono(0, w, p * q);
    MulMono(small, large, w * (p * q));
    CrossPairs(x, small, large);
    MulMono(small * q, large * p, c);
    Parts(small, w, p, q, c);
    Parts(large, w, q, p, c);
    assert p * q == q * p;
    MulMono(small * (w * p + c) * q, large * (w * q + c) * p, i);
    Regroup(i, small, (w * p + c) * q);
    assert i * small * (w * p + c) * q == i * (small * (w * p + c) * q) by {
      Regroup(i, small, w * p + c);
      Regroup(i, small * (w * p + c), q);
    }
    assert i * large * (w * q + c) * p == i * (large * (w * q + c) * p) by {
      Regroup(i, large, w * q + c);
      Regroup(i, large * (w * q + c), p);
    }
  }

  lemma CrossPairs(x: int, small: int, large: int)
    requires 0 < x && 0 <= small <= large
    ensures small * Pair(x, large) <= large * Pair(x, small)
  {
    MulMono(small, large, x * x);
  }

  lemma Parts(a: int, w: int, p: int, q: int, c: int)
    ensures a * (w * p + c) * q == a * (w * (p * q)) + a * q * c
  {
  }

  // Short of the boundary a larger trade is paid at most its own slack less than a smaller one, and one
  // unit more.
  lemma ShortOfTheBoundary(x0: int, x: int, y0: int, y: int, small: int, large: int, i: int, k: int)
    requires 0 < x && 0 < y0 <= y && 0 <= small <= large < x0 - x && 0 < i && 0 <= k <= ONE
    ensures var less := BackToOne(x0, x, y0, y, small, i, k) - BackToOne(x0, x, y0, y, large, i, k);
            (less - 1) * (ONE2 * Pair(x, large)) < Slack(x, large, i, k)
  {
    hide GeneralIntegrate, Slack, Pair, ExactWorth;
    WorthIsRoundedDown(x0, x, small, i, k);
    WorthIsRoundedDown(x0, x, large, i, k);
    WorthRises(x0, x, small, large, i, k);
    var r, r2 := GeneralIntegrate(x0, x + small, x, i, k), GeneralIntegrate(x0, x + large, x, i, k);
    Compare(r, Pair(x, small), ExactWorth(x0, x, small, i, k),
            r2, Pair(x, large), ExactWorth(x0, x, large, i, k), Slack(x, large, i, k));
    var less := BackToOne(x0, x, y0, y, small, i, k) - BackToOne(x0, x, y0, y, large, i, k);
    if 1 <= less {
      MulMono(less - 1, r - r2 - 1, ONE2 * Pair(x, large));
    } else {
      MulStrict(less - 1, 0, ONE2 * Pair(x, large));
    }
  }

  lemma Compare(r: int, p: int, worth: int, r2: int, p2: int, worth2: int, slack: int)
    requires 0 < p && 0 < p2 && worth * p2 <= worth2 * p
    requires r * (ONE2 * p) <= worth && worth2 - slack < (r2 + 1) * (ONE2 * p2)
    ensures (r - r2 - 1) * (ONE2 * p2) < slack
  {
    MulMono(r * (ONE2 * p), worth, p2);
    MulStrict(worth2, (r2 + 1) * (ONE2 * p2) + slack, p);
    assert r * (ONE2 * p) * p2 == r * (ONE2 * p2) * p;
    CancelLt(r * (ONE2 * p2), (r2 + 1) * (ONE2 * p2) + slack, p);
    Distribute(r, r2 + 1, ONE2 * p2);
  }

  // So it is paid no less wherever the exact worths differ by at least that slack.
  lemma WorthMoreIsPaidNoLess(x0: int, x: int, y0: int, y: int, small: int, large: int, i: int, k: int)
    requires 0 < x && 0 < y0 <= y && 0 <= small <= large < x0 - x && 0 < i && 0 <= k <= ONE
    requires ExactWorth(x0, x, small, i, k) * Pair(x, large)
             <= (ExactWorth(x0, x, large, i, k) - Slack(x, large, i, k)) * Pair(x, small)
    ensures BackToOne(x0, x, y0, y, small, i, k) <= BackToOne(x0, x, y0, y, large, i, k)
  {
    hide GeneralIntegrate, Slack, Pair, ExactWorth;
    WorthIsRoundedDown(x0, x, small, i, k);
    WorthIsRoundedDown(x0, x, large, i, k);
    var r, r2 := GeneralIntegrate(x0, x + small, x, i, k), GeneralIntegrate(x0, x + large, x, i, k);
    Compare(r, Pair(x, small), ExactWorth(x0, x, small, i, k),
            r2, Pair(x, large), ExactWorth(x0, x, large, i, k) - Slack(x, large, i, k), 0);
    if r2 < r {
      MulMono(0, r - r2 - 1, ONE2 * Pair(x, large));
    }
  }

  // In a pool without curvature no trade is paid less than a smaller one, on either side of the boundary.
  lemma FlatPoolIsMonotone(x0: int, x: int, y0: int, y: int, small: int, large: int, i: int)
    requires x <= x0 && 0 < y0 <= y && small <= large
    ensures BackToOne(x0, x, y0, y, small, i, 0) <= BackToOne(x0, x, y0, y, large, i, 0)
  {
    if x0 - x <= large {
      hide Solve, GeneralIntegrate;
      AcrossTheBoundary(x0, x, y0, y, small, large, i, 0);
    } else if 0 < i && 0 < x {
      FlatIntegralRises(x0, x, small, large, i);
    }
  }

  lemma FlatIntegralRises(v0: int, v2: int, small: int, large: int, i: int)
    requires 0 < i && small <= large
    ensures GeneralIntegrate(v0, v2 + small, v2, i, 0) <= GeneralIntegrate(v0, v2 + large, v2, i, 0)
  {
    MulMono(small, large, i);
    if 0 <= small {
      MulMono(0, small, i);
    } else if 0 <= large {
      MulMono(0, large, i);
    }
  }

  // --- Fees ---

  function AmountOut(p: Pool, amountIn: int, baseToQuote: bool): int {
    var gross := GrossOut(p, amountIn, baseToQuote);
    if gross <= 0 then 0
    else if p.lpFeeRate < 0 || p.mtFeeRate < 0 || p.lpFeeRate + p.mtFeeRate >= ONE then 0
    else gross - MulFloor(gross, p.lpFeeRate) - MulFloor(gross, p.mtFeeRate)
  }

  // The fees never take more than their share, and at most two units less than it; rates that are
  // negative or take everything are quoted nothing.
  lemma FeesTakeTheirShare(p: Pool, amountIn: int, baseToQuote: bool)
    ensures var gross, out := GrossOut(p, amountIn, baseToQuote), AmountOut(p, amountIn, baseToQuote);
            var one := 1_000_000_000_000_000_000;
            && 0 <= out <= gross
            && (if 0 <= p.lpFeeRate && 0 <= p.mtFeeRate && p.lpFeeRate + p.mtFeeRate < one then
                  var kept := gross * (one - p.lpFeeRate - p.mtFeeRate);
                  kept <= out * one < kept + 2 * one
                else out == 0)
  {
    PayoutIsCovered(p, amountIn, baseToQuote);
    hide GrossOut, MulFloor;
    var gross := GrossOut(p, amountIn, baseToQuote);
    if gross > 0 && 0 <= p.lpFeeRate && 0 <= p.mtFeeRate && p.lpFeeRate + p.mtFeeRate < ONE {
      ShareIsFloor(gross, p.lpFeeRate);
      ShareIsFloor(gross, p.mtFeeRate);
      TwoShares(gross, p.lpFeeRate, p.mtFeeRate, MulFloor(gross, p.lpFeeRate), MulFloor(gross, p.mtFeeRate));
    }
  }

  lemma ShareIsFloor(gross: int, rate: int)
    requires 0 <= gross && 0 <= rate
    ensures IsFloor(MulFloor(gross, rate), gross * rate, ONE) && 0 <= MulFloor(gross, rate)
  {
    MulMono(0, gross, rate);
    TDivFloor(gross * rate, ONE);
  }

  lemma TwoShares(gross: int, a: int, b: int, x: int, y: int)
    requires 0 <= gross && 0 <= a && 0 <= b && a + b < ONE && 0 <= x && 0 <= y
    requires IsFloor(x, gross * a, ONE) && IsFloor(y, gross * b, ONE)
    ensures var kept := gross * (ONE - a - b);
            && 0 <= gross - x - y
            && kept <= (gross - x - y) * ONE < kept + 2 * ONE
  {
    MulMono(a + b, ONE, gross);
    assert gross * (ONE - a - b) == gross * ONE - gross * a - gross * b;
    assert gross * (a + b) == gross * a + gross * b;
  }
}
