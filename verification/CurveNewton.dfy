/** src/math/curve.ts, the loop of getY: Newton's method on y * y - t * y - c, rounded down at every step. */
module CurveNewton {
  import opened IntMath

  // The quadratic whose positive root is the new output balance; t is D - b.
  function F(y: int, t: int, c: int): int {
    y * y - t * y - c
  }

  // What every iterate satisfies: y >= max(0, t), and the next denominator 2y - t is positive.
  predicate Fit(y: int, t: int, c: int) {
    0 <= c && 0 <= y && t <= y && 0 < 2 * y - t
  }

  function Next(y: int, t: int, c: int): int
    requires 0 < 2 * y - t
  {
    TDiv(y * y + c, 2 * y - t)
  }

  predicate Close(a: int, b: int) {
    -1 <= a - b <= 1
  }

  lemma SquareOfDifference(a: int, b: int)
    ensures (a - b) * (a - b) == a * a - 2 * a * b + b * b
    ensures 0 <= (a - b) * (a - b)
  {
  }

  lemma NextIsFloor(y: int, t: int, c: int)
    requires Fit(y, t, c)
    ensures 0 <= Next(y, t, c)
    ensures IsFloor(Next(y, t, c), y * y + c, 2 * y - t)
  {
    MulMono(0, y, y);
    TDivFloor(y * y + c, 2 * y - t);
  }

  lemma Expand(q: int, y: int, t: int)
    ensures q * (2 * y - t) == 2 * (q * y) - t * q
  {
  }

  lemma LandsBelow(q: int, y: int, t: int, c: int)
    requires q * (2 * y - t) <= y * y + c
    ensures F(q, t, c) <= (q - y) * (q - y)
  {
  }

  lemma LandsAbove(z: int, y: int, t: int, c: int)
    requires y * y + c < z * (2 * y - t)
    ensures 0 < F(z, t, c)
  {
  }

  // A step from anywhere lands at least at the root, rounded down, and overshoots by no more than the
  // square of its length.
  lemma StepBrackets(y: int, t: int, c: int)
    requires Fit(y, t, c)
    ensures var q := Next(y, t, c);
            F(q, t, c) <= (q - y) * (q - y) && 0 < F(q + 1, t, c)
  {
    hide Next, F, Fit;
    NextIsFloor(y, t, c);
    LandsBelow(Next(y, t, c), y, t, c);
    LandsAbove(Next(y, t, c) + 1, y, t, c);
  }

  // Below the step there is room for anything up to t.
  lemma StaysAbove(q: int, y: int, t: int, c: int)
    requires 0 <= c && 0 < 2 * y - t && y * y + c < (q + 1) * (2 * y - t)
    ensures t <= q
  {
    Expand(t, y, t);
    SquareOfDifference(y, t);
    CancelLt(t, q + 1, 2 * y - t);
  }

  // With t = 0 a step reaches zero only from one.
  lemma ZeroOnlyFromOne(q: int, y: int, c: int)
    requires 0 <= c && 0 < y && y * y + c < (q + 1) * (2 * y)
    ensures q <= 0 ==> y <= 1
  {
  }

  // A step never falls below max(0, t), and unless it is the last one the next denominator is positive.
  lemma StepFits(y: int, t: int, c: int)
    requires Fit(y, t, c)
    ensures var q := Next(y, t, c);
            0 <= q && t <= q && (!Close(q, y) ==> Fit(q, t, c))
  {
    hide Next;
    NextIsFloor(y, t, c);
    StaysAbove(Next(y, t, c), y, t, c);
    if t == 0 {
      ZeroOnlyFromOne(Next(y, t, c), y, c);
    }
  }

  // The loop: stop at the first step of length at most one, or after n steps.
  function Descend(step: int -> int, y: int, n: nat): int
    decreases n
  {
    if n == 0 then y
    else
      var q := step(y);
      if Close(q, y) then q else Descend(step, q, n - 1)
  }

  // The step of getY, for the denominators it meets.
  function NewtonStep(t: int, c: int): int -> int {
    (y: int) => if 0 < 2 * y - t then Next(y, t, c) else y
  }

  // Whatever the number of steps, the result is at least max(0, t), and never below the root rounded
  // down.
  lemma {:induction false} DescendStaysAbove(y: int, t: int, c: int, n: nat)
    requires Fit(y, t, c)
    ensures var r := Descend(NewtonStep(t, c), y, n);
            0 <= r && t <= r && (0 < n || 0 < F(y + 1, t, c) ==> 0 < F(r + 1, t, c))
    decreases n
  {
    hide F, Next;
    if n > 0 {
      var q := Next(y, t, c);
      assert NewtonStep(t, c)(y) == q;
      StepBrackets(y, t, c);
      StepFits(y, t, c);
      if !Close(q, y) {
        DescendStaysAbove(q, t, c, n - 1);
      }
    }
  }

  // --- How fast it settles ---

  // w is the positive root rounded down.
  predicate IsRoot(w: int, t: int, c: int) {
    0 <= w && t <= w && F(w, t, c) <= 0 < F(w + 1, t, c)
  }

  lemma FIncreases(a: int, b: int, t: int, c: int)
    requires 0 <= a <= b && t <= a
    ensures F(a, t, c) <= F(b, t, c)
  {
  }

  lemma AboveRoot(q: int, w: int, t: int, c: int)
    requires IsRoot(w, t, c) && 0 <= q && t <= q && 0 < F(q + 1, t, c)
    ensures w <= q
  {
  }

  // The distance to the root at least halves; from the root itself a step is at most one long.
  lemma StepHalves(y: int, t: int, c: int, w: int)
    requires Fit(y, t, c) && IsRoot(w, t, c) && w <= y
    ensures var q := Next(y, t, c);
            w <= q && (y == w ==> Close(q, y)) && (w < y ==> 2 * (q - w) <= y - w)
  {
    hide Next, F;
    var q := Next(y, t, c);
    NextIsFloor(y, t, c);
    StepBrackets(y, t, c);
    StepFits(y, t, c);
    AboveRoot(q, w, t, c);
    HalvingSum(w, y - w, t, c, q);
    HalfOf(q - w, y - w, 2 * w - t);
  }

  lemma HalfOf(m: int, e: int, s: int)
    requires 0 <= e && 0 <= s && m * (2 * e + s) <= e * e + s
    ensures e == 0 && 0 < s ==> m <= 1
    ensures 0 < e ==> 2 * m <= e
  {
    if e == 0 {
      if 0 < s {
        CancelLe(m, 1, s);
      }
    } else {
      assert (e + 1) * (2 * e + s) == 2 * (e * e) + 2 * e + e * s + s;
      MulMono(1, e, s);
      assert m * (2 * e + s) * 2 == (2 * m) * (2 * e + s);
      CancelLt(2 * m, e + 1, 2 * e + s);
    }
  }

  lemma HalvingSum(w: int, e: int, t: int, c: int, q: int)
    requires 0 < F(w + 1, t, c) && q * (2 * (w + e) - t) <= (w + e) * (w + e) + c
    ensures (q - w) * (2 * e + (2 * w - t)) <= e * e + (2 * w - t)
  {
  }

  // A step that at least halves the distance to w, and from w itself is at most one long.
  predicate Halves(step: int -> int, w: int, x: int) {
    && w <= step(x) && (x == w ==> Close(step(x), x)) && (w < x ==> 2 * (step(x) - w) <= x - w)
  }

  // Started fewer than 2^n above w, n such steps settle: the result is w, or the last step p -> r was
  // at most one long.
  lemma {:induction false} DescendSettles(step: int -> int, y: int, n: nat, w: int) returns (p: int)
    requires w <= y < w + Pow2(n) && forall x :: w <= x ==> Halves(step, w, x)
    ensures var r := Descend(step, y, n); r == w || (w <= p && r == step(p) && Close(r, p))
    decreases n
  {
    p := y;
    if n > 0 {
      assert Halves(step, w, y);
      if !Close(step(y), y) {
        p := DescendSettles(step, step(y), n - 1, w);
      }
    }
  }

  // Newton's step is one, for the root rounded down; the result overshoots F by at most one.
  lemma NewtonSettles(y: int, t: int, c: int, n: nat, w: int)
    requires Fit(y, t, c) && IsRoot(w, t, c) && w <= y < w + Pow2(n)
    ensures F(Descend(NewtonStep(t, c), y, n), t, c) <= 1
  {
    hide Next, Pow2, Descend;
    var step := NewtonStep(t, c);
    forall x | w <= x
      ensures Halves(step, w, x)
    {
      if 0 < 2 * x - t {
        StepHalves(x, t, c, w);
      }
    }
    var p := DescendSettles(step, y, n, w);
    LastStepIsShort(p, Descend(step, y, n), t, c, w);
  }

  lemma LastStepIsShort(p: int, r: int, t: int, c: int, w: int)
    requires 0 <= c && IsRoot(w, t, c) && (r == w || (w <= p && r == NewtonStep(t, c)(p) && Close(r, p)))
    ensures F(r, t, c) <= 1
  {
    hide Next, F;
    if r != w && 0 < 2 * p - t {
      StepBrackets(p, t, c);
      ShortSquare(r - p);
    }
  }

  lemma ShortSquare(d: int)
    requires -1 <= d <= 1
    ensures d * d <= 1
  {
  }

  lemma RootExists(t: int, c: int) returns (w: int)
    requires 0 <= c
    ensures IsRoot(w, t, c)
  {
    var lo := if t > 0 then t else 0;
    w := RootFrom(lo, t, c);
  }

  lemma RootFrom(lo: int, t: int, c: int) returns (w: int)
    requires 0 <= c && 0 <= lo && t <= lo && F(lo, t, c) <= 0
    ensures IsRoot(w, t, c)
    decreases c + (if t > 0 then t else 0) + 1 - lo
  {
    if 0 < F(lo + 1, t, c) {
      w := lo;
    } else {
      RootIsBounded(lo + 1, t, c);
      w := RootFrom(lo + 1, t, c);
    }
  }

  lemma RootIsBounded(y: int, t: int, c: int)
    requires 0 <= c && 0 <= y && F(y, t, c) <= 0
    ensures y <= c + (if t > 0 then t else 0) + 1
  {
    assert y * (y - t) == y * y - t * y;
    if y > c + (if t > 0 then t else 0) + 1 {
      MulMono(1, y, y - t);
    }
  }

  // From D, 255 steps settle whenever D and the first iterate are below 2^254.
  lemma SettlesFrom(d: int, t: int, c: int)
    requires Fit(d, t, c) && d < Pow2(254) && Next(d, t, c) < Pow2(254)
    ensures F(Descend(NewtonStep(t, c), d, 255), t, c) <= 1
  {
    hide F, Pow2, Next;
    var w := RootExists(t, c);
    assert Pow2(255) == 2 * Pow2(254) by { DoublePow2(254); }
    if w <= d {
      NewtonSettles(d, t, c, 255, w);
    } else {
      var q := Next(d, t, c);
      StepBrackets(d, t, c);
      StepFits(d, t, c);
      AboveRoot(q, w, t, c);
      if Close(q, d) {
        ShortSquare(q - d);
      } else {
        NewtonSettles(q, t, c, 254, w);
      }
    }
  }

  lemma DoublePow2(n: nat)
    ensures Pow2(n + 1) == 2 * Pow2(n)
  {
  }

  // A settled result is the root rounded down, or one more, and then F is exactly one there.
  lemma SettledIsRoot(r: int, t: int, c: int, w: int)
    requires IsRoot(w, t, c) && 0 <= r && t <= r && F(r, t, c) <= 1 && 0 < F(r + 1, t, c)
    ensures r == w || (r == w + 1 && F(r, t, c) == 1)
  {
    AboveRoot(r, w, t, c);
    assert (w + 2) * (w + 2) == (w + 1) * (w + 1) + 2 * (w + 1) + 1;
    assert t * (w + 2) == t * (w + 1) + t;
    if r > w + 1 {
      FIncreases(w + 2, r, t, c);
    } else if r == w + 1 {
      assert F(r, t, c) > 0;
    }
  }

  // Less to pay for means a root no larger, up to the one of rounding.
  lemma SettledIsMonotone(r: int, t: int, c: int, r2: int, t2: int, c2: int)
    requires t2 <= t && c2 <= c
    requires 0 <= r && t <= r && 0 < F(r + 1, t, c)
    requires 0 <= r2 && F(r2, t2, c2) <= 1
    ensures r2 <= r + 1
  {
    if r2 > r + 1 {
      FIncreases(r + 2, r2, t, c);
      assert (r + 2) * (r + 2) == (r + 1) * (r + 1) + 2 * (r + 1) + 1;
      assert t * (r + 2) == t * (r + 1) + t;
      MulMono(t2, t, r2);
    }
  }
}
