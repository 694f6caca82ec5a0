/** src/math/curve.ts, getD: when the iteration for the invariant throws, and when it cannot. */
module CurveInvariant {
  import opened IntMath
  import opened Outcomes
  import opened CurveNewton
  import opened Curve

  lemma {:induction false} DPIsBounded(xp: seq<int>, d: int, k: nat)
    requires Positive(xp) && 2 <= |xp| && 0 < d && k <= |xp|
    ensures 0 <= DP(xp, d, k) && (d <= |xp| ==> DP(xp, d, k) <= d)
  {
    hide TDiv;
    if k > 0 {
      DPIsBounded(xp, d, k - 1);
      DPShrinks(DP(xp, d, k - 1), d, xp[k - 1], |xp|);
    }
  }

  lemma DPShrinks(dp: int, d: int, x: int, n: int)
    requires 0 <= dp && 0 < d && 0 < x && 2 <= n
    ensures 0 < x * n && 0 <= TDiv(dp * d, x * n) && (d <= n ==> TDiv(dp * d, x * n) <= dp)
  {
    hide TDiv;
    MulMono(1, x, n);
    MulMono(0, dp, d);
    TDivFloor(dp * d, x * n);
    if d <= n {
      MulMono(d, x * n, dp);
      FloorGe(TDiv(dp * d, x * n), dp * d, x * n, dp + 1);
      Distribute(dp, 1, x * n);
    }
  }

  // A step from a positive iterate throws exactly when D_P has been rounded to nothing and the linear
  // part rounds to nothing too.
  lemma StepThrowsExactly(xp: seq<int>, A: int, d: int)
    requires Positive(xp) && 2 <= |xp| && A_PRECISION <= A * |xp| && 0 < d
    ensures DStep(xp, A, d).Err? <==> DP(xp, d, |xp|) == 0 && (A * |xp| - A_PRECISION) * d < A_PRECISION
  {
    hide TDiv, DP;
    var n, ann := |xp|, A * |xp|;
    DPIsBounded(xp, d, n);
    MulMono(0, ann - A_PRECISION, d);
    TDivFloor((ann - A_PRECISION) * d, A_PRECISION);
    MulMono(0, DP(xp, d, n), n + 1);
    if 0 < DP(xp, d, n) {
      MulMono(1, DP(xp, d, n), n + 1);
    }
  }

  // From the number of coins on, an iterate never falls below it.
  lemma StepStaysAboveCoins(xp: seq<int>, A: int, d: int)
    requires Positive(xp) && 2 <= |xp| && A_PRECISION <= A * |xp| && |xp| <= d && DStep(xp, A, d).Ok?
    ensures |xp| <= DStep(xp, A, d).value
  {
    hide TDiv, DP, Sum;
    var n, ann, dp := |xp|, A * |xp|, DP(xp, d, |xp|);
    DPIsBounded(xp, d, n);
    SumIsLarge(xp);
    MulMono(n, Sum(xp), ann);
    MulMono(0, ann, n);
    MulMono(0, ann - A_PRECISION, d);
    TDivFloor(ann * Sum(xp), A_PRECISION);
    TDivFloor((ann - A_PRECISION) * d, A_PRECISION);
    var f, g := TDiv(ann * Sum(xp), A_PRECISION), TDiv((ann - A_PRECISION) * d, A_PRECISION);
    var denominator := g + (n + 1) * dp;
    MulMono(0, dp, n + 1);
    TimesFits(f, g, ann, d, n, dp);
    TDivFloor((f + dp * n) * d, denominator);
    FloorGe(TDiv((f + dp * n) * d, denominator), (f + dp * n) * d, denominator, n);
  }

  lemma TimesFits(f: int, g: int, ann: int, d: int, n: int, dp: int)
    requires A_PRECISION <= ann && 2 <= n <= d && 0 <= dp && 0 <= g && (d == n ==> dp <= n)
    requires n * ann < (f + 1) * A_PRECISION && g * A_PRECISION <= (ann - A_PRECISION) * d
    ensures 0 <= (f + dp * n) * d && n * (g + (n + 1) * dp) <= (f + dp * n) * d
  {
    var m := n * ann;
    assert (ann - A_PRECISION) * n == m - A_PRECISION * n;
    assert 0 <= f by { MulMono(A_PRECISION, ann, n); }
    MulMono(0, dp, n);
    MulMono(0, f + dp * n, d);
    assert (n + 1) * dp == dp * n + dp;
    if d == n {
      assert g + (n + 1) * dp <= f + dp * n;
      MulMono(g + (n + 1) * dp, f + dp * n, n);
    } else {
      MulMono(n, d - 1, dp * n);
      assert n * ((n + 1) * dp) <= dp * n * d;
      LinearFits(f, g, ann, d, n);
      Distribute(f, dp * n, d);
      Distribute(g, (n + 1) * dp, n);
    }
  }

  lemma LinearFits(f: int, g: int, ann: int, d: int, n: int)
    requires A_PRECISION <= ann && 2 <= n <= d && 0 <= g && 0 <= f
    requires n * ann < (f + 1) * A_PRECISION && g * A_PRECISION <= (ann - A_PRECISION) * d
    ensures n * g <= f * d
  {
    var k := ann - A_PRECISION;
    assert n * k == n * ann - n * A_PRECISION;
    assert n * k <= f * A_PRECISION;
    MulMono(g * A_PRECISION, k * d, n);
    MulMono(n * k, f * A_PRECISION, d);
    Regroup(n, k, d);
    assert n * g * A_PRECISION <= f * d * A_PRECISION;
  }

  lemma {:induction false} SumIsLarge(s: seq<int>)
    requires Positive(s)
    ensures |s| <= Sum(s)
  {
    if s != [] {
      SumIsLarge(s[..|s| - 1]);
    }
  }

  // No step then divides by zero: (A * n - 100) * n of 100 or more.
  predicate Amplified(A: int, n: int) {
    A_PRECISION <= A * n && A_PRECISION <= (A * n - A_PRECISION) * n
  }

  lemma {:induction false} LoopNeverThrows(xp: seq<int>, A: int, d: int, steps: nat)
    requires Positive(xp) && 2 <= |xp| && Amplified(A, |xp|) && |xp| <= d
    ensures DLoop(xp, A, d, steps).Ok? && |xp| <= DLoop(xp, A, d, steps).value
    decreases steps
  {
    hide DStep, DP;
    if steps > 0 {
      StepThrowsExactly(xp, A, d);
      MulMono(|xp|, d, A * |xp| - A_PRECISION);
      StepStaysAboveCoins(xp, A, d);
      var next := DStep(xp, A, d).value;
      if !Close(next, d) {
        LoopNeverThrows(xp, A, next, steps - 1);
      }
    }
  }

  // With that amplification no quote throws, for any pool, amount or pair of coins: from A * n = 150 up
  // for two coins, 134 for three, 125 for four, and less the more there are.
  lemma QuoteNeverThrows(amountIn: int, pool: Pool, i: int, j: int)
    requires Amplified(pool.A, |pool.balances|)
    ensures AmountOut(amountIn, pool, i, j).Ok?
  {
    hide DLoop;
    if 0 < amountIn && Quotable(pool, i, j) {
      var xp := ToXp(pool.balances, pool.rates);
      SumIsLarge(xp);
      LoopNeverThrows(xp, pool.A, Sum(xp), MAX_ITERATIONS);
    }
  }

  // --- What the invariant means ---

  // The product of n times each of the first k balances.
  function Denominators(xp: seq<int>, k: nat): (p: int)
    requires Positive(xp) && k <= |xp|
    ensures 0 < p
  {
    if k == 0 then 1
    else
      MulMono(1, xp[k - 1], |xp|);
      MulMono(1, xp[k - 1] * |xp|, Denominators(xp, k - 1));
      xp[k - 1] * |xp| * Denominators(xp, k - 1)
  }

  // What the roundings of D_P take, in units of that product.
  function Lost(xp: seq<int>, d: nat, k: nat): (lost: int)
    requires Positive(xp) && k <= |xp|
    ensures 0 <= lost
  {
    if k == 0 then 0
    else
      MulMono(0, Lost(xp, d, k - 1), d);
      Lost(xp, d, k - 1) * d + Denominators(xp, k)
  }

  // D_P is D to one more than the number of coins over the product of n times the balances, rounded down
  // on the way.
  lemma {:induction false} DPIsThePower(xp: seq<int>, d: nat, k: nat)
    requires Positive(xp) && 0 < d && k <= |xp|
    ensures 0 <= DP(xp, d, k)
    ensures DP(xp, d, k) * Denominators(xp, k) <= Pow(d, k + 1)
    ensures Pow(d, k + 1) <= DP(xp, d, k) * Denominators(xp, k) + Lost(xp, d, k)
  {
    hide TDiv;
    if k > 0 {
      DPIsThePower(xp, d, k - 1);
      var x := xp[k - 1] * |xp|;
      MulMono(1, xp[k - 1], |xp|);
      MulMono(0, DP(xp, d, k - 1), d);
      TDivFloor(DP(xp, d, k - 1) * d, x);
      PowerStep(DP(xp, d, k - 1), d, x, Denominators(xp, k - 1), Pow(d, k), Lost(xp, d, k - 1), DP(xp, d, k));
    }
  }

  lemma PowerStep(c: int, d: int, x: int, p: int, e: int, lost: int, next: int)
    requires 0 < d && 0 < x && 0 < p && c * p <= e <= c * p + lost && IsFloor(next, c * d, x)
    ensures next * (x * p) <= d * e <= next * (x * p) + (lost * d + x * p)
  {
    MulMono(next * x, c * d, p);
    MulMono(c * d, (next + 1) * x, p);
    MulMono(c * p, e, d);
    MulMono(e, c * p + lost, d);
    assert next * x * p == next * (x * p) && (next + 1) * x * p == next * (x * p) + x * p;
    assert c * d * p == c * p * d;
    Distribute(c * p, lost, d);
  }

  // How the invariant is reached: step by step from the sum, each step but the last longer than one, until
  // one is no longer than that, one throws, or 255 are made.
  lemma InvariantIsReached(xp: seq<int>, A: int) returns (ds: seq<int>)
    requires Positive(xp) && xp != []
    ensures 1 <= |ds| <= 256 && ds[0] == Sum(xp)
    ensures forall k :: 0 < k < |ds| ==> DStep(xp, A, ds[k - 1]) == Ok(ds[k])
    ensures forall k :: 0 < k < |ds| - 1 ==> !(-1 <= ds[k] - ds[k - 1] <= 1)
    ensures var r, last := Invariant(xp, A), |ds| - 1;
            if r.Ok? then r.value == ds[last] && (last == 255 || (0 < last && -1 <= ds[last] - ds[last - 1] <= 1))
            else last < 255 && DStep(xp, A, ds[last]) == r && (0 < last ==> !(-1 <= ds[last] - ds[last - 1] <= 1))
  {
    hide DStep, DLoop;
    SumIsLarge(xp);
    ds := Reaches(xp, A, Sum(xp), 255);
  }

  lemma {:induction false} Reaches(xp: seq<int>, A: int, d: int, steps: nat) returns (ds: seq<int>)
    requires Positive(xp)
    ensures 1 <= |ds| <= steps + 1 && ds[0] == d
    ensures forall k :: 0 < k < |ds| ==> DStep(xp, A, ds[k - 1]) == Ok(ds[k])
    ensures forall k :: 0 < k < |ds| - 1 ==> !(-1 <= ds[k] - ds[k - 1] <= 1)
    ensures var r, last := DLoop(xp, A, d, steps), |ds| - 1;
            if r.Ok? then r.value == ds[last] && (last == steps || (0 < last && -1 <= ds[last] - ds[last - 1] <= 1))
            else last < steps && DStep(xp, A, ds[last]) == r && (0 < last ==> !(-1 <= ds[last] - ds[last - 1] <= 1))
    decreases steps
  {
    hide DStep;
    ds := [d];
    if steps > 0 && DStep(xp, A, d).Ok? {
      var next := DStep(xp, A, d).value;
      if Close(next, d) {
        ds := [d, next];
      } else {
        var rest := Reaches(xp, A, next, steps - 1);
        ds := [d] + rest;
      }
    }
  }

  // Where the iteration stops, the invariant holds up to the rounding of its last step: A n times the
  // sum is (A n - 100) times D and 100 times D_P, all in hundredths, within two denominators over D.
  lemma StoppedAtInvariant(xp: seq<int>, A: int, d: int) returns (f: int, g: int)
    requires Positive(xp) && 2 <= |xp| && 100 <= A * |xp| && 0 < d
    ensures IsFloor(f, A * |xp| * Sum(xp), 100) && IsFloor(g, (A * |xp| - 100) * d, 100)
    ensures var r := DStep(xp, A, d);
            var dp := DP(xp, d, |xp|);
            var denominator := g + (|xp| + 1) * dp;
            && (r.Err? <==> denominator == 0)
            && (r.Ok? && -1 <= r.value - d <= 1 ==>
                  0 < denominator && -denominator <= (f - g - dp) * d < 2 * denominator)
  {
    hide TDiv, DP, Sum, DStep;
    var n, ann, dp := |xp|, A * |xp|, DP(xp, d, |xp|);
    DPIsBounded(xp, d, n);
    SumIsLarge(xp);
    MulMono(0, ann, Sum(xp));
    MulMono(0, ann - 100, d);
    TDivFloor(ann * Sum(xp), A_PRECISION);
    TDivFloor((ann - 100) * d, A_PRECISION);
    f, g := TDiv(ann * Sum(xp), A_PRECISION), TDiv((ann - 100) * d, A_PRECISION);
    StepInParts(xp, A, d, f, g);
    MulMono(0, dp, n + 1);
    MulMono(0, dp, n);
    MulMono(0, f + dp * n, d);
    if g + (n + 1) * dp != 0 {
      QuotientInParts((f + dp * n) * d, g + (n + 1) * dp);
      var r := DStep(xp, A, d);
      if -1 <= r.value - d <= 1 {
        Residual(f, g, dp, n, d, r.value);
      }
    }
  }

  lemma QuotientInParts(a: int, b: int)
    requires 0 <= a && 0 < b
    ensures IsFloor(TDiv(a, b), a, b)
  {
    TDivFloor(a, b);
  }

  lemma StepInParts(xp: seq<int>, A: int, d: int, f: int, g: int)
    requires Positive(xp)
    requires f == TDiv(A * |xp| * Sum(xp), A_PRECISION) && g == TDiv((A * |xp| - A_PRECISION) * d, A_PRECISION)
    ensures var dp := DP(xp, d, |xp|);
            var denominator := g + (|xp| + 1) * dp;
            DStep(xp, A, d) == if denominator == 0 then Err("RangeError: Division by zero")
                               else Ok(TDiv((f + dp * |xp|) * d, denominator))
  {
    hide TDiv, DP, Sum;
  }

  lemma Residual(f: int, g: int, dp: int, n: int, d: int, q: int)
    requires 0 < g + (n + 1) * dp && IsFloor(q, (f + dp * n) * d, g + (n + 1) * dp) && -1 <= q - d <= 1
    ensures -(g + (n + 1) * dp) <= (f - g - dp) * d < 2 * (g + (n + 1) * dp)
  {
    var den := g + (n + 1) * dp;
    MulMono(d - 1, q, den);
    MulMono(q, d + 1, den);
    assert (f + dp * n) * d == (f - g - dp) * d + d * den;
    Distribute(d, 1, den);
    assert (q + 1) * den == q * den + den;
  }

  // --- Balances that are not tiny ---

  // Every balance is at least K * (n + 1) / (n * n).
  predicate Rich(xp: seq<int>, K: int) {
    forall k :: 0 <= k < |xp| ==> K * (|xp| + 1) <= |xp| * |xp| * xp[k]
  }

  lemma {:induction false} SumOfRich(s: seq<int>, least: int, w: int)
    requires forall k :: 0 <= k < |s| ==> least <= w * s[k]
    ensures |s| * least <= w * Sum(s)
  {
    if s != [] {
      SumOfRich(s[..|s| - 1], least, w);
      assert w * Sum(s) == w * Sum(s[..|s| - 1]) + w * s[|s| - 1];
    }
  }

  lemma {:induction false} DPOfSmall(xp: seq<int>, d: int, k: nat)
    requires Positive(xp) && 2 <= |xp| && 0 < d && k <= |xp|
    requires forall j :: 0 <= j < |xp| ==> d <= xp[j] * |xp|
    ensures 0 <= DP(xp, d, k) <= d
  {
    hide TDiv;
    if k > 0 {
      DPOfSmall(xp, d, k - 1);
      var t, x := DP(xp, d, k - 1), xp[k - 1] * |xp|;
      MulMono(0, t, d);
      MulMono(d, x, t);
      TDivFloor(t * d, x);
      FloorGe(TDiv(t * d, x), t * d, x, t + 1);
      Distribute(t, 1, x);
    }
  }

  // On such a pool an iterate never falls below K.
  lemma StepStaysAboveRich(xp: seq<int>, A: int, d: int, K: int)
    requires Positive(xp) && 2 <= |xp| && A_PRECISION <= A * |xp| && Rich(xp, K) && 1 <= K <= d && DStep(xp, A, d).Ok?
    ensures K <= DStep(xp, A, d).value
  {
    hide TDiv, DP, Sum, DStep, Rich;
    var n, ann, dp := |xp|, A * |xp|, DP(xp, d, |xp|);
    DPIsBounded(xp, d, n);
    RichSum(xp, K);
    MulMono(K + 1, Sum(xp), ann);
    MulMono(0, ann, Sum(xp));
    MulMono(0, ann - A_PRECISION, d);
    TDivFloor(ann * Sum(xp), A_PRECISION);
    TDivFloor((ann - A_PRECISION) * d, A_PRECISION);
    var f, g := TDiv(ann * Sum(xp), A_PRECISION), TDiv((ann - A_PRECISION) * d, A_PRECISION);
    StepInParts(xp, A, d, f, g);
    if n * d < (n + 1) * K {
      SmallIsBelow(xp, d, K);
      DPOfSmall(xp, d, n);
    }
    MulMono(0, dp, n + 1);
    assert ann * (K + 1) == K * ann + ann;
    RichFits(f, g, ann, d, n, dp, K);
    AtLeastTimes((f + dp * n) * d, g + (n + 1) * dp, K);
  }

  lemma AtLeastTimes(a: int, b: int, k: int)
    requires 0 <= a && 0 < b && k * b <= a
    ensures k <= TDiv(a, b)
  {
    TDivFloor(a, b);
    FloorGe(TDiv(a, b), a, b, k);
  }

  lemma RichSum(xp: seq<int>, K: int)
    requires Rich(xp, K) && 2 <= |xp| && 1 <= K
    ensures K + 1 <= Sum(xp)
  {
    hide Sum;
    var n := |xp|;
    SumOfRich(xp, K * (n + 1), n * n);
    Exceeds(n, K, Sum(xp));
  }

  lemma Exceeds(n: int, K: int, sum: int)
    requires 2 <= n && 1 <= K && n * (K * (n + 1)) <= n * n * sum
    ensures K + 1 <= sum
  {
    Regroup(n, n, sum);
    CancelLe(K * (n + 1), n * sum, n) by {
      assert n * (K * (n + 1)) == K * (n + 1) * n && n * (n * sum) == n * sum * n;
    }
    if sum <= K {
      MulMono(sum, K, n);
    }
  }

  lemma SmallIsBelow(xp: seq<int>, d: int, K: int)
    requires Rich(xp, K) && |xp| * d < (|xp| + 1) * K
    ensures forall j :: 0 <= j < |xp| ==> d <= xp[j] * |xp|
  {
    var n := |xp|;
    forall j | 0 <= j < n
      ensures d <= xp[j] * n
    {
      assert n * n * xp[j] == xp[j] * n * n;
      CancelLt(d, xp[j] * n, n);
    }
  }

  lemma RichFits(f: int, g: int, ann: int, d: int, n: int, dp: int, K: int)
    requires A_PRECISION <= ann && 2 <= n && 1 <= K <= d && 0 <= dp && 0 <= g
    requires n * d < (n + 1) * K ==> dp <= d
    requires K * ann < f * A_PRECISION && g * A_PRECISION <= (ann - A_PRECISION) * d
    ensures 0 <= (f + dp * n) * d && K * (g + (n + 1) * dp) <= (f + dp * n) * d
  {
    MulMono(0, K, ann);
    MulMono(0, dp, n);
    MulMono(0, f + dp * n, d);
    LinearRoom(f, g, ann, d, K);
    RoundedRoom(d, n, dp, K);
    Distribute(f, dp * n, d);
    Distribute(g, (n + 1) * dp, K);
  }

  lemma LinearRoom(f: int, g: int, ann: int, d: int, K: int)
    requires 1 <= K <= d && K * ann < f * A_PRECISION && g * A_PRECISION <= (ann - A_PRECISION) * d
    ensures K * g + K * d <= f * d
  {
    MulMono(K * ann, f * A_PRECISION, d);
    MulMono(g * A_PRECISION, (ann - A_PRECISION) * d, K);
    assert (ann - A_PRECISION) * d * K == K * ann * d - A_PRECISION * (K * d);
    assert f * A_PRECISION * d == f * d * A_PRECISION && g * A_PRECISION * K == K * g * A_PRECISION;
  }

  lemma RoundedRoom(d: int, n: int, dp: int, K: int)
    requires 2 <= n && 1 <= K <= d && 0 <= dp && (n * d < (n + 1) * K ==> dp <= d)
    ensures (n + 1) * dp * K <= dp * n * d + K * d
  {
    assert (n + 1) * dp * K == dp * ((n + 1) * K) && dp * n * d == dp * (n * d);
    if n * d < (n + 1) * K {
      MulMono(K, d, n);
      assert (n + 1) * K == n * K + K;
      MulMono((n + 1) * K, n * d + K, dp);
      MulMono(dp, d, K);
      assert dp * (n * d + K) == dp * (n * d) + dp * K;
    } else {
      MulMono((n + 1) * K, n * d, dp);
      MulMono(0, K, d);
    }
  }

  lemma {:induction false} RichLoopNeverThrows(xp: seq<int>, A: int, d: int, K: int, steps: nat)
    requires Positive(xp) && 2 <= |xp| && A_PRECISION < A * |xp| && Rich(xp, K) && 1 <= K <= d
    requires A_PRECISION <= (A * |xp| - A_PRECISION) * K
    ensures DLoop(xp, A, d, steps).Ok?
    decreases steps
  {
    hide DStep, DP;
    if steps > 0 {
      StepThrowsExactly(xp, A, d);
      MulMono(K, d, A * |xp| - A_PRECISION);
      StepStaysAboveRich(xp, A, d, K);
      var next := DStep(xp, A, d).value;
      if !Close(next, d) {
        RichLoopNeverThrows(xp, A, next, K, steps - 1);
      }
    }
  }

  // Where the balances are not tiny a quote never throws either, at any A * n above 100: 75 is enough
  // for every scaled balance.
  lemma RichPoolNeverThrows(amountIn: int, pool: Pool, i: int, j: int)
    requires A_PRECISION < pool.A * |pool.balances|
    requires |pool.balances| == |pool.rates| ==> forall x :: x in ToXp(pool.balances, pool.rates) ==> 75 <= x
    ensures AmountOut(amountIn, pool, i, j).Ok?
  {
    hide DLoop;
    if 0 < amountIn && Quotable(pool, i, j) {
      var xp := ToXp(pool.balances, pool.rates);
      var n := |xp|;
      forall k | 0 <= k < n
        ensures 100 * (n + 1) <= n * n * xp[k]
      {
        assert xp[k] in xp;
        MulMono(2, n, n);
        MulMono(75, xp[k], n * n);
      }
      RichSum(xp, 100);
      RichLoopNeverThrows(xp, pool.A, Sum(xp), 100, MAX_ITERATIONS);
    }
  }

  // Six coins for which the third step divides by zero when A * n is 102.
  function Six(): (xp: seq<int>)
    ensures Positive(xp)
  {
    [5, 5, 5, 1, 1, 1]
  }

  // Below that a quote can throw.
  lemma SmallAmplificationThrows()
    ensures AmountOut(1, Pool(Six(), seq(6, _ => PRECISION), 0, 17), 0, 3).Err?
  {
    hide DStep, Six, DLoop;
    SumOfSix();
    SixSteps();
    LoopStep(Six(), 17, 18, MAX_ITERATIONS);
    LoopStep(Six(), 17, 16, MAX_ITERATIONS - 1);
    LoopStep(Six(), 17, 14, MAX_ITERATIONS - 2);
    SixIsQuotable();
  }

  lemma SixIsQuotable()
    ensures var pool := Pool(Six(), seq(6, _ => PRECISION), 0, 17);
            Quotable(pool, 0, 3) && ToXp(pool.balances, pool.rates) == Six()
  {
    var pool := Pool(Six(), seq(6, _ => PRECISION), 0, 17);
    assert ToXp(pool.balances, pool.rates) == Six();
  }

  lemma SixSteps()
    ensures DStep(Six(), 17, 18) == Ok(16) && DStep(Six(), 17, 16) == Ok(14) && DStep(Six(), 17, 14).Err?
  {
    hide DStep, Sum;
    SumOfSix();
    FirstStep();
    SecondStep();
    ThirdStep();
  }

  lemma FirstStep()
    requires Sum(Six()) == 18
    ensures DStep(Six(), 17, 18) == Ok(16)
  {
    hide DStep, Sum;
    StepOf(Six(), 17, 18, [18, 10, 6, 3, 9, 27, 81]);
  }

  lemma SecondStep()
    requires Sum(Six()) == 18
    ensures DStep(Six(), 17, 16) == Ok(14)
  {
    hide DStep, Sum;
    StepOf(Six(), 17, 16, [16, 8, 4, 2, 5, 13, 34]);
  }

  lemma ThirdStep()
    ensures DStep(Six(), 17, 14).Err?
  {
    hide DStep, Sum;
    StepOf(Six(), 17, 14, [14, 6, 2, 0, 0, 0, 0]);
  }

  lemma SumOfSix()
    ensures Sum(Six()) == 18
  {
    var xp := Six();
    assert Sum(xp[..0]) == 0;
    for k := 0 to 6
      invariant Sum(xp[..k]) == if k <= 3 then 5 * k else 12 + k
    {
      assert xp[..k + 1][..k] == xp[..k];
    }
    assert xp[..6] == xp;
  }

  lemma LoopStep(xp: seq<int>, A: int, d: int, steps: nat)
    requires Positive(xp) && 0 < steps
    ensures DLoop(xp, A, d, steps) ==
            var next := DStep(xp, A, d);
            if next.Err? || Close(next.value, d) then next else DLoop(xp, A, next.value, steps - 1)
  {
    hide DStep;
  }

  // A step from its intermediate values of D_P.
  lemma StepOf(xp: seq<int>, A: int, d: int, dps: seq<int>)
    requires Positive(xp) && |dps| == |xp| + 1 && dps[0] == d
    requires forall k :: 0 <= k < |xp| ==> xp[k] * |xp| != 0 && dps[k + 1] == TDiv(dps[k] * d, xp[k] * |xp|)
    ensures var dp := dps[|xp|];
            var denominator := TDiv((A * |xp| - A_PRECISION) * d, A_PRECISION) + (|xp| + 1) * dp;
            DStep(xp, A, d) ==
            if denominator == 0 then Err("RangeError: Division by zero")
            else Ok(TDiv((TDiv(A * |xp| * Sum(xp), A_PRECISION) + dp * |xp|) * d, denominator))
  {
    hide TDiv, Sum;
    for k := 0 to |xp|
      invariant DP(xp, d, k) == dps[k]
    {
    }
  }
}
