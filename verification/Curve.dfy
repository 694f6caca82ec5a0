/** src/math/curve.ts: StableSwap quotes. */
module Curve {
  import opened IntMath
  import opened Outcomes
  import opened CurveNewton

  const PRECISION: int := 1_000_000_000_000_000_000
  const FEE_DENOMINATOR: int := 10_000_000_000
  const A_PRECISION: int := 100
  const MAX_ITERATIONS: nat := 255

  datatype Pool = Pool(balances: seq<int>, rates: seq<int>, fee: int, A: int)

  predicate Positive(s: seq<int>) {
    forall k :: 0 <= k < |s| ==> 0 < s[k]
  }

  function Sum(s: seq<int>): int {
    if s == [] then 0 else Sum(s[..|s| - 1]) + s[|s| - 1]
  }

  // --- getD ---

  // D_P after the first k coins.
  function DP(xp: seq<int>, d: int, k: nat): int
    requires Positive(xp) && k <= |xp|
  {
    if k == 0 then d
    else
      MulMono(1, xp[k - 1], |xp|);
      TDiv(DP(xp, d, k - 1) * d, xp[k - 1] * |xp|)
  }

  // One step of the invariant's iteration; a zero denominator throws.
  function DStep(xp: seq<int>, A: int, d: int): Result<int>
    requires Positive(xp)
  {
    var n, dp, ann := |xp|, DP(xp, d, |xp|), A * |xp|;
    var denominator := TDiv((ann - A_PRECISION) * d, A_PRECISION) + (n + 1) * dp;
    if denominator == 0 then Err("RangeError: Division by zero")
    else Ok(TDiv((TDiv(ann * Sum(xp), A_PRECISION) + dp * n) * d, denominator))
  }

  function DLoop(xp: seq<int>, A: int, d: int, steps: nat): Result<int>
    requires Positive(xp)
    decreases steps
  {
    if steps == 0 then Ok(d)
    else
      var next :- DStep(xp, A, d);
      if Close(next, d) then Ok(next) else DLoop(xp, A, next, steps - 1)
  }

  function Invariant(xp: seq<int>, A: int): Result<int>
    requires Positive(xp)
  {
    if Sum(xp) == 0 then Ok(0) else DLoop(xp, A, Sum(xp), MAX_ITERATIONS)
  }

  method GetD(xp: seq<int>, A: int) returns (r: Result<int>)
    requires Positive(xp)
    ensures r == Invariant(xp, A)
  {
    hide DStep, TDiv;
    var n := |xp|;
    var s := 0;
    for k := 0 to n
      invariant s == Sum(xp[..k])
    {
      assert xp[..k + 1][..k] == xp[..k];
      s := s + xp[k];
    }
    assert xp[..n] == xp;
    if s == 0 {
      return Ok(0);
    }
    var d := s;
    for i := 0 to MAX_ITERATIONS
      invariant DLoop(xp, A, d, MAX_ITERATIONS - i) == Invariant(xp, A)
    {
      var next := OneStepOfD(xp, A, s, d);
      if next.Err? {
        return next;
      }
      var previous := d;
      d := next.value;
      if Close(d, previous) {
        return Ok(d);
      }
    }
    r := Ok(d);
  }

  method OneStepOfD(xp: seq<int>, A: int, s: int, d: int) returns (r: Result<int>)
    requires Positive(xp) && s == Sum(xp)
    ensures r == DStep(xp, A, d)
  {
    hide TDiv;
    var n := |xp|;
    var dp := d;
    for k := 0 to n
      invariant dp == DP(xp, d, k)
    {
      MulMono(1, xp[k], n);
      dp := TDiv(dp * d, xp[k] * n);
    }
    var denominator := TDiv((A * n - A_PRECISION) * d, A_PRECISION) + (n + 1) * dp;
    if denominator == 0 {
      return Err("RangeError: Division by zero");
    }
    r := Ok(TDiv((TDiv(A * n * s, A_PRECISION) + dp * n) * d, denominator));
  }

  // What D means: with equal balances it is their sum, from the first step on. Only below A * n = 100
  // can truncation cost it one unit, and it does exactly when A * n * D leaves a remainder.
  lemma BalancedPool(xp: seq<int>, A: int, x: int)
    requires xp != [] && 0 < x && 0 < A
    requires forall k :: 0 <= k < |xp| ==> xp[k] == x
    ensures Positive(xp)
    ensures Invariant(xp, A) == Ok(if LosesOne(A * |xp|, |xp| * x) then |xp| * x - 1 else |xp| * x)
  {
    hide DStep, DLoop, LosesOne;
    var n := |xp|;
    EqualSum(xp, x);
    MulMono(1, x, n);
    EqualStep(xp, A, x);
    OneStep(xp, A, n * x, MAX_ITERATIONS);
  }

  predicate LosesOne(ann: int, d: int) {
    ann < A_PRECISION && ann * d % A_PRECISION != 0
  }

  lemma OneStep(xp: seq<int>, A: int, d: int, steps: nat)
    requires Positive(xp) && steps > 0 && DStep(xp, A, d).Ok? && Close(DStep(xp, A, d).value, d)
    ensures DLoop(xp, A, d, steps) == DStep(xp, A, d)
  {
    hide DStep;
  }

  lemma {:induction false} EqualSum(s: seq<int>, x: int)
    requires forall k :: 0 <= k < |s| ==> s[k] == x
    ensures Sum(s) == |s| * x
  {
    if s != [] {
      EqualSum(s[..|s| - 1], x);
    }
  }

  lemma {:induction false} EqualDP(xp: seq<int>, x: int, k: nat)
    requires Positive(xp) && k <= |xp| && 0 < x
    requires forall j :: 0 <= j < |xp| ==> xp[j] == x
    ensures DP(xp, |xp| * x, k) == |xp| * x
  {
    hide TDiv;
    if k > 0 {
      EqualDP(xp, x, k - 1);
      MulMono(1, x, |xp|);
      assert xp[k - 1] * |xp| == |xp| * x;
      ExactQuotient(|xp| * x, |xp| * x);
    }
  }

  lemma ExactQuotient(a: int, b: int)
    requires 0 <= a && 0 < b
    ensures TDiv(a * b, b) == a
  {
    MulMono(0, a, b);
    TDivFloor(a * b, b);
    FloorUnique(TDiv(a * b, b), a, a * b, b);
  }

  lemma EqualStep(xp: seq<int>, A: int, x: int)
    requires xp != [] && 0 < x && 0 < A && Positive(xp)
    requires forall k :: 0 <= k < |xp| ==> xp[k] == x
    ensures var d := |xp| * x; DStep(xp, A, d) == Ok(if LosesOne(A * |xp|, d) then d - 1 else d)
  {
    hide TDiv, DP, Sum, LosesOne;
    var n, ann := |xp|, A * |xp|;
    var d := n * x;
    EqualSum(xp, x);
    EqualDP(xp, x, n);
    MulMono(1, x, n);
    MulMono(1, A, n);
    ShiftedQuotient(ann, d);
    MulMono(0, ann, d);
    MulMono(1, n, d);
    var q := TDiv(ann * d, A_PRECISION) + d * n;
    assert TDiv(ann * d, A_PRECISION) >= 0 by { TDivFloor(ann * d, A_PRECISION); }
    assert (n + 1) * d == d * n + d;
    assert q * d == d * q;
    if LosesOne(ann, d) {
      JustBelow(d, q + 1);
      assert d * (q + 1) - d == q * d;
    } else {
      ExactQuotient(d, q);
    }
  }

  lemma JustBelow(a: int, b: int)
    requires 0 < a < b
    ensures TDiv(a * b - a, b) == a - 1
  {
    MulMono(1, a, b);
    TDivFloor(a * b - a, b);
    assert (a - 1) * b == a * b - b;
    FloorUnique(TDiv(a * b - a, b), a - 1, a * b - a, b);
  }

  // The shifted quotient is truncated, so upwards where it is negative.
  lemma ShiftedQuotient(ann: int, d: int)
    requires 0 < d && 0 < ann
    ensures TDiv((ann - A_PRECISION) * d, A_PRECISION)
            == TDiv(ann * d, A_PRECISION) - d + (if LosesOne(ann, d) then 1 else 0)
  {
    MulMono(0, ann, d);
    var m := ann * d;
    assert (ann - A_PRECISION) * d == m - A_PRECISION * d;
    if ann >= A_PRECISION {
      MulMono(A_PRECISION, ann, d);
    } else {
      MulMono(ann, A_PRECISION, d);
    }
  }

  // --- getY ---

  // The trade as getY sees it: coin i now has balance x, coin j is wanted.
  datatype Trade = Trade(x: int, i: int, j: int, xp: seq<int>) {
    predicate Valid() {
      && 0 < x && Positive(xp)
      && 0 <= i < |xp| && 0 <= j < |xp| && i != j
    }

    function Coin(k: nat): int
      requires k < |xp|
    {
      if k == i then x else xp[k]
    }

    // S_ and C after the first k coins, the wanted one left out.
    function S(k: nat): int
      requires k <= |xp|
    {
      if k == 0 then 0 else if k - 1 == j then S(k - 1) else S(k - 1) + Coin(k - 1)
    }

    function C(d: int, k: nat): int
      requires Valid() && k <= |xp|
    {
      if k == 0 then d
      else if k - 1 == j then C(d, k - 1)
      else
        MulMono(1, Coin(k - 1), |xp|);
        TDiv(C(d, k - 1) * d, Coin(k - 1) * |xp|)
    }

    // t = D - b and c of the quadratic.
    function T(A: int, d: int): int
      requires Valid() && 0 < A
    {
      MulMono(1, A, |xp|);
      d - (S(|xp|) + TDiv(d * A_PRECISION, A * |xp|))
    }

    function Constant(A: int, d: int): int
      requires Valid() && 0 < A
    {
      MulMono(1, A, |xp|);
      MulMono(1, A * |xp|, |xp|);
      TDiv(C(d, |xp|) * d * A_PRECISION, A * |xp| * |xp|)
    }
  }

  lemma TDivShrinks(a: int, b: int, a2: int, b2: int)
    requires 0 <= a2 <= a && 0 < b <= b2
    ensures 0 <= TDiv(a2, b2) <= TDiv(a, b)
  {
    TDivFloor(a, b);
    TDivFloor(a2, b2);
    var q := TDiv(a2, b2);
    MulMono(b, b2, q);
    FloorGe(TDiv(a, b), a, b, q);
  }

  lemma {:induction false} SPositive(tr: Trade, k: nat)
    requires tr.Valid() && k <= |tr.xp|
    ensures 0 <= tr.S(k) && (tr.i < k ==> 0 < tr.S(k))
  {
    if k > 0 {
      SPositive(tr, k - 1);
    }
  }

  lemma {:induction false} CNonNegative(tr: Trade, d: int, k: nat)
    requires tr.Valid() && 0 < d && k <= |tr.xp|
    ensures 0 <= tr.C(d, k)
  {
    hide TDiv;
    if k > 0 {
      CNonNegative(tr, d, k - 1);
      if k - 1 != tr.j {
        MulMono(1, tr.Coin(k - 1), |tr.xp|);
        MulMono(0, tr.C(d, k - 1), d);
        TDivFloor(tr.C(d, k - 1) * d, tr.Coin(k - 1) * |tr.xp|);
      }
    }
  }

  // S_ is the sum of the balances after the trade, the wanted coin's left out.
  lemma {:induction false} SumOfOthers(tr: Trade, k: nat)
    requires tr.Valid() && k <= |tr.xp|
    ensures tr.S(k) == Sum(tr.xp[..k]) + (if tr.i < k then tr.x - tr.xp[tr.i] else 0)
                       - (if tr.j < k then tr.xp[tr.j] else 0)
  {
    if k > 0 {
      SumOfOthers(tr, k - 1);
      assert tr.xp[..k][..k - 1] == tr.xp[..k - 1];
    }
  }

  // The product of n times each of the first k balances, the wanted coin's left out, and how many.
  function Product(tr: Trade, k: nat): int
    requires tr.Valid() && k <= |tr.xp|
  {
    if k == 0 then 1
    else if k - 1 == tr.j then Product(tr, k - 1)
    else tr.Coin(k - 1) * |tr.xp| * Product(tr, k - 1)
  }

  function PowerOfD(tr: Trade, d: nat, k: nat): int
    requires tr.Valid() && k <= |tr.xp|
  {
    if k == 0 then d
    else if k - 1 == tr.j then PowerOfD(tr, d, k - 1)
    else PowerOfD(tr, d, k - 1) * d
  }

  // C is at most D to the number of coins over the product of n times the other balances: every
  // rounding on the way is down.
  lemma {:induction false} CRoundsDown(tr: Trade, d: nat, k: nat)
    requires tr.Valid() && 0 < d && k <= |tr.xp|
    ensures 0 < Product(tr, k) && tr.C(d, k) * Product(tr, k) <= PowerOfD(tr, d, k)
  {
    hide TDiv, Trade.C;
    if k == 0 {
      CStarts(tr, d);
    } else {
      CRoundsDown(tr, d, k - 1);
      CNonNegative(tr, d, k - 1);
      CAdvances(tr, d, k);
      if k - 1 != tr.j {
        MulMono(1, tr.Coin(k - 1), |tr.xp|);
        MulMono(1, tr.Coin(k - 1) * |tr.xp|, Product(tr, k - 1));
        CStep(tr.C(d, k - 1), d, tr.Coin(k - 1) * |tr.xp|, Product(tr, k - 1), PowerOfD(tr, d, k - 1), tr.C(d, k));
      }
    }
  }

  lemma CStarts(tr: Trade, d: int)
    requires tr.Valid()
    ensures tr.C(d, 0) == d
  {
  }

  lemma CAdvances(tr: Trade, d: int, k: nat)
    requires tr.Valid() && 0 < d && 0 < k <= |tr.xp| && 0 <= tr.C(d, k - 1)
    ensures if k - 1 == tr.j then tr.C(d, k) == tr.C(d, k - 1)
            else IsFloor(tr.C(d, k), tr.C(d, k - 1) * d, tr.Coin(k - 1) * |tr.xp|)
  {
    hide TDiv;
    MulMono(1, tr.Coin(k - 1), |tr.xp|);
    MulMono(0, tr.C(d, k - 1), d);
    TDivFloor(tr.C(d, k - 1) * d, tr.Coin(k - 1) * |tr.xp|);
  }

  lemma CStep(c: int, d: int, x: int, p: int, e: int, next: int)
    requires 0 < d && 0 < x && 0 < p && c * p <= e && IsFloor(next, c * d, x)
    ensures next * (x * p) <= e * d
  {
    MulMono(next * x, c * d, p);
    MulMono(c * p, e, d);
    assert next * (x * p) == next * x * p && c * d * p == c * p * d;
  }

  // The loop starts in a state from which no step divides by zero or goes negative.
  lemma StartFits(tr: Trade, A: int, d: int)
    requires tr.Valid() && 0 < A && 0 < d
    ensures Fit(d, tr.T(A, d), tr.Constant(A, d))
  {
    hide TDiv, Trade.S, Trade.C;
    SPositive(tr, |tr.xp|);
    CNonNegative(tr, d, |tr.xp|);
    MulMono(1, A, |tr.xp|);
    MulMono(1, A * |tr.xp|, |tr.xp|);
    MulMono(0, tr.C(d, |tr.xp|), d);
    TDivFloor(d * A_PRECISION, A * |tr.xp|);
    TDivFloor(tr.C(d, |tr.xp|) * d * A_PRECISION, A * |tr.xp| * |tr.xp|);
  }

  // The output coin's balance after the trade.
  function OutputBalance(tr: Trade, A: int, d: int): (y: int)
    requires tr.Valid() && 0 < A && 0 < d
    ensures 0 <= y
  {
    StartFits(tr, A, d);
    DescendStaysAbove(d, tr.T(A, d), tr.Constant(A, d), MAX_ITERATIONS);
    Descend(NewtonStep(tr.T(A, d), tr.Constant(A, d)), d, MAX_ITERATIONS)
  }

  method GetY(x: int, i: int, j: int, xp: seq<int>, A: int, d: int) returns (y: int)
    requires Trade(x, i, j, xp).Valid() && 0 < A && 0 < d
    ensures y == OutputBalance(Trade(x, i, j, xp), A, d)
  {
    hide TDiv, Next;
    ghost var tr := Trade(x, i, j, xp);
    var n := |xp|;
    var ann := A * n;
    var s, c := 0, d;
    for k := 0 to n
      invariant s == tr.S(k) && c == tr.C(d, k)
    {
      if k == j {
        continue;
      }
      var xk := if k == i then x else xp[k];
      MulMono(1, xk, n);
      s := s + xk;
      c := TDiv(c * d, xk * n);
    }
    MulMono(1, A, n);
    MulMono(1, ann, n);
    c := TDiv(c * d * A_PRECISION, ann * n);
    var b := s + TDiv(d * A_PRECISION, ann);
    StartFits(tr, A, d);
    y := d;
    for iter := 0 to MAX_ITERATIONS
      invariant Fit(y, d - b, c)
      invariant Descend(NewtonStep(d - b, c), y, MAX_ITERATIONS - iter) == OutputBalance(tr, A, d)
    {
      var previous := y;
      StepFits(y, d - b, c);
      assert Next(y, d - b, c) == TDiv(y * y + c, 2 * y + b - d) by { NextIs(y, b, d, c); }
      y := TDiv(y * y + c, 2 * y + b - d);
      if Close(y, previous) {
        return;
      }
    }
  }

  lemma NextIs(y: int, b: int, d: int, c: int)
    requires 0 < 2 * y + b - d
    ensures Next(y, d - b, c) == TDiv(y * y + c, 2 * y + b - d)
  {
  }

  // The balance found is the positive root of the pool's quadratic rounded down, or one more (in the
  // pool's favour), whenever D and the first iterate are below 2^254.
  lemma OutputBalanceIsRoot(tr: Trade, A: int, d: int)
    requires tr.Valid() && 0 < A && 0 < d < Pow2(254)
    requires 0 < 2 * d - tr.T(A, d) && Next(d, tr.T(A, d), tr.Constant(A, d)) < Pow2(254)
    ensures exists w :: IsRoot(w, tr.T(A, d), tr.Constant(A, d))
                        && w <= OutputBalance(tr, A, d) <= w + 1
  {
    hide F, Pow2, Next, TDiv, Trade.T, Trade.Constant;
    var t, c := tr.T(A, d), tr.Constant(A, d);
    StartFits(tr, A, d);
    SettlesFrom(d, t, c);
    DescendStaysAbove(d, t, c, MAX_ITERATIONS);
    var w := RootExists(t, c);
    SettledIsRoot(OutputBalance(tr, A, d), t, c, w);
  }

  // --- The quote ---

  function ToXp(balances: seq<int>, rates: seq<int>): (xp: seq<int>)
    requires |balances| == |rates|
    ensures |xp| == |balances| && forall k :: 0 <= k < |xp| ==> xp[k] == TDiv(balances[k] * rates[k], PRECISION)
  {
    seq(|balances|, k requires 0 <= k < |balances| => TDiv(balances[k] * rates[k], PRECISION))
  }

  predicate HasValidIndexes(length: nat, tokenIn: int, tokenOut: int) {
    0 <= tokenIn && 0 <= tokenOut && tokenIn < length && tokenOut < length && tokenIn != tokenOut
  }

  // The pools getCurveAmountOut goes on with.
  predicate Quotable(pool: Pool, tokenIn: int, tokenOut: int) {
    && 0 <= pool.fee < FEE_DENOMINATOR && 0 < pool.A
    && 2 <= |pool.balances| == |pool.rates|
    && HasValidIndexes(|pool.balances|, tokenIn, tokenOut)
    && Positive(pool.balances) && Positive(pool.rates)
    && Positive(ToXp(pool.balances, pool.rates))
  }

  function TradeOf(amountIn: int, pool: Pool, i: int, j: int): (tr: Trade)
    requires Quotable(pool, i, j) && 0 < amountIn
    ensures tr.Valid()
  {
    var xp := ToXp(pool.balances, pool.rates);
    MulMono(0, amountIn, pool.rates[i]);
    TDivFloor(amountIn * pool.rates[i], PRECISION);
    Trade(xp[i] + TDiv(amountIn * pool.rates[i], PRECISION), i, j, xp)
  }

  // What is paid when the scaled balance drops by dy: the fee comes off, then the scaling.
  function Payout(dy: int, fee: int, rate: int): int
    requires 0 < rate
  {
    if dy <= 0 then 0
    else
      var dyAfterFee := dy - TDiv(dy * fee, FEE_DENOMINATOR);
      if dyAfterFee <= 0 then 0 else TDiv(dyAfterFee * PRECISION, rate)
  }

  // The drop of the scaled output balance, less one for rounding.
  function Drop(amountIn: int, pool: Pool, i: int, j: int, d: int): int
    requires Quotable(pool, i, j) && 0 < amountIn && 0 < d
  {
    var tr := TradeOf(amountIn, pool, i, j);
    tr.xp[j] - OutputBalance(tr, pool.A, d) - 1
  }

  function AmountOut(amountIn: int, pool: Pool, i: int, j: int): Result<int> {
    if amountIn <= 0 || !Quotable(pool, i, j) then Ok(0)
    else
      var d :- Invariant(ToXp(pool.balances, pool.rates), pool.A);
      if d <= 0 then Ok(0) else Ok(Payout(Drop(amountIn, pool, i, j, d), pool.fee, pool.rates[j]))
  }

  lemma PayoutIsBelow(dy: int, fee: int, rate: int, balance: int)
    requires 0 < rate && 0 < balance && 0 <= fee && dy < TDiv(balance * rate, PRECISION)
    ensures 0 <= Payout(dy, fee, rate) < balance
  {
    if dy > 0 {
      var scaled := TDiv(balance * rate, PRECISION);
      MulMono(0, balance, rate);
      TDivFloor(balance * rate, PRECISION);
      MulMono(0, dy, fee);
      TDivFloor(dy * fee, FEE_DENOMINATOR);
      var after := dy - TDiv(dy * fee, FEE_DENOMINATOR);
      if after > 0 {
        MulMono(after, scaled - 1, PRECISION);
        TDivFloor(after * PRECISION, rate);
        CancelLt(TDiv(after * PRECISION, rate), balance, rate);
      }
    }
  }

  // A quote never reaches the output balance, whatever D came out as.
  lemma QuoteIsBelowBalance(amountIn: int, pool: Pool, i: int, j: int)
    ensures var r := AmountOut(amountIn, pool, i, j);
            r.Ok? ==> 0 <= r.value && (r.value > 0 ==> 0 <= j < |pool.balances| && r.value < pool.balances[j])
  {
    hide TDiv, Payout, OutputBalance, Invariant;
    if 0 < amountIn && Quotable(pool, i, j) {
      var d := Invariant(ToXp(pool.balances, pool.rates), pool.A);
      if d.Ok? && 0 < d.value {
        PayoutIsBelow(Drop(amountIn, pool, i, j, d.value), pool.fee, pool.rates[j], pool.balances[j]);
      }
    }
  }

  lemma PayoutIsMonotone(dy: int, dy2: int, fee: int, rate: int)
    requires dy <= dy2 && 0 < rate && 0 <= fee < FEE_DENOMINATOR
    ensures 0 <= Payout(dy, fee, rate) <= Payout(dy2, fee, rate)
  {
    if dy > 0 {
      AfterFeeIsMonotone(dy, dy2, fee);
      var after, after2 := dy - TDiv(dy * fee, FEE_DENOMINATOR), dy2 - TDiv(dy2 * fee, FEE_DENOMINATOR);
      MulMono(after, after2, PRECISION);
      if after > 0 {
        TDivShrinks(after2 * PRECISION, rate, after * PRECISION, rate);
      } else if after2 > 0 {
        TDivFloor(after2 * PRECISION, rate);
      }
    } else if dy2 > 0 {
      var after2 := dy2 - TDiv(dy2 * fee, FEE_DENOMINATOR);
      if after2 > 0 {
        TDivFloor(after2 * PRECISION, rate);
      }
    }
  }

  lemma AfterFeeIsMonotone(dy: int, dy2: int, fee: int)
    requires 0 < dy <= dy2 && 0 <= fee < FEE_DENOMINATOR
    ensures dy - TDiv(dy * fee, FEE_DENOMINATOR) <= dy2 - TDiv(dy2 * fee, FEE_DENOMINATOR)
  {
    MulMono(0, dy, fee);
    MulMono(0, dy2, fee);
    TDivFloor(dy * fee, FEE_DENOMINATOR);
    TDivFloor(dy2 * fee, FEE_DENOMINATOR);
    var f, f2 := TDiv(dy * fee, FEE_DENOMINATOR), TDiv(dy2 * fee, FEE_DENOMINATOR);
    MulMono(fee, FEE_DENOMINATOR, dy2 - dy);
    assert (dy2 - dy) * fee == dy2 * fee - dy * fee;
    FloorGe(f, dy * fee, FEE_DENOMINATOR, f2 - (dy2 - dy));
  }

  // --- A larger trade ---

  lemma {:induction false} SIsMonotone(a: Trade, b: Trade, k: nat)
    requires a.Valid() && b.Valid() && a.xp == b.xp && a.i == b.i && a.j == b.j && a.x <= b.x && k <= |a.xp|
    ensures a.S(k) <= b.S(k)
  {
    if k > 0 {
      SIsMonotone(a, b, k - 1);
    }
  }

  lemma {:induction false} CIsAntitone(a: Trade, b: Trade, d: int, k: nat)
    requires a.Valid() && b.Valid() && a.xp == b.xp && a.i == b.i && a.j == b.j && a.x <= b.x && k <= |a.xp|
    requires 0 < d
    ensures 0 <= b.C(d, k) <= a.C(d, k)
  {
    hide TDiv;
    if k > 0 {
      CIsAntitone(a, b, d, k - 1);
      if k - 1 != a.j {
        MulMono(0, b.C(d, k - 1), d);
        MulMono(b.C(d, k - 1), a.C(d, k - 1), d);
        MulMono(1, a.Coin(k - 1), |a.xp|);
        MulMono(a.Coin(k - 1), b.Coin(k - 1), |a.xp|);
        TDivShrinks(a.C(d, k - 1) * d, a.Coin(k - 1) * |a.xp|, b.C(d, k - 1) * d, b.Coin(k - 1) * |a.xp|);
      }
    }
  }

  // Paying in more leaves the output balance no higher, up to the one of rounding.
  lemma OutputBalanceFalls(a: Trade, b: Trade, A: int, d: int)
    requires a.Valid() && b.Valid() && a.xp == b.xp && a.i == b.i && a.j == b.j && a.x <= b.x
    requires 0 < A && 0 < d < Pow2(254)
    requires 0 < 2 * d - b.T(A, d) && Next(d, b.T(A, d), b.Constant(A, d)) < Pow2(254)
    ensures OutputBalance(b, A, d) <= OutputBalance(a, A, d) + 1
  {
    hide F, Pow2, Next, TDiv, Trade.S, Trade.C, Trade.T, Trade.Constant;
    SIsMonotone(a, b, |a.xp|);
    CIsAntitone(a, b, d, |a.xp|);
    ConstantFalls(a, b, A, d);
    StartFits(a, A, d);
    StartFits(b, A, d);
    FallsWithRoot(d, a.T(A, d), a.Constant(A, d), b.T(A, d), b.Constant(A, d));
  }

  lemma FallsWithRoot(d: int, t: int, c: int, t2: int, c2: int)
    requires t2 <= t && c2 <= c && Fit(d, t, c) && Fit(d, t2, c2) && d < Pow2(254) && Next(d, t2, c2) < Pow2(254)
    ensures Descend(NewtonStep(t2, c2), d, MAX_ITERATIONS) <= Descend(NewtonStep(t, c), d, MAX_ITERATIONS) + 1
  {
    hide F, Pow2, Next, Descend, NewtonStep;
    SettlesFrom(d, t2, c2);
    DescendStaysAbove(d, t2, c2, MAX_ITERATIONS);
    DescendStaysAbove(d, t, c, MAX_ITERATIONS);
    SettledIsMonotone(Descend(NewtonStep(t, c), d, MAX_ITERATIONS), t, c,
                      Descend(NewtonStep(t2, c2), d, MAX_ITERATIONS), t2, c2);
  }

  lemma ConstantFalls(a: Trade, b: Trade, A: int, d: int)
    requires a.Valid() && b.Valid() && a.xp == b.xp && 0 < A && 0 < d
    requires a.S(|a.xp|) <= b.S(|a.xp|) && 0 <= b.C(d, |a.xp|) <= a.C(d, |a.xp|)
    ensures b.T(A, d) <= a.T(A, d) && b.Constant(A, d) <= a.Constant(A, d)
  {
    hide TDiv, Trade.S, Trade.C;
    var n := |a.xp|;
    MulMono(1, A, n);
    MulMono(1, A * n, n);
    MulMono(0, b.C(d, n), d);
    MulMono(b.C(d, n), a.C(d, n), d);
    TDivShrinks(a.C(d, n) * d * A_PRECISION, A * n * n, b.C(d, n) * d * A_PRECISION, A * n * n);
  }

  // A larger trade is paid at least what the smaller one would be paid with one unit less of scaled
  // balance: rounding can cost the larger trade that one unit, and no more.
  lemma LargerTradePaysNoLess(small: int, large: int, pool: Pool, i: int, j: int, d: int)
    requires Quotable(pool, i, j) && 0 < small <= large
    requires Invariant(ToXp(pool.balances, pool.rates), pool.A) == Ok(d) && 0 < d < Pow2(254)
    requires var tr := TradeOf(large, pool, i, j);
             0 < 2 * d - tr.T(pool.A, d) && Next(d, tr.T(pool.A, d), tr.Constant(pool.A, d)) < Pow2(254)
    ensures Payout(Drop(small, pool, i, j, d) - 1, pool.fee, pool.rates[j]) <= AmountOut(large, pool, i, j).value
  {
    hide TDiv, Pow2, Next, Payout, Invariant, OutputBalance, Trade.T, Trade.Constant;
    var a, b := TradeOf(small, pool, i, j), TradeOf(large, pool, i, j);
    MulMono(small, large, pool.rates[i]);
    MulMono(0, small, pool.rates[i]);
    TDivShrinks(large * pool.rates[i], PRECISION, small * pool.rates[i], PRECISION);
    OutputBalanceFalls(a, b, pool.A, d);
    PayoutIsMonotone(Drop(small, pool, i, j, d) - 1, Drop(large, pool, i, j, d), pool.fee, pool.rates[j]);
  }
}
