/** src/math/curve.ts, getCurveAmountIn: the inverse quote, found by bisection. */
module CurveSearch {
  import opened IntMath
  import opened Outcomes
  import opened CurveNewton
  import opened Curve

  const EXPANSIONS: nat := 50
  const BISECTIONS: nat := 64

  // Double the upper bound until it pays enough, at most n times.
  function Raise(quote: int -> int, want: int, hi: int, n: nat): int
    decreases n
  {
    if n == 0 || quote(hi) >= want then hi else Raise(quote, want, hi * 2, n - 1)
  }

  // At most n bisection steps.
  function Bisect(quote: int -> int, want: int, lo: int, hi: int, n: nat): int
    decreases n
  {
    if n == 0 || lo >= hi then lo
    else
      var mid := (lo + hi) / 2;
      if quote(mid) >= want then Bisect(quote, want, lo, mid, n - 1) else Bisect(quote, want, mid + 1, hi, n - 1)
  }

  // The amount found is the first of its neighbours to pay enough: one less does not. It pays enough
  // itself when the interval was shorter than 2^n. Nothing is asked of the quote.
  lemma {:induction false} BisectFinds(quote: int -> int, want: int, lo: int, hi: int, n: nat)
    requires lo <= hi && quote(hi) >= want && quote(lo - 1) < want
    ensures var r := Bisect(quote, want, lo, hi, n);
            lo <= r <= hi && quote(r - 1) < want && (hi - lo < Pow2(n) ==> quote(r) >= want)
    decreases n
  {
    if n > 0 && lo < hi {
      var mid := (lo + hi) / 2;
      if quote(mid) >= want {
        BisectFinds(quote, want, lo, mid, n - 1);
      } else {
        BisectFinds(quote, want, mid + 1, hi, n - 1);
      }
    }
  }

  // A quote that pays `want` from `from` on, and nothing below.
  function Threshold(want: int, from: int): int -> int {
    (amount: int) => if amount >= from then want else 0
  }

  // Where everything above the lower bound pays enough, n steps through an interval of 2^n or more never
  // get to try the lower bound, and end on it all the same.
  lemma {:induction false} BisectFallsShort(quote: int -> int, want: int, lo: int, hi: int, n: nat)
    requires lo + Pow2(n) <= hi && forall x :: lo < x <= hi ==> quote(x) >= want
    ensures Bisect(quote, want, lo, hi, n) == lo
    decreases n
  {
    if n > 0 {
      BisectFallsShort(quote, want, lo, (lo + hi) / 2, n - 1);
    }
  }

  // n steps are enough for every quote that pays at the upper bound and not below the lower one, if
  // and only if the interval is shorter than 2^n.
  lemma BisectSufficesExactly(want: int, lo: int, hi: int, n: nat)
    requires 0 < want && lo <= hi
    ensures (forall quote: int -> int :: quote(hi) >= want && quote(lo - 1) < want ==>
               quote(Bisect(quote, want, lo, hi, n)) >= want)
            <==> hi - lo < Pow2(n)
  {
    if hi - lo < Pow2(n) {
      forall quote: int -> int | quote(hi) >= want && quote(lo - 1) < want
        ensures quote(Bisect(quote, want, lo, hi, n)) >= want
      {
        BisectFinds(quote, want, lo, hi, n);
      }
    } else {
      var quote := Threshold(want, lo + 1);
      BisectFallsShort(quote, want, lo, hi, n);
      assert quote(hi) >= want && quote(lo - 1) < want && quote(Bisect(quote, want, lo, hi, n)) < want;
    }
  }

  // The quote as a function of the amount, where it does not throw.
  function QuoteOf(pool: Pool, i: int, j: int): int -> int {
    (amount: int) => var r := AmountOut(amount, pool, i, j); if r.Ok? then r.value else 0
  }

  function AmountIn(amountOut: int, pool: Pool, i: int, j: int): Result<int> {
    if amountOut <= 0 then Ok(0)
    else if exists k :: 0 <= k < |pool.balances| && pool.balances[k] < 0 then Ok(0)
    else if !HasValidIndexes(|pool.balances|, i, j) then Ok(0)
    else if amountOut >= pool.balances[j] then Ok(0)
    else
      var first :- AmountOut(amountOut * 10, pool, i, j);
      Ok(Search(QuoteOf(pool, i, j), amountOut, EXPANSIONS, BISECTIONS))
  }

  function Search(quote: int -> int, want: int, expansions: nat, bisections: nat): int {
    var hi := Raise(quote, want, want * 10, expansions);
    if quote(hi) < want then 0 else Bisect(quote, want, 1, hi, bisections)
  }

  // What a search answers: nothing, or an amount that is tight and, when the upper bound the search
  // ended up with was at most 2^bisections, sufficient.
  lemma SearchIsTight(quote: int -> int, want: int, expansions: nat, bisections: nat)
    requires 0 < want && quote(0) < want
    ensures var r := Search(quote, want, expansions, bisections);
            r != 0 ==>
              && 1 <= r && quote(r - 1) < want
              && (Raise(quote, want, want * 10, expansions) <= Pow2(bisections) ==> quote(r) >= want)
  {
    hide Pow2;
    var hi := Raise(quote, want, want * 10, expansions);
    RaiseRises(quote, want, want * 10, expansions);
    if quote(hi) >= want {
      BisectFinds(quote, want, 1, hi, bisections);
    }
  }

  // Whether a quote throws does not depend on the amount.
  lemma ThrowsAlike(a: int, b: int, pool: Pool, i: int, j: int)
    requires 0 < a && 0 < b
    ensures AmountOut(a, pool, i, j).Err? <==> AmountOut(b, pool, i, j).Err?
  {
  }

  method GetCurveAmountIn(amountOut: int, pool: Pool, i: int, j: int) returns (r: Result<int>)
    ensures r == AmountIn(amountOut, pool, i, j)
  {
    hide AmountOut;
    if amountOut <= 0 {
      return Ok(0);
    }
    if exists k :: 0 <= k < |pool.balances| && pool.balances[k] < 0 {
      return Ok(0);
    }
    if !HasValidIndexes(|pool.balances|, i, j) || amountOut >= pool.balances[j] {
      return Ok(0);
    }
    var first := AmountOut(amountOut * 10, pool, i, j);
    if first.Err? {
      return first;
    }
    var found := RunSearch(amountOut, pool, i, j, EXPANSIONS, BISECTIONS);
    r := Ok(found);
  }

  method RunSearch(amountOut: int, pool: Pool, i: int, j: int, expansions: nat, bisections: nat) returns (r: int)
    requires 0 < amountOut && AmountOut(amountOut * 10, pool, i, j).Ok?
    ensures r == Search(QuoteOf(pool, i, j), amountOut, expansions, bisections)
  {
    hide AmountOut;
    ghost var quote := QuoteOf(pool, i, j);
    var hi := amountOut * 10;
    for k := 0 to expansions
      invariant 0 < hi
      invariant Raise(quote, amountOut, hi, expansions - k) == Raise(quote, amountOut, amountOut * 10, expansions)
    {
      ThrowsAlike(hi, amountOut * 10, pool, i, j);
      var out := AmountOut(hi, pool, i, j);
      if out.value >= amountOut {
        break;
      }
      hi := hi * 2;
    }
    ThrowsAlike(hi, amountOut * 10, pool, i, j);
    var last := AmountOut(hi, pool, i, j);
    if last.value < amountOut {
      return 0;
    }
    ghost var top := hi;
    var lo := 1;
    for k := 0 to bisections
      invariant 1 <= lo && 1 <= hi
      invariant Bisect(quote, amountOut, lo, hi, bisections - k) == Bisect(quote, amountOut, 1, top, bisections)
    {
      if lo >= hi {
        break;
      }
      var mid := (lo + hi) / 2;
      ThrowsAlike(mid, amountOut * 10, pool, i, j);
      var out := AmountOut(mid, pool, i, j);
      if out.value >= amountOut {
        hi := mid;
      } else {
        lo := mid + 1;
      }
    }
    r := lo;
  }

  // A non-zero answer is tight: one unit less does not pay enough. It is sufficient when the upper
  // bound the search ended up with is at most 2^64.
  lemma AmountInIsTight(amountOut: int, pool: Pool, i: int, j: int)
    ensures var r := AmountIn(amountOut, pool, i, j);
            r.Ok? && r.value != 0 ==>
              var quote := QuoteOf(pool, i, j);
              && 1 <= r.value && quote(r.value - 1) < amountOut
              && (Raise(quote, amountOut, amountOut * 10, EXPANSIONS) <= Pow2(64) ==> quote(r.value) >= amountOut)
  {
    hide AmountOut, Pow2, Search, Raise;
    if 0 < amountOut {
      NothingForNothing(pool, i, j);
      SearchIsTight(QuoteOf(pool, i, j), amountOut, EXPANSIONS, BISECTIONS);
    }
  }

  // What a caller can check first: if some doubling of ten times the wanted amount, of the fifty the
  // search tries, pays enough and is at most 2^64, the answer pays enough and one unit less does not.
  lemma AmountInSuffices(amountOut: int, pool: Pool, i: int, j: int, k: nat)
    requires Quotable(pool, i, j) && 0 < amountOut < pool.balances[j] && k <= 50
    requires QuoteOf(pool, i, j)(amountOut * 10 * Pow2(k)) >= amountOut
    requires amountOut * 10 * Pow2(k) <= Pow2(64)
    ensures var r, quote := AmountIn(amountOut, pool, i, j), QuoteOf(pool, i, j);
            r.Ok? && 1 <= r.value && quote(r.value) >= amountOut && quote(r.value - 1) < amountOut
  {
    hide AmountOut, Pow2, Quotable, Search;
    AsksAsQuotable(pool, i, j);
    NothingForNothing(pool, i, j);
    MulMono(1, Pow2(k), amountOut * 10);
    ThrowsAlike(amountOut * 10, amountOut * 10 * Pow2(k), pool, i, j);
    SearchSuffices(QuoteOf(pool, i, j), amountOut, EXPANSIONS, BISECTIONS, k);
  }

  // What it answers nothing to, or throws on: requests out of range, pools it cannot index, and amounts
  // that no doubling of the first bound up to the fiftieth pays for.
  lemma AmountInRefuses(amountOut: int, pool: Pool, i: int, j: int)
    ensures var n, quote := |pool.balances|, QuoteOf(pool, i, j);
            var asked := && 0 < amountOut && (forall k :: 0 <= k < n ==> 0 <= pool.balances[k])
                         && 0 <= i < n && 0 <= j < n && i != j && amountOut < pool.balances[j];
            && (!asked ==> AmountIn(amountOut, pool, i, j) == Ok(0))
            && (asked ==> (AmountIn(amountOut, pool, i, j).Err? <==> AmountOut(amountOut * 10, pool, i, j).Err?))
            && (asked && (forall k: nat :: k <= 50 ==> quote(amountOut * 10 * Pow2(k)) < amountOut) ==>
                  AmountIn(amountOut, pool, i, j).Err? || AmountIn(amountOut, pool, i, j) == Ok(0))
  {
    hide AmountOut, Pow2, Bisect;
    var quote := QuoteOf(pool, i, j);
    if 0 < amountOut && forall k: nat :: k <= 50 ==> quote(amountOut * 10 * Pow2(k)) < amountOut {
      RaiseIsNotEnough(quote, amountOut, amountOut * 10, EXPANSIONS);
    }
  }

  lemma {:induction false} RaiseIsNotEnough(quote: int -> int, want: int, hi: int, n: nat)
    requires forall k: nat :: k <= n ==> quote(hi * Pow2(k)) < want
    ensures quote(Raise(quote, want, hi, n)) < want
    decreases n
  {
    assert hi * Pow2(0) == hi;
    if n > 0 && quote(hi) < want {
      forall k: nat | k <= n - 1
        ensures quote(hi * 2 * Pow2(k)) < want
      {
        assert hi * 2 * Pow2(k) == hi * Pow2(k + 1);
      }
      RaiseIsNotEnough(quote, want, hi * 2, n - 1);
    }
  }

  lemma SearchSuffices(quote: int -> int, want: int, expansions: nat, bisections: nat, k: nat)
    requires 0 < want && quote(0) < want && k <= expansions
    requires quote(want * 10 * Pow2(k)) >= want && want * 10 * Pow2(k) <= Pow2(bisections)
    ensures var r := Search(quote, want, expansions, bisections);
            1 <= r && quote(r) >= want && quote(r - 1) < want
  {
    hide Pow2, Raise;
    RaiseIsEnough(quote, want, want * 10, expansions, k);
    var hi := Raise(quote, want, want * 10, expansions);
    BisectFinds(quote, want, 1, hi, bisections);
  }

  lemma {:induction false} RaiseIsEnough(quote: int -> int, want: int, hi: int, n: nat, k: nat)
    requires 0 < hi && k <= n && quote(hi * Pow2(k)) >= want
    ensures var r := Raise(quote, want, hi, n); hi <= r <= hi * Pow2(k) && quote(r) >= want
    decreases n
  {
    MulMono(1, Pow2(k), hi);
    if quote(hi) < want {
      assert hi * Pow2(k) == hi * 2 * Pow2(k - 1);
      RaiseIsEnough(quote, want, hi * 2, n - 1, k - 1);
    }
  }

  // The answer is the least that pays enough up to one unit of scaled balance: every smaller amount,
  // with one unit of it less, would be paid too little.
  lemma AmountInIsNearlyLeast(amountOut: int, pool: Pool, i: int, j: int, a: int, d: int)
    requires Quotable(pool, i, j) && AmountIn(amountOut, pool, i, j).Ok?
    requires 0 < a < AmountIn(amountOut, pool, i, j).value
    requires Invariant(ToXp(pool.balances, pool.rates), pool.A) == Ok(d) && 0 < d < Pow2(254)
    requires var tr := TradeOf(AmountIn(amountOut, pool, i, j).value - 1, pool, i, j);
             0 < 2 * d - tr.T(pool.A, d) && Next(d, tr.T(pool.A, d), tr.Constant(pool.A, d)) < Pow2(254)
    ensures Payout(Drop(a, pool, i, j, d) - 1, pool.fee, pool.rates[j]) < amountOut
  {
    hide AmountIn, Payout, Drop, Invariant, Next, Trade.T, Trade.Constant, Pow2, Raise, Quotable;
    AmountInIsTight(amountOut, pool, i, j);
    LargerTradePaysNoLess(a, AmountIn(amountOut, pool, i, j).value - 1, pool, i, j, d);
  }

  lemma AsksAsQuotable(pool: Pool, i: int, j: int)
    requires Quotable(pool, i, j)
    ensures HasValidIndexes(|pool.balances|, i, j)
    ensures !exists k :: 0 <= k < |pool.balances| && pool.balances[k] < 0
  {
  }

  lemma RaiseAtOnce(quote: int -> int, want: int, n: nat)
    requires quote(want * 10) >= want
    ensures Raise(quote, want, want * 10, n) == want * 10
  {
  }

  lemma NothingForNothing(pool: Pool, i: int, j: int)
    ensures QuoteOf(pool, i, j)(0) == 0
  {
  }

  lemma {:induction false} RaiseRises(quote: int -> int, want: int, hi: int, n: nat)
    requires 0 < hi
    ensures hi <= Raise(quote, want, hi, n)
    decreases n
  {
    if n > 0 && quote(hi) < want {
      RaiseRises(quote, want, hi * 2, n - 1);
    }
  }
}
