/** src/math/tick_math.ts: how close the ratio of a tick comes to the square root of 1.0001^tick. */
module TickPrice {
  import opened IntMath
  import opened Outcomes
  import opened TickRatio
  import opened TickMath

  // --- Nearly equal numbers ---

  ghost function Mul(a: real, b: real): real {
    a * b
  }

  // Positive numbers that differ by a factor of at most r, either way.
  ghost predicate Within(a: real, b: real, r: real) {
    0.0 < a && 0.0 < b && a <= b * r && b <= a * r
  }

  lemma Chain(a: real, b: real, c: real, r: real, s: real, t: real)
    requires Within(a, b, r) && Within(b, c, s) && 0.0 < r && 0.0 < s && r * s <= t
    ensures Within(a, c, t)
  {
    OneWay(a, b, c, r, s, t);
    OneWay(c, b, a, s, r, t);
  }

  lemma OneWay(a: real, b: real, c: real, r: real, s: real, t: real)
    requires a <= b * r && b <= c * s && 0.0 < c && 0.0 < r && r * s <= t
    ensures a <= c * t
  {
    Scaled(b, c * s, r);
    Regroup(c, s, r);
    Scaled(r * s, t, c);
  }

  lemma Times(a: real, b: real, c: real, d: real, r: real, s: real, t: real)
    requires Within(a, b, r) && Within(c, d, s) && 0.0 < r && 0.0 < s && r * s <= t
    ensures Within(Mul(a, c), Mul(b, d), t)
  {
    MulPositive(a, c);
    MulPositive(b, d);
    Both(a, b, c, d, r, s, t);
    Both(b, a, d, c, r, s, t);
  }

  lemma Both(a: real, b: real, c: real, d: real, r: real, s: real, t: real)
    requires 0.0 < a <= b * r && 0.0 < c <= d * s && 0.0 < b && 0.0 < d && r * s <= t
    ensures a * c <= b * d * t
  {
    Scaled(a, b * r, c);
    Scaled(c, d * s, b * r);
    Positive(b, d);
    Scaled(r * s, t, b * d);
    assert (b * r) * (d * s) == b * d * (r * s) by { Shuffle(b, r, d, s); }
  }

  lemma Shuffle(a: real, b: real, c: real, d: real)
    ensures (a * b) * (c * d) == a * c * (b * d)
  {
  }

  lemma Positive(a: real, b: real)
    requires 0.0 < a && 0.0 < b
    ensures 0.0 < a * b
  {
  }

  lemma Scaled(a: real, b: real, c: real)
    requires a <= b && 0.0 <= c
    ensures a * c <= b * c
  {
  }

  lemma Regroup(a: real, b: real, c: real)
    ensures a * b * c == a * (b * c) && a * b * c == a * (c * b)
  {
  }

  lemma MulPositive(a: real, b: real)
    requires 0.0 < a && 0.0 < b
    ensures 0.0 < Mul(a, b)
  {
  }

  lemma MulRegroups(a: real, b: real, c: real)
    ensures Mul(Mul(a, b), c) == Mul(a, Mul(b, c))
  {
  }

  lemma MulShuffles(a: real, b: real, c: real, d: real)
    ensures Mul(Mul(a, b), Mul(c, d)) == Mul(Mul(a, c), Mul(b, d))
  {
  }

  lemma Weaken(a: real, b: real, r: real, s: real)
    requires Within(a, b, r) && r <= s
    ensures Within(a, b, s)
  {
    Scaled(r, s, a);
    Scaled(r, s, b);
  }

  lemma Same(a: real)
    requires 0.0 < a
    ensures Within(a, a, 1.0)
  {
  }

  lemma Cancel(a: real, b: real, c: real, r: real)
    requires 0.0 < c && 0.0 < r && Within(Mul(a, c), Mul(b, c), r)
    ensures Within(a, b, r)
  {
    if a <= 0.0 {
      Scaled(a, 0.0, c);
    }
    if b <= 0.0 {
      Scaled(b, 0.0, c);
    }
    CancelOne(a, b, c, r);
    CancelOne(b, a, c, r);
  }

  lemma CancelOne(a: real, b: real, c: real, r: real)
    requires 0.0 < c && a * c <= b * c * r
    ensures a <= b * r
  {
    Regroup(b, c, r);
    Regroup(b, r, c);
    if b * r < a {
      Positive(a - b * r, c);
    }
  }

  // --- Powers ---

  ghost function Power(x: real, n: nat): (p: real)
    ensures 0.0 < x ==> 0.0 < p
  {
    if n == 0 then 1.0
    else
      var rest := Power(x, n - 1);
      MulKeepsSign(x, rest);
      Mul(x, rest)
  }

  lemma MulKeepsSign(a: real, b: real)
    ensures 0.0 < a && 0.0 < b ==> 0.0 < Mul(a, b)
  {
  }

  lemma {:induction false} PowerAdds(x: real, a: nat, b: nat)
    ensures Power(x, a + b) == Mul(Power(x, a), Power(x, b))
  {
    if a > 0 {
      hide Mul;
      PowerAdds(x, a - 1, b);
      MulRegroups(x, Power(x, a - 1), Power(x, b));
    }
  }

  lemma {:induction false} PowersCancel(x: real, y: real, n: nat)
    requires Mul(x, y) == 1.0
    ensures Mul(Power(x, n), Power(y, n)) == 1.0
  {
    if n > 0 {
      PowersCancel(x, y, n - 1);
      MulShuffles(x, Power(x, n - 1), y, Power(y, n - 1));
    }
  }

  // The price of a tick in terms of the next one's.
  const W: real := 10_000.0 / 10_001.0

  // --- The constants ---

  const TINY: real := 0.000_000_000_000_000_000_000_000_01
  const TINY19: real := 0.000_000_000_000_000_000_1
  const TINY18: real := 0.000_000_000_000_000_001

  function Exp2(i: nat): (n: nat)
    ensures 0 < n
  {
    if i == 0 then 1 else 2 * Exp2(i - 1)
  }

  // How far the square of the i-th constant can be from the power it stands for.
  ghost function Drift(i: nat): real {
    (16 * Exp2(i) - 8) as real * TINY
  }

  lemma DriftIsSmall(i: nat)
    requires i < 20
    ensures 0.0 <= Drift(i) <= TINY19
    ensures i < 19 ==> Drift(i + 1) == 2.0 * Drift(i) + 8.0 * TINY
  {
    assert Exp2(i) <= 524_288 by { Exp2Grows(i, 19); assert Exp2(10) == 1024; }
  }

  lemma {:induction false} Exp2Grows(i: nat, j: nat)
    requires i <= j
    ensures Exp2(i) <= Exp2(j)
    decreases j - i
  {
    if i < j {
      Exp2Grows(i + 1, j);
    }
  }

  ghost function Fraction(m: int): real {
    m as real / Q128 as real
  }

  ghost function Square(x: real): real {
    Mul(x, x)
  }

  // Each constant is nearly the square of the one before it.
  lemma NextIsSquare(i: nat)
    requires i < 19
    ensures Within(Fraction(Multiplier(i + 1)), Square(Fraction(Multiplier(i))), 1.0 + TINY)
  {
    hide Within, Fraction, Square;
    MultipliersSquare(i);
    LastIsLeast(i + 1);
    CloseFractions(Multiplier(i + 1), Multiplier(i));
  }

  lemma LastIsLeast(i: nat)
    requires i < 20
    ensures 1_000_000_000_000_000_000_000_000_000 <= Multiplier(i)
  {
  }

  lemma CloseFractions(a: int, b: int)
    requires 1_000_000_000_000_000_000_000_000_000 <= a && 0 < b && (a - 2) * Q128 < b * b < (a + 2) * Q128
    ensures Within(Fraction(a), Square(Fraction(b)), 1.0 + TINY)
  {
    NearlySquare(a as real, b as real, Q128 as real);
    Scale(a as real, b as real, Q128 as real, 1.0 + TINY);
  }

  lemma NearlySquare(a: real, b: real, q: real)
    requires 1_000_000_000_000_000_000_000_000_000.0 <= a && 0.0 < b && 0.0 < q
    requires (a - 2.0) * q < b * b < (a + 2.0) * q
    ensures Within(Mul(a, q), Square(b), 1.0 + TINY)
  {
    Scaled(2.0, a * (TINY / 2.0), q);
    Positive(a, q);
  }

  lemma Scale(a: real, b: real, q: real, r: real)
    requires 0.0 < q && 0.0 < r && Within(Mul(a, q), Square(b), r)
    ensures Within(a / q, Square(b / q), r)
  {
    var x, y := a / q, b / q;
    assert Mul(x, q) == a && Mul(y, q) == b;
    ScaleBack(x, y, q, r);
  }

  lemma ScaleBack(x: real, y: real, q: real, r: real)
    requires 0.0 < q && 0.0 < r && Within(Mul(Mul(x, q), q), Square(Mul(y, q)), r)
    ensures Within(x, Square(y), r)
  {
    hide Within, Mul;
    MulShuffles(y, q, y, q);
    MulRegroups(Square(y), q, q);
    Cancel(Mul(x, q), Mul(Square(y), q), q, r);
    Cancel(x, Square(y), q, r);
  }

  // The square of the i-th constant is 1.0001^-(2^i).
  lemma {:induction false} MultiplierIsRoot(i: nat)
    requires i < 20
    ensures Within(Square(Fraction(Multiplier(i))), Power(W, Exp2(i)), 1.0 + Drift(i))
  {
    hide Within, Fraction, Drift, Multiplier, Power, Square, Mul;
    DriftIsSmall(i);
    if i == 0 {
      FirstIsRoot();
    } else {
      var x, y, p := Fraction(Multiplier(i - 1)), Fraction(Multiplier(i)), Power(W, Exp2(i - 1));
      DriftIsSmall(i - 1);
      MultiplierIsRoot(i - 1);
      NextIsSquare(i - 1);
      assert Power(W, Exp2(i)) == Mul(p, p) by {
        assert Exp2(i) == Exp2(i - 1) + Exp2(i - 1);
        PowerAdds(W, Exp2(i - 1), Exp2(i - 1));
      }
      var e := Drift(i - 1);
      var r := 1.0 + (e + 2.0 * TINY);
      SmallProduct(e, TINY);
      Chain(y, Square(x), p, 1.0 + TINY, 1.0 + e, r);
      SmallSquare(e);
      Times(y, p, y, p, r, r, 1.0 + Drift(i));
      SquareIsMul(y);
    }
  }

  lemma FirstIsRoot()
    ensures Within(Square(Fraction(Multiplier(0))), Power(W, Exp2(0)), 1.0 + Drift(0))
  {
    MultipliersSquare(0);
    assert Power(W, 1) == W * Power(W, 0);
  }

  lemma SquareIsMul(x: real)
    ensures Square(x) == Mul(x, x)
  {
  }

  lemma SmallProduct(e: real, h: real)
    requires 0.0 <= e <= 1.0 && 0.0 <= h
    ensures (1.0 + h) * (1.0 + e) <= 1.0 + (e + 2.0 * h)
  {
    Scaled(e, 1.0, h);
  }

  lemma SmallSquare(e: real)
    requires 0.0 <= e <= TINY19
    ensures (1.0 + (e + 2.0 * TINY)) * (1.0 + (e + 2.0 * TINY)) <= 1.0 + (2.0 * e + 8.0 * TINY)
  {
    Scaled(e, TINY19, e);
    Scaled(e, TINY19, 4.0 * TINY);
  }

  // --- The product of the constants of a tick's bits ---

  lemma FloorIsNear(ratio: int, m: int, next: int)
    requires 0 < ratio && 0 < m && next == ratio * m / Q128 && 18_446_744_073_709_551_616 <= next
    ensures Within(next as real, Mul(ratio as real, Fraction(m)), 1.0 + TINY19)
  {
    var v := ratio as real * Fraction(m);
    assert v * Q128 as real == (ratio * m) as real;
    assert (next * Q128) as real <= (ratio * m) as real < ((next + 1) * Q128) as real;
    assert next as real <= v < next as real + 1.0;
  }

  // One constant multiplied in.
  lemma OneBit(ratio: int, m: int, next: int, w: real)
    requires 0 < ratio && 0 < m && next == ratio * m / Q128 && 18_446_744_073_709_551_616 <= next
    requires Within(Square(Fraction(m)), w, 1.0 + TINY19)
    ensures Within(Square(next as real), Mul(Square(ratio as real), w), 1.0 + TINY18)
  {
    hide Within, Square, Fraction, Mul;
    FloorIsNear(ratio, m, next);
    var n, r, x := next as real, ratio as real, Fraction(m);
    var v := Mul(r, x);
    Times(n, v, n, v, 1.0 + TINY19, 1.0 + TINY19, 1.0 + 3.0 * TINY19);
    SquareIsMul(n);
    SquareIsMul(x);
    SquareIsMul(r);
    MulShuffles(r, x, r, x);
    MulPositive(r, r);
    Same(Square(r));
    Times(Square(r), Square(r), Square(x), w, 1.0, 1.0 + TINY19, 1.0 + TINY19);
    Chain(Square(n), Mul(Square(r), Square(x)), Mul(Square(r), w),
          1.0 + 3.0 * TINY19, 1.0 + TINY19, 1.0 + TINY18);
  }

  lemma BitIsRoot(i: nat)
    requires i < 20
    ensures Within(Square(Fraction(Multiplier(i))), Power(W, Exp2(i)), 1.0 + TINY19)
  {
    hide Within, Multiplier, Power, Square, Fraction, Drift;
    MultiplierIsRoot(i);
    DriftIsSmall(i);
    Weaken(Square(Fraction(Multiplier(i))), Power(W, Exp2(i)), 1.0 + Drift(i), 1.0 + TINY19);
  }

  ghost function Slack(k: nat): real {
    1.0 + (2 * k) as real * TINY18
  }

  lemma LooserSlack(k: nat)
    ensures 1.0 <= Slack(k) && Slack(k) <= Slack(k + 1)
    ensures k < 20 ==> Slack(k) * (1.0 + TINY18) <= Slack(k + 1)
  {
    if k < 20 {
      SmallProduct((2 * k) as real * TINY18, TINY18);
    }
  }

  lemma NothingStands(i: nat)
    ensures Stands(0, i) == 0
  {
  }

  // What the square of a ratio should become.
  ghost function Aim(ratio: int, n: nat): real {
    Mul(Square(ratio as real), Power(W, n))
  }

  lemma AimIs(ratio: int, n: nat)
    ensures Aim(ratio, n) == Mul(Square(ratio as real), Power(W, n))
  {
  }

  lemma PowerIsPositive(n: nat)
    ensures 0.0 < Power(W, n)
  {
  }

  lemma NoBitsLeft(ratio: int)
    requires 0 < ratio
    ensures Within(Square(ratio as real), Aim(ratio, 0), Slack(0))
  {
    MulPositive(ratio as real, ratio as real);
  }

  // The number the bits stand for when the lowest of them stands for 2^i.
  function Stands(bits: nat, i: nat): nat {
    bits * Exp2(i)
  }

  lemma StandsHalved(bits: nat, i: nat)
    ensures Stands(bits, i) == (if bits % 2 == 1 then Exp2(i) else 0) + Stands(bits / 2, i + 1)
  {
    var h, p := bits / 2, Exp2(i);
    assert bits == 2 * h + bits % 2;
    if bits % 2 == 1 {
      assert (2 * h + 1) * p == h * (2 * p) + p;
    } else {
      assert (2 * h) * p == h * (2 * p);
    }
  }

  lemma NextRatio(bits: nat, i: nat, ratio: int, next: int)
    requires i < 20 && bits % 2 == 1 && next == ratio * Multiplier(i) / Q128
    requires 0 < ratio && 18_446_744_073_709_551_616 <= Decompose(bits, i, ratio)
    ensures Decompose(bits, i, ratio) == Decompose(bits / 2, i + 1, next) && 18_446_744_073_709_551_616 <= next
  {
    hide Decompose, Multiplier;
    SetBit(bits, i, ratio, next);
    ShrinkBy(ratio, Multiplier(i));
    DecomposeShrinks(bits / 2, i + 1, next);
  }

  // All of them: the square of the product is 1.0001 to minus the number the bits stand for.
  lemma {:induction false} DecomposeIsRoot(bits: nat, i: nat, ratio: int)
    requires i <= 20 && bits < Room(i) && 0 < ratio && 18_446_744_073_709_551_616 <= Decompose(bits, i, ratio)
    ensures Within(Square(Decompose(bits, i, ratio) as real), Aim(ratio, Stands(bits, i)), Slack(20 - i))
    decreases 20 - i
  {
    hide Within, Multiplier, Power, Square, Slack, Aim, Fraction, Stands, Mul;
    if i == 20 {
      NoBitsLeft(ratio);
      NothingStands(i);
    } else {
      hide Decompose;
      StandsHalved(bits, i);
      var rest, d := Stands(bits / 2, i + 1), Square(Decompose(bits, i, ratio) as real);
      if bits % 2 == 1 {
        var next := ratio * Multiplier(i) / Q128;
        NextRatio(bits, i, ratio, next);
        DecomposeIsRoot(bits / 2, i + 1, next);
        BitIsRoot(i);
        var w, p, n, r := Power(W, Exp2(i)), Power(W, rest), Square(next as real), Square(ratio as real);
        OneBit(ratio, Multiplier(i), next, w);
        PowerAdds(W, Exp2(i), rest);
        PowerIsPositive(rest);
        LooserSlack(19 - i);
        Same(p);
        Times(n, Mul(r, w), p, p, 1.0 + TINY18, 1.0, 1.0 + TINY18);
        MulRegroups(r, w, p);
        AimIs(next, rest);
        AimIs(ratio, Exp2(i) + rest);
        Chain(d, Mul(n, p), Mul(r, Mul(w, p)), Slack(19 - i), 1.0 + TINY18, Slack(20 - i));
      } else {
        ClearBit(bits, i, ratio);
        DecomposeIsRoot(bits / 2, i + 1, ratio);
        LooserSlack(19 - i);
        Weaken(d, Aim(ratio, rest), Slack(19 - i), Slack(20 - i));
      }
    }
  }

  // --- The price of a tick ---

  lemma {:induction false} MagnitudeIsLarge(n: nat)
    requires n <= MAX_TICK
    ensures 18_446_744_073_709_551_616 <= Magnitude(n)
    decreases MAX_TICK - n
  {
    hide Decompose;
    if n < MAX_TICK {
      MagnitudeGap(n);
      MagnitudeIsLarge(n + 1);
    } else {
      LastRatio(0);
    }
  }

  lemma MagnitudeIsRoot(n: nat)
    requires n <= MAX_TICK
    ensures Within(Square(Magnitude(n) as real), Mul(Square(Q128 as real), Power(W, n)), 1.0 + TIGHT)
  {
    hide Decompose, Within, Square, Mul, Power;
    MagnitudeIsLarge(n);
    assert Room(16) == 16 && Room(12) == 256 && Room(8) == 4096 && Room(4) == 65536;
    assert Stands(n, 0) == n;
    DecomposeIsRoot(n, 0, Q128);
    Weaken(Square(Magnitude(n) as real), Aim(Q128, n), Slack(20), 1.0 + TIGHT);
  }

  // 1.0001^tick
  ghost function PriceAt(tick: int): real {
    if tick >= 0 then Power(1.0001, tick) else 1.0 / Power(1.0001, -tick)
  }

  const LOOSE: real := 0.000_000_000_000_001
  const TIGHT: real := 0.000_000_000_000_000_1

  lemma PricesAreInverse(n: nat)
    ensures 0.0 < Power(W, n) && 0.0 < Power(1.0001, n)
    ensures Mul(Power(W, n), Power(1.0001, n)) == 1.0
    ensures PriceAt(0 - n) == Power(W, n) && PriceAt(n) == Power(1.0001, n)
  {
    PowersCancel(W, 1.0001, n);
  }

  // The ratio with its 128 fractional bits, before it is shortened to 96.
  function Unshifted(tick: int): int
    requires InTickRange(tick)
  {
    var n := if tick < 0 then -tick else tick;
    if tick > 0 && Magnitude(n) != 0 then TDiv(MAX_UINT256, Magnitude(n)) else Magnitude(n)
  }

  // Its square over 2^256 is the price.
  lemma UnshiftedIsRoot(tick: int)
    requires InTickRange(tick)
    ensures 0 < Unshifted(tick)
    ensures Within(Square(Unshifted(tick) as real), Mul(Square(Q128 as real), PriceAt(tick)), 1.0 + LOOSE)
  {
    hide Within, Square, Mul, Power, Decompose, PriceAt, TDiv;
    var n := if tick < 0 then -tick else tick;
    MagnitudeIsLarge(n);
    MagnitudeIsRoot(n);
    PricesAreInverse(n);
    if tick > 0 {
      DecomposeShrinks(n, 0, Q128);
      ReciprocalIsRoot(Magnitude(n), Power(W, n), Power(1.0001, n));
    } else {
      Weaken(Square(Magnitude(n) as real), Mul(Square(Q128 as real), Power(W, n)), 1.0 + TIGHT, 1.0 + LOOSE);
    }
  }

  lemma ReciprocalIsNear(r: int, u: int)
    requires 18_446_744_073_709_551_616 <= r <= Q128 && u == TDiv(MAX_UINT256, r)
    ensures 0 < u && Within(Mul(u as real, r as real), Square(Q128 as real), 1.0 + TINY19)
  {
    TDivFloor(MAX_UINT256, r);
    assert u * r <= MAX_UINT256 < u * r + r;
    assert Mul(u as real, r as real) == (u * r) as real;
    assert Q128 * Q128 == MAX_UINT256 + 1;
  }

  lemma ReciprocalIsRoot(r: int, w: real, p: real)
    requires 18_446_744_073_709_551_616 <= r <= Q128 && 0.0 < w && 0.0 < p && Mul(w, p) == 1.0
    requires Within(Square(r as real), Mul(Square(Q128 as real), w), 1.0 + TIGHT)
    ensures var u := TDiv(MAX_UINT256, r);
            0 < u && Within(Square(u as real), Mul(Square(Q128 as real), p), 1.0 + LOOSE)
  {
    hide Within, Mul, Square;
    var u := TDiv(MAX_UINT256, r);
    ReciprocalIsNear(r, u);
    var v, q, t := u as real, Q128 as real, 1.0 + 3.0 * TINY19;
    var uu, rr, qq := Square(v), Square(r as real), Square(q);
    SquareIsMul(v);
    SquareIsMul(r as real);
    SquareIsMul(q);
    MulPositive(v, v);
    MulPositive(q, q);
    Times(Mul(v, r as real), qq, Mul(v, r as real), qq, 1.0 + TINY19, 1.0 + TINY19, t);
    MulShuffles(v, r as real, v, r as real);
    Same(uu);
    Times(uu, uu, rr, Mul(qq, w), 1.0, 1.0 + TIGHT, 1.0 + TIGHT);
    Turn(Mul(uu, rr), Mul(uu, Mul(qq, w)), 1.0 + TIGHT);
    Chain(Mul(uu, Mul(qq, w)), Mul(uu, rr), Mul(qq, qq), 1.0 + TIGHT, t, 1.0 + LOOSE);
    MulSwaps(uu, qq, w);
    Cancel(Mul(uu, w), qq, qq, 1.0 + LOOSE);
    Same(p);
    Times(Mul(uu, w), qq, p, p, 1.0 + LOOSE, 1.0, 1.0 + LOOSE);
    MulRegroups(uu, w, p);
    MulOne(uu);
  }

  lemma Turn(a: real, b: real, r: real)
    requires Within(a, b, r)
    ensures Within(b, a, r)
  {
  }

  lemma MulSwaps(a: real, b: real, c: real)
    ensures Mul(a, Mul(b, c)) == Mul(Mul(a, c), b)
  {
  }

  lemma MulOne(a: real)
    ensures Mul(a, 1.0) == a
  {
  }

  // What the table is for: the ratio of a tick is 2^96 times the square root of 1.0001^tick, rounded up,
  // to fifteen digits.
  lemma RatioIsSquareRoot(tick: int)
    requires InTickRange(tick)
    ensures var x, q := RatioOf(tick) as real, 79228162514264337593543950336.0;
            && 1.0 <= x
            && PriceAt(tick) * q * q <= x * x * 1.000_000_000_000_001
            && (x - 1.0) * (x - 1.0) <= PriceAt(tick) * q * q * 1.000_000_000_000_001
  {
    hide Within, Square, Mul, PriceAt, Magnitude;
    UnshiftedIsRoot(tick);
    var u, x := Unshifted(tick), RatioOf(tick);
    RatioRange(tick);
    assert x == ShiftUp(u);
    ShiftIsNear(u, x, PriceAt(tick));
  }

  lemma ShiftIsNear(u: int, x: int, price: real)
    requires 0 < u && x == ShiftUp(u)
    requires Within(Square(u as real), Mul(Square(Q128 as real), price), 1.0 + LOOSE)
    ensures var q := 79228162514264337593543950336.0;
            1 <= x && price * q * q <= x as real * x as real * 1.000_000_000_000_001
            && (x as real - 1.0) * (x as real - 1.0) <= price * q * q * 1.000_000_000_000_001
  {
    hide Within, Square, Mul;
    ShiftFits(u, x);
    Shifted(u as real, x as real - 1.0, x as real, price, 79228162514264337593543950336.0, 4294967296.0);
  }

  lemma ShiftFits(u: int, x: int)
    requires 0 < u && x == ShiftUp(u)
    ensures 1 <= x && (x as real - 1.0) * 4294967296.0 <= u as real <= x as real * 4294967296.0
  {
    assert (x - 1) * Q32 < u <= x * Q32;
  }

  lemma Shifted(u: real, a: real, b: real, price: real, q: real, k: real)
    requires 0.0 <= a && 0.0 < k && 0.0 < u && a * k <= u <= b * k
    requires Within(Square(u), Mul(Square(q * k), price), 1.0 + LOOSE)
    ensures price * q * q <= b * b * (1.0 + LOOSE) && a * a <= price * q * q * (1.0 + LOOSE)
  {
    hide Mul;
    SquaresInOrder(u, a, b, k);
    AimOf(price, q, k);
    MulPositive(k, k);
    var aim := price * q * q;
    CancelMul(aim, b * b, Square(k), 1.0 + LOOSE);
    CancelMul(a * a, aim, Square(k), 1.0 + LOOSE);
  }

  lemma SquaresInOrder(u: real, a: real, b: real, k: real)
    requires 0.0 <= a && 0.0 < k && 0.0 < u && a * k <= u <= b * k
    ensures Mul(a * a, Square(k)) <= Square(u) <= Mul(b * b, Square(k))
  {
    Shuffle(a, k, a, k);
    Shuffle(b, k, b, k);
    Scaled(0.0, a, k);
    SquareIsMonotone(a * k, u);
    SquareIsMonotone(u, b * k);
  }

  lemma AimOf(price: real, q: real, k: real)
    ensures Mul(Square(q * k), price) == Mul(price * q * q, Square(k))
  {
  }

  lemma CancelMul(a: real, b: real, c: real, r: real)
    requires 0.0 < c && Mul(a, c) <= Mul(b, c) * r
    ensures a <= b * r
  {
    CancelOne(a, b, c, r);
  }

  lemma SquareIsMonotone(a: real, b: real)
    requires 0.0 <= a <= b
    ensures a * a <= b * b
  {
    Scaled(a, b, a);
    Scaled(a, b, b);
  }
}
