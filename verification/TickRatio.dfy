/** src/math/tick_math.ts: the price of a tick, and why prices of different ticks differ. */
module TickRatio {
  import opened IntMath
  import opened Outcomes

  const MIN_TICK: int := -887272
  const MAX_TICK: int := 887272
  const MIN_SQRT_RATIO: int := 4295128739
  const MAX_SQRT_RATIO: int := 1461446703485210103287273052203988822378723970342
  const MAX_UINT256: int := 115792089237316195423570985008687907853269984665640564039457584007913129639935
  const Q128: int := 0x1_0000_0000_0000_0000_0000_0000_0000_0000
  const Q32: int := 0x1_0000_0000

  // 2^128 / sqrt(1.0001^(2^i))
  function Multiplier(i: nat): (m: int)
    requires i < 20
    ensures 0 < m < Q128
  {
    if i == 0 then 0xfffcb933bd6fad37aa2d162d1a594001
    else if i == 1 then 0xfff97272373d413259a46990580e213a
    else if i == 2 then 0xfff2e50f5f656932ef12357cf3c7fdcc
    else if i == 3 then 0xffe5caca7e10e4e61c3624eaa0941cd0
    else if i == 4 then 0xffcb9843d60f6159c9db58835c926644
    else if i == 5 then 0xff973b41fa98c081472e6896dfb254c0
    else if i == 6 then 0xff2ea16466c96a3843ec78b326b52861
    else if i == 7 then 0xfe5dee046a99a2a811c461f1969c3053
    else if i == 8 then 0xfcbe86c7900a88aedcffc83b479aa3a4
    else if i == 9 then 0xf987a7253ac413176f2b074cf7815e54
    else if i == 10 then 0xf3392b0822b70005940c7a398e4b70f3
    else if i == 11 then 0xe7159475a2c29b7443b29c7fa6e889d9
    else if i == 12 then 0xd097f3bdfd2022b8845ad8f792aa5825
    else if i == 13 then 0xa9f746462d870fdf8a65dc1f90e061e5
    else if i == 14 then 0x70d869a156d2a1b890bb3df62baf32f7
    else if i == 15 then 0x31be135f97d08fd981231505542fcfa6
    else if i == 16 then 0x9aa508b5b7a84e1c677de54f3e99bc9
    else if i == 17 then 0x5d6af8dedb81196699c329225ee604
    else if i == 18 then 0x2216e584f5fa1ea926041bedfe98
    else 0x48a170391f7dc42444e8fa2
  }

  // The constants are the successive squares they should be, within two units of the last place; and
  // the first is 2^128 / sqrt(1.0001), within one.
  lemma MultipliersSquare(i: nat)
    requires i < 19
    ensures (Multiplier(i + 1) - 2) * Q128 < Multiplier(i) * Multiplier(i) < (Multiplier(i + 1) + 2) * Q128
    ensures (Multiplier(0) - 1) * (Multiplier(0) - 1) * 10_001 < Q128 * Q128 * 10_000
            < (Multiplier(0) + 1) * (Multiplier(0) + 1) * 10_001
  {
  }

  // Multiply in the constant of every bit set in `bits`, whose lowest bit stands for 2^i.
  function Decompose(bits: nat, i: nat, ratio: int): int
    requires i <= 20
    decreases 20 - i
  {
    if i == 20 then ratio
    else Decompose(bits / 2, i + 1, if bits % 2 == 1 then ratio * Multiplier(i) / Q128 else ratio)
  }

  // 2^128 / sqrt(1.0001^n)
  function Magnitude(n: nat): int {
    Decompose(n, 0, Q128)
  }

  // From Q128.128 to Q128.96, rounding up.
  function ShiftUp(ratio: int): int {
    if ratio % Q32 == 0 then ratio / Q32 else ratio / Q32 + 1
  }

  function GetSqrtRatioAtTick(tick: int): Result<int> {
    if tick < MIN_TICK || tick > MAX_TICK then Err("TickMath: tick out of range")
    else
      var ratio := Magnitude(if tick < 0 then -tick else tick);
      if tick > 0 then
        if ratio == 0 then Err("division by zero") else Ok(ShiftUp(TDiv(MAX_UINT256, ratio)))
      else Ok(ShiftUp(ratio))
  }

  // --- The two ends of the table ---

  // The bits of 887272 from bit i up, and the ratio on reaching bit i.
  function EndBits(i: nat): nat
    requires i <= 20
  {
    if i == 0 then 887272
    else if i == 1 then 443636
    else if i == 2 then 221818
    else if i == 3 then 110909
    else if i == 4 then 55454
    else if i == 5 then 27727
    else if i == 6 then 13863
    else if i == 7 then 6931
    else if i == 8 then 3465
    else if i == 9 then 1732
    else if i == 10 then 866
    else if i == 11 then 433
    else if i == 12 then 216
    else if i == 13 then 108
    else if i == 14 then 54
    else if i == 15 then 27
    else if i == 16 then 13
    else if i == 17 then 6
    else if i == 18 then 3
    else if i == 19 then 1
    else 0
  }

  function EndRatio(i: nat): int
    requires i <= 20
  {
    if i == 0 then 0x100000000000000000000000000000000
    else if i == 1 then 0x100000000000000000000000000000000
    else if i == 2 then 0x100000000000000000000000000000000
    else if i == 3 then 0x100000000000000000000000000000000
    else if i == 4 then 0xffe5caca7e10e4e61c3624eaa0941cd0
    else if i == 5 then 0xffe5caca7e10e4e61c3624eaa0941cd0
    else if i == 6 then 0xff7d10c63a977157da4140deb6f31a7b
    else if i == 7 then 0xfeac1d4052f7714818b490c1138ea058
    else if i == 8 then 0xfd0c3654da9e033741d1a9f93707f6f6
    else if i == 9 then 0xf9d459c5817dbafa9e376ae84dcfeb8b
    else if i == 10 then 0xf9d459c5817dbafa9e376ae84dcfeb8b
    else if i == 11 then 0xf9d459c5817dbafa9e376ae84dcfeb8b
    else if i == 12 then 0xe183ac4e25d5949966242a64e9c80e2f
    else if i == 13 then 0xe183ac4e25d5949966242a64e9c80e2f
    else if i == 14 then 0xe183ac4e25d5949966242a64e9c80e2f
    else if i == 15 then 0xe183ac4e25d5949966242a64e9c80e2f
    else if i == 16 then 0x2bd1a4c5d2a1181aca1ef15e64c2e3cf
    else if i == 17 then 0x1a785cbbdc050483e3be5812760be73
    else if i == 18 then 0x1a785cbbdc050483e3be5812760be73
    else if i == 19 then 0x3865a6455d07d2bc87c5956d2e
    else 0x1000276a221a17501
  }

  lemma EndRatioStep(i: nat)
    requires i < 20
    ensures EndBits(i) / 2 == EndBits(i + 1)
    ensures EndRatio(i + 1) == if EndBits(i) % 2 == 1 then EndRatio(i) * Multiplier(i) / Q128 else EndRatio(i)
  {
  }

  lemma {:induction false} LastRatio(i: nat)
    requires i <= 20
    ensures Decompose(EndBits(i), i, EndRatio(i)) == EndRatio(20)
    decreases 20 - i
  {
    if i < 20 {
      EndRatioStep(i);
      LastRatio(i + 1);
    }
  }

  lemma ShiftedEnds(ratio: int)
    requires ratio == EndRatio(20)
    ensures ShiftUp(ratio) == MIN_SQRT_RATIO
    ensures ShiftUp(TDiv(MAX_UINT256, ratio)) == MAX_SQRT_RATIO
  {
  }

  lemma EndPoints(low: int, high: int)
    requires low == MIN_TICK && high == MAX_TICK
    ensures GetSqrtRatioAtTick(low) == Ok(MIN_SQRT_RATIO)
    ensures GetSqrtRatioAtTick(high) == Ok(MAX_SQRT_RATIO)
  {
    LastRatio(0);
    ShiftedEnds(Magnitude(high));
  }

  // --- Neighbouring ticks stay apart ---

  // A gap of this size before bit i survives every remaining multiplication as 67 * 2^32.
  function GapNeeded(i: nat): int
    requires i <= 20
  {
    if i == 0 then 0x340537dc10566ff2017ed44352297
    else if i == 1 then 0x34048d6979cce2f180c33c89a7a1a
    else if i == 2 then 0x3403388ad823ec4384c4c0b782fc1
    else if i == 3 then 0x34008ee7c1b26a67e5e8092da00b2
    else if i == 4 then 0x33fb3c0a4210532a890482991a933
    else if i == 5 then 0x33f097f1c5ce975fd1c53d43a3763
    else if i == 6 then 0x33db56494997b4e8912bf44f02b07
    else if i == 7 then 0x33b0ed0dc93d537b7cc28d5466b43
    else if i == 8 then 0x335c82892c59c1274a7cd269083d8
    else if i == 9 then 0x32b54a325f9ab10efa3a80bf57b3b
    else if i == 10 then 0x316d33e0c2cc5fd4fc2fffb7dda36
    else if i == 11 then 0x2ef5b1ddcfc7942bef8b6e5b882ce
    else if i == 12 then 0x2a63a8e25ca8d5d562a64cffac709
    else if i == 13 then 0x228a225c979a3282c87c0b4fa5fe0
    else if i == 14 then 0x16ee8d7184ba48eb5700832f63fc8
    else if i == 15 then 0xa1bc09f4dab029a16c87d41d8523
    else if i == 16 then 0x1f6d13b49b049257fd84b3c5c9a5
    else if i == 17 then 0x12fbe03a0ff0dfc6c1fff8bf1dd
    else if i == 18 then 0x6ed6f3477c0d872e5fe0812b
    else if i == 19 then 0xec276283f92d9f54205
    else 0x4300000000
  }

  // The ratio once the constants of all bits below i are multiplied in.
  function LowOnes(i: nat): int
    requires i <= 20
  {
    if i == 0 then 0x100000000000000000000000000000000
    else if i == 1 then 0xfffcb933bd6fad37aa2d162d1a594001
    else if i == 2 then 0xfff62bbb6d458ec3c792106391dc463e
    else if i == 3 then 0xffe9114b9cf28d394c3203dbd44eb085
    else if i == 4 then 0xffcede6f1d8be90b88f350424e84e5b7
    else if i == 5 then 0xff9a80c1ada7480b1daa871d7c4d9b36
    else if i == 6 then 0xff31e58d5a53c84fc142023ec1b1dfd7
    else if i == 7 then 0xfe612f8183b1ea21b72fb71b03542ae4
    else if i == 8 then 0xfcc1c2f380536bc67ee1ff564d1080b2
    else if i == 9 then 0xf98ad8c8d7ecc0a3f8a42c9724cffb6a
    else if i == 10 then 0xf33c480189b415235ad119427d89a1f6
    else if i == 11 then 0xe71889a85903fd03cb7cc40bdf371a9c
    else if i == 12 then 0xd09a9f3e93db5812d4820c2fc67a3e3a
    else if i == 13 then 0xa9f973345b9e647c4163af91d00b255f
    else if i == 14 then 0x70d9db6485f04ddd567e07c7b89f8e7c
    else if i == 15 then 0x31beb65d91af63ae717a760be3b374dc
    else if i == 16 then 0x9aa7036fd2355429c4030b032e1cf71
    else if i == 17 then 0x5d6c2af97aaa8de0e5a6bf23f5e547
    else if i == 18 then 0x221755388a6658e120f4a3c503cf
    else if i == 19 then 0x48a25e36942a4fc0c1f899f
    else 0x149b7873d84d48
  }

  lemma GapNeededStep(i: nat, gap: int)
    requires i < 20 && GapNeeded(i) <= gap
    ensures GapNeeded(i + 1) <= gap * Multiplier(i) / Q128
  {
  }

  lemma LowOnesStep(i: nat)
    requires i < 20
    ensures LowOnes(i) * Multiplier(i) / Q128 == LowOnes(i + 1)
  {
  }

  lemma FirstGap(k: nat)
    requires k < 20
    ensures GapNeeded(k + 1) <= LowOnes(k) - Multiplier(k)
  {
  }

  // --- Decomposing n and n + 1 ---

  // One more than the greatest number whose bits start at bit i.
  function Room(i: nat): nat
    requires i <= 20
    decreases 20 - i
  {
    if i == 20 then 1 else 2 * Room(i + 1)
  }

  lemma SplitGap(a: int, b: int, m: int)
    requires 0 <= a <= b && 0 < m
    ensures a * m / Q128 + (b - a) * m / Q128 <= b * m / Q128
    ensures 0 <= a * m / Q128
  {
  }

  lemma {:induction false} SameBitsKeepGap(bits: nat, i: nat, a: int, b: int)
    requires i <= 20 && 0 <= a && GapNeeded(i) <= b - a
    ensures 0 <= Decompose(bits, i, a) && 67 * Q32 <= Decompose(bits, i, b) - Decompose(bits, i, a)
    decreases 20 - i
  {
    if i < 20 {
      var m := Multiplier(i);
      GapNeededStep(i, b - a);
      if bits % 2 == 1 {
        SplitGap(a, b, m);
        SameBitsKeepGap(bits / 2, i + 1, a * m / Q128, b * m / Q128);
      } else {
        ShrinkBy(b - a, m);
        SameBitsKeepGap(bits / 2, i + 1, a, b);
      }
    }
  }

  lemma ShrinkBy(g: int, m: int)
    requires 0 <= g && 0 < m < Q128
    ensures 0 <= g * m / Q128 <= g
  {
  }

  // n and n + 1 with the low ones of n already multiplied in.
  predicate Apart(n: nat, i: nat)
    requires i <= 20
  {
    && 0 <= Decompose(n + 1, i, Q128)
    && 67 * Q32 <= Decompose(n, i, LowOnes(i)) - Decompose(n + 1, i, Q128)
  }

  // Adding one carries through the low ones up to the first zero bit.
  lemma {:induction false} SuccessorGap(n: nat, i: nat)
    requires i <= 20 && n + 1 < Room(i)
    ensures Apart(n, i)
    decreases 20 - i
  {
    if i == 20 {
      assert false;
    } else if n % 2 == 0 {
      CarryStops(n, i);
    } else {
      RoomHalves(n, i);
      SuccessorGap(n / 2, i + 1);
      CarryGoesOn(n, i);
    }
  }

  lemma RoomHalves(n: nat, i: nat)
    requires i < 20 && n % 2 == 1 && n + 1 < Room(i)
    ensures n / 2 + 1 < Room(i + 1)
  {
  }

  lemma CarryStops(n: nat, i: nat)
    requires i < 20 && n % 2 == 0
    ensures Apart(n, i)
  {
    hide Decompose, LowOnes, GapNeeded;
    var m := Multiplier(i);
    FirstGap(i);
    assert m == Q128 * m / Q128;
    SameBitsKeepGap(n / 2, i + 1, m, LowOnes(i));
    SetBit(n + 1, i, Q128, m);
    ClearBit(n, i, LowOnes(i));
  }

  lemma CarryGoesOn(n: nat, i: nat)
    requires i < 20 && n % 2 == 1 && Apart(n / 2, i + 1)
    ensures Apart(n, i)
  {
    hide Decompose, LowOnes;
    ClearBit(n + 1, i, Q128);
    AbsorbOne(n, i);
    assert (n + 1) / 2 == n / 2 + 1;
  }

  lemma AbsorbOne(n: nat, i: nat)
    requires i < 20 && n % 2 == 1
    ensures Decompose(n, i, LowOnes(i)) == Decompose(n / 2, i + 1, LowOnes(i + 1))
  {
    LowOnesStep(i);
    SetBit(n, i, LowOnes(i), LowOnes(i + 1));
  }

  lemma SetBit(n: nat, i: nat, ratio: int, next: int)
    requires i < 20 && n % 2 == 1 && next == ratio * Multiplier(i) / Q128
    ensures Decompose(n, i, ratio) == Decompose(n / 2, i + 1, next)
  {
  }

  lemma ClearBit(n: nat, i: nat, ratio: int)
    requires i < 20 && n % 2 == 0
    ensures Decompose(n, i, ratio) == Decompose(n / 2, i + 1, ratio)
  {
  }

  lemma {:induction false} DecomposeShrinks(bits: nat, i: nat, ratio: int)
    requires i <= 20 && 0 <= ratio
    ensures Decompose(bits, i, ratio) <= ratio
    decreases 20 - i
  {
    if i < 20 {
      ShrinkBy(ratio, Multiplier(i));
      DecomposeShrinks(bits / 2, i + 1, if bits % 2 == 1 then ratio * Multiplier(i) / Q128 else ratio);
    }
  }

  // --- Prices increase strictly with the tick ---

  lemma ReciprocalGap(r1: int, r2: int)
    requires 0 < r2 && r2 + 67 * Q32 <= r1 <= Q128
    ensures MAX_UINT256 / r1 + 2 * Q32 <= MAX_UINT256 / r2
  {
    var q := MAX_UINT256 / r1;
    MulMono(r1, Q128, q + 1);
    assert MAX_UINT256 < (q + 1) * r1;
    assert Q128 - 1 <= q;
    MulMono(r2 + 67 * Q32, r1, q);
    assert (r2 + 67 * Q32) * q == r2 * q + 67 * Q32 * q;
    assert (q + 2 * Q32) * r2 == r2 * q + 2 * Q32 * r2;
    assert (q + 2 * Q32) * r2 <= MAX_UINT256;
    TDivFloor(MAX_UINT256, r2);
    FloorGe(MAX_UINT256 / r2, MAX_UINT256, r2, q + 2 * Q32);
  }

  lemma MagnitudeGap(n: nat)
    requires n < MAX_TICK
    ensures 0 <= Magnitude(n + 1) && Magnitude(n) <= Q128
    ensures 67 * Q32 <= Magnitude(n) - Magnitude(n + 1)
  {
    assert Room(16) == 16 && Room(12) == 256 && Room(8) == 4096 && Room(4) == 65536;
    SuccessorGap(n, 0);
    DecomposeShrinks(n, 0, Q128);
  }

  lemma NeighboursIncrease(tick: int)
    requires MIN_TICK <= tick < MAX_TICK
    ensures GetSqrtRatioAtTick(tick).Ok? && GetSqrtRatioAtTick(tick + 1).Ok?
    ensures GetSqrtRatioAtTick(tick).value < GetSqrtRatioAtTick(tick + 1).value
  {
    hide Decompose;
    if tick < 0 {
      MagnitudeGap(-(tick + 1));
      ShiftKeepsGap(Magnitude(-tick), Magnitude(-(tick + 1)));
    } else {
      MagnitudeIsPositive(tick);
      MagnitudeIsPositive(tick + 1);
      ReciprocalGapAt(tick);
      if tick == 0 {
        NoBits(0);
        ShiftKeepsGap(Q128, TDiv(MAX_UINT256, Magnitude(1)));
      } else {
        ShiftKeepsGap(TDiv(MAX_UINT256, Magnitude(tick)), TDiv(MAX_UINT256, Magnitude(tick + 1)));
      }
    }
  }

  lemma ReciprocalGapAt(n: nat)
    requires n < MAX_TICK && 0 < Magnitude(n) && 0 < Magnitude(n + 1)
    ensures 0 <= TDiv(MAX_UINT256, Magnitude(n))
    ensures TDiv(MAX_UINT256, Magnitude(n)) + Q32 <= TDiv(MAX_UINT256, Magnitude(n + 1))
    ensures n == 0 ==> Q128 + Q32 <= TDiv(MAX_UINT256, Magnitude(1))
  {
    MagnitudeGap(n);
    var r1, r2 := Magnitude(n), Magnitude(n + 1);
    ReciprocalGap(r1, r2);
    if n == 0 {
      NoBits(0);
      assert MAX_UINT256 / Q128 == Q128 - 1;
    }
  }

  lemma ShiftKeepsGap(a: int, b: int)
    requires 0 <= a && a + Q32 <= b
    ensures ShiftUp(a) < ShiftUp(b)
  {
  }

  lemma MagnitudeIsPositive(n: nat)
    requires n <= MAX_TICK
    ensures 0 < Magnitude(n)
  {
    if n < MAX_TICK {
      MagnitudeGap(n);
    } else {
      LastRatio(0);
    }
  }

  lemma {:induction false} NoBits(i: nat)
    requires i <= 20
    ensures Decompose(0, i, Q128) == Q128
    decreases 20 - i
  {
    if i < 20 {
      NoBits(i + 1);
    }
  }

  // The price of a tick is defined on the whole tick range and strictly increasing there.
  lemma {:induction false} RatioIncreases(low: int, high: int)
    requires MIN_TICK <= low < high <= MAX_TICK
    ensures GetSqrtRatioAtTick(low).Ok? && GetSqrtRatioAtTick(high).Ok?
    ensures GetSqrtRatioAtTick(low).value < GetSqrtRatioAtTick(high).value
    decreases high - low
  {
    NeighboursIncrease(high - 1);
    if low < high - 1 {
      RatioIncreases(low, high - 1);
    }
  }
}
