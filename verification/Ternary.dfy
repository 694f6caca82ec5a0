/** src/routing/simulator.ts: sizing a trade by ternary search with a memo. */
module Ternary {
  import opened IntMath
  import opened Outcomes

  // The interval still searched, and the best amount seen.
  datatype Hunt = Hunt(lo: int, hi: int, best: Option<int>)

  function Third(h: Hunt): int {
    TDiv(h.hi - h.lo, 3)
  }

  function Better(score: int -> int, best: Option<int>, amount: int): Option<int> {
    if best.None? || score(amount) > score(best.value) then Some(amount) else best
  }

  function Narrow(score: int -> int, h: Hunt): Hunt {
    var m1, m2 := h.lo + Third(h), h.hi - Third(h);
    if score(m1) > score(m2) then Hunt(h.lo, m2, Better(score, h.best, m1))
    else Hunt(m1, h.hi, Better(score, h.best, m2))
  }

  // At most n rounds; the search stops early when the third of the interval is zero.
  function Rounds(score: int -> int, h: Hunt, n: nat): Hunt
    decreases n
  {
    if n == 0 || Third(h) <= 0 then h else Rounds(score, Narrow(score, h), n - 1)
  }

  function BetterIfPositive(score: int -> int, best: Option<int>, amount: int): Option<int> {
    if amount <= 0 then best else Better(score, best, amount)
  }

  // The last look at both ends and the middle.
  function Finish(score: int -> int, h: Hunt): Option<int> {
    var b1 := BetterIfPositive(score, h.best, h.lo);
    var b2 := BetterIfPositive(score, b1, TDiv(h.lo + h.hi, 2));
    BetterIfPositive(score, b2, h.hi)
  }

  function BestAmount(score: int -> int, minAmount: int, maxAmount: int, iterations: nat): Option<int> {
    Finish(score, Rounds(score, Hunt(minAmount, maxAmount, None), iterations))
  }

  // --- The code, with its memo ---

  // Scores already computed; every entry is the score it claims to be.
  class Memo {
    const score: int -> int
    var scores: map<int, int>

    constructor (score: int -> int)
      ensures this.score == score && Valid()
    {
      this.score := score;
      scores := map[];
    }

    predicate Valid()
      reads this
    {
      forall a :: a in scores ==> scores[a] == score(a)
    }

    method Evaluate(amount: int) returns (s: int)
      requires Valid()
      modifies this
      ensures Valid() && s == score(amount)
      ensures scores == old(scores)[amount := s]
    {
      if amount in scores {
        s := scores[amount];
      } else {
        s := score(amount);
        scores := scores[amount := s];
      }
    }

    method Improve(best: Option<int>, amount: int, s: int) returns (r: Option<int>)
      requires Valid() && s == score(amount)
      modifies this
      ensures Valid() && r == Better(score, best, amount)
    {
      r := best;
      if best.None? {
        r := Some(amount);
      } else {
        var bestScore := Evaluate(best.value);
        if s > bestScore {
          r := Some(amount);
        }
      }
    }
  }

  // The memo does not show in the result.
  method OptimizeInputAmount(score: int -> int, accept: int -> bool, minAmount: int, maxAmount: int, iterations: nat)
    returns (r: Option<int>)
    ensures var best := BestAmount(score, minAmount, maxAmount, iterations);
            r == if best.Some? && accept(best.value) then best else None
  {
    hide Finish, Rounds;
    var lo, hi, best := minAmount, maxAmount, None;
    var memo := new Memo(score);
    ghost var start := Hunt(lo, hi, None);
    var i := 0;
    while i < iterations
      invariant 0 <= i <= iterations && memo.Valid() && memo.score == score && fresh(memo)
      invariant Rounds(score, Hunt(lo, hi, best), iterations - i) == Rounds(score, start, iterations)
    {
      RoundsStep(score, Hunt(lo, hi, best), iterations - i);
      var third := TDiv(hi - lo, 3);
      if third <= 0 {
        break;
      }
      var m1, m2 := lo + third, hi - third;
      var s1 := memo.Evaluate(m1);
      var s2 := memo.Evaluate(m2);
      if s1 > s2 {
        hi := m2;
        best := memo.Improve(best, m1, s1);
      } else {
        lo := m1;
        best := memo.Improve(best, m2, s2);
      }
      i := i + 1;
    }
    RoundsStep(score, Hunt(lo, hi, best), iterations - i);
    best := FinalLook(memo, lo, hi, best);
    if best.Some? && accept(best.value) {
      r := best;
    } else {
      r := None;
    }
  }

  lemma RoundsStep(score: int -> int, h: Hunt, n: nat)
    ensures Rounds(score, h, n) == if n == 0 || Third(h) <= 0 then h else Rounds(score, Narrow(score, h), n - 1)
  {
  }

  // Score the narrowed ends and the midpoint, skipping amounts that are not positive.
  method FinalLook(memo: Memo, lo: int, hi: int, best: Option<int>) returns (r: Option<int>)
    requires memo.Valid()
    modifies memo
    ensures r == Finish(memo.score, Hunt(lo, hi, best))
  {
    var amounts := [lo, TDiv(lo + hi, 2), hi];
    r := best;
    for k := 0 to 3
      invariant memo.Valid()
      invariant k == 0 ==> r == best
      invariant k == 1 ==> r == BetterIfPositive(memo.score, best, lo)
      invariant k == 2 ==> r == BetterIfPositive(memo.score, BetterIfPositive(memo.score, best, lo), TDiv(lo + hi, 2))
      invariant k == 3 ==> r == Finish(memo.score, Hunt(lo, hi, best))
    {
      if amounts[k] <= 0 {
        continue;
      }
      var s := memo.Evaluate(amounts[k]);
      r := memo.Improve(r, amounts[k], s);
    }
  }

  // --- The best of everything evaluated ---

  // The amounts the loop scores.
  function Scored(score: int -> int, h: Hunt, n: nat): set<int>
    decreases n
  {
    if n == 0 || Third(h) <= 0 then {}
    else {h.lo + Third(h), h.hi - Third(h)} + Scored(score, Narrow(score, h), n - 1)
  }

  function Positive(amounts: set<int>): set<int> {
    set a | a in amounts && a > 0
  }

  function AllScored(score: int -> int, minAmount: int, maxAmount: int, n: nat): set<int> {
    var h := Rounds(score, Hunt(minAmount, maxAmount, None), n);
    Scored(score, Hunt(minAmount, maxAmount, None), n) + Positive({h.lo, TDiv(h.lo + h.hi, 2), h.hi})
  }

  predicate Beats(score: int -> int, best: Option<int>, amount: int) {
    best.Some? && score(amount) <= score(best.value)
  }

  lemma {:induction false} RoundsBeatScored(score: int -> int, h: Hunt, n: nat, a: int)
    ensures a in Scored(score, h, n) || Beats(score, h.best, a) ==> Beats(score, Rounds(score, h, n).best, a)
    ensures var b := Rounds(score, h, n).best;
            b == h.best || (b.Some? && b.value in Scored(score, h, n))
    decreases n
  {
    if n > 0 && Third(h) > 0 {
      RoundsBeatScored(score, Narrow(score, h), n - 1, a);
    }
  }

  // For any score, unimodal or not, the chosen amount is one of those evaluated and none of them
  // scores higher; nothing is chosen exactly when nothing was evaluated.
  lemma BestOfAllScored(score: int -> int, minAmount: int, maxAmount: int, n: nat, a: int)
    ensures var r := BestAmount(score, minAmount, maxAmount, n);
            && (a in AllScored(score, minAmount, maxAmount, n) ==> Beats(score, r, a))
            && (r.Some? ==> r.value in AllScored(score, minAmount, maxAmount, n))
  {
    RoundsBeatScored(score, Hunt(minAmount, maxAmount, None), n, a);
  }

  // Ties: what was found first is kept, and a round with equal scores goes on above the lower third.
  lemma TiesKeepTheFirst(score: int -> int, h: Hunt, amount: int)
    ensures h.best.Some? && score(amount) == score(h.best.value) ==> Better(score, h.best, amount) == h.best
    ensures score(h.lo + Third(h)) == score(h.hi - Third(h)) ==>
              Narrow(score, h).lo == h.lo + Third(h) && Narrow(score, h).hi == h.hi
  {
  }

  // --- Strictly unimodal scores ---

  predicate Rises(score: int -> int, a: int, b: int) {
    a < b ==> score(a) < score(b)
  }

  predicate Falls(score: int -> int, a: int, b: int) {
    a < b ==> score(a) > score(b)
  }

  // Strictly rising up to the peak and strictly falling after it.
  ghost predicate Unimodal(score: int -> int, lo: int, hi: int, peak: int) {
    && lo <= peak <= hi
    && (forall a, b :: lo <= a && b <= peak ==> Rises(score, a, b))
    && (forall a, b :: peak <= a && b <= hi ==> Falls(score, a, b))
  }

  // A round keeps the peak inside the interval.
  lemma NarrowKeepsPeak(score: int -> int, h: Hunt, peak: int)
    requires Unimodal(score, h.lo, h.hi, peak) && Third(h) > 0
    ensures var e := Narrow(score, h);
            Unimodal(score, e.lo, e.hi, peak) && h.lo <= e.lo && e.hi <= h.hi
            && 3 * (e.hi - e.lo - 2) <= 2 * (h.hi - h.lo - 2)
  {
    var m1, m2 := h.lo + Third(h), h.hi - Third(h);
    assert m1 < m2;
    assert Rises(score, m1, m2) || m2 > peak;
    assert Falls(score, m1, m2) || m1 < peak;
    assert score(m1) > score(m2) ==> peak < m2 by { assert m2 <= peak ==> Rises(score, m1, m2); }
    assert score(m1) <= score(m2) ==> m1 < peak by { assert peak <= m1 ==> Falls(score, m1, m2); }
  }

  // n rounds leave the peak inside and shrink the interval by two thirds each, or until the third is zero.
  lemma {:induction false} RoundsKeepPeak(score: int -> int, h: Hunt, n: nat, peak: int)
    requires Unimodal(score, h.lo, h.hi, peak)
    ensures var e := Rounds(score, h, n);
            && Unimodal(score, e.lo, e.hi, peak) && h.lo <= e.lo && e.hi <= h.hi
            && (Third(e) <= 0 || Pow(3, n) * (e.hi - e.lo - 2) <= Pow(2, n) * (h.hi - h.lo - 2))
    decreases n
  {
    if n > 0 && Third(h) > 0 {
      NarrowKeepsPeak(score, h, peak);
      var m := Narrow(score, h);
      RoundsKeepPeak(score, m, n - 1, peak);
      var e := Rounds(score, m, n - 1);
      if Third(e) > 0 {
        ShrinkTwice(Pow(3, n - 1), Pow(2, n - 1), e.hi - e.lo - 2, m.hi - m.lo - 2, h.hi - h.lo - 2);
      }
    }
  }

  lemma ShrinkTwice(p: nat, q: nat, e: int, m: int, h: int)
    requires p * e <= q * m && 3 * m <= 2 * h
    ensures (3 * p) * e <= (2 * q) * h
  {
  }

  lemma {:induction false} ScoredInside(score: int -> int, h: Hunt, n: nat, a: int)
    requires a in Scored(score, h, n)
    ensures h.lo <= a <= h.hi
    decreases n
  {
    if a != h.lo + Third(h) && a != h.hi - Third(h) {
      ScoredInside(score, Narrow(score, h), n - 1, a);
    }
  }

  // Once the third of the interval is zero the chosen amount is the peak itself.
  lemma StoppedAtPeak(score: int -> int, minAmount: int, maxAmount: int, n: nat, peak: int)
    requires Unimodal(score, minAmount, maxAmount, peak) && peak > 0
    requires Third(Rounds(score, Hunt(minAmount, maxAmount, None), n)) <= 0
    ensures BestAmount(score, minAmount, maxAmount, n) == Some(peak)
  {
    hide Rounds, Unimodal, BestAmount, AllScored;
    var start := Hunt(minAmount, maxAmount, None);
    RoundsKeepPeak(score, start, n, peak);
    PeakIsLookedAt(score, minAmount, maxAmount, n, peak);
    BestOfAllScored(score, minAmount, maxAmount, n, peak);
    var r := BestAmount(score, minAmount, maxAmount, n).value;
    BestOfAllScored(score, minAmount, maxAmount, n, r);
    AllScoredInside(score, minAmount, maxAmount, n, r, peak);
    OnlyPeakScores(score, minAmount, maxAmount, peak, r);
  }

  lemma PeakIsLookedAt(score: int -> int, minAmount: int, maxAmount: int, n: nat, peak: int)
    requires var e := Rounds(score, Hunt(minAmount, maxAmount, None), n); e.lo <= peak <= e.hi && Third(e) <= 0
    requires peak > 0
    ensures peak in AllScored(score, minAmount, maxAmount, n)
  {
    hide Rounds, Scored;
    var e := Rounds(score, Hunt(minAmount, maxAmount, None), n);
    assert e.hi - e.lo <= 2;
    assert peak == e.lo || peak == TDiv(e.lo + e.hi, 2) || peak == e.hi;
  }

  lemma AllScoredInside(score: int -> int, minAmount: int, maxAmount: int, n: nat, a: int, peak: int)
    requires a in AllScored(score, minAmount, maxAmount, n) && minAmount <= maxAmount
    requires var e := Rounds(score, Hunt(minAmount, maxAmount, None), n); minAmount <= e.lo <= e.hi <= maxAmount
    ensures minAmount <= a <= maxAmount
  {
    hide Rounds, Scored;
    var start := Hunt(minAmount, maxAmount, None);
    if a in Scored(score, start, n) {
      ScoredInside(score, start, n, a);
    }
  }

  // Nothing but the peak scores as high.
  lemma OnlyPeakScores(score: int -> int, lo: int, hi: int, peak: int, r: int)
    requires Unimodal(score, lo, hi, peak) && lo <= r <= hi && score(peak) <= score(r)
    ensures r == peak
  {
    assert Rises(score, r, peak) || r > peak;
    assert Falls(score, peak, r) || r < peak;
  }

  // Enough rounds for the width of the interval always find the global maximiser.
  lemma EnoughRoundsFindPeak(score: int -> int, minAmount: int, maxAmount: int, n: nat, peak: int)
    requires Unimodal(score, minAmount, maxAmount, peak) && peak > 0
    requires Pow(2, n) * (maxAmount - minAmount - 2) < Pow(3, n)
    ensures BestAmount(score, minAmount, maxAmount, n) == Some(peak)
    ensures forall a :: minAmount <= a <= maxAmount ==> score(a) <= score(peak)
  {
    var start := Hunt(minAmount, maxAmount, None);
    RoundsKeepPeak(score, start, n, peak);
    var e := Rounds(score, start, n);
    if Third(e) > 0 {
      MulMono(1, e.hi - e.lo - 2, Pow(3, n));
    }
    StoppedAtPeak(score, minAmount, maxAmount, n, peak);
    forall a | minAmount <= a <= maxAmount
      ensures score(a) <= score(peak)
    {
      assert a <= peak ==> Rises(score, a, peak);
      assert peak <= a ==> Falls(score, peak, a);
    }
  }

  // How far off the answer can be after n rounds, enough or not: it is the maximiser, or within about
  // half of what the rounds leave of the interval.
  lemma AnswerIsNearPeak(score: int -> int, minAmount: int, maxAmount: int, n: nat, peak: int)
    requires Unimodal(score, minAmount, maxAmount, peak) && 0 < minAmount
    ensures var r := BestAmount(score, minAmount, maxAmount, n);
            && r.Some?
            && var gap := Max(r.value - peak, peak - r.value);
               r.value == peak || Pow(3, n) * (2 * gap - 3) <= Pow(2, n) * (maxAmount - minAmount - 2)
  {
    hide Rounds, Unimodal, BestAmount, Pow;
    var start := Hunt(minAmount, maxAmount, None);
    var e := Rounds(score, start, n);
    RoundsKeepPeak(score, start, n, peak);
    assert e.lo <= peak <= e.hi by { PeakInside(score, e.lo, e.hi, peak); }
    var mid := TDiv(e.lo + e.hi, 2);
    EndsAreScored(score, minAmount, maxAmount, n);
    var r := BestAmount(score, minAmount, maxAmount, n);
    if Third(e) <= 0 {
      StoppedAtPeak(score, minAmount, maxAmount, n, peak);
    } else {
      AllScoredInside(score, minAmount, maxAmount, n, r.value, peak);
      NoFartherThan(score, minAmount, maxAmount, peak, r.value, e.lo);
      NoFartherThan(score, minAmount, maxAmount, peak, r.value, mid);
      NoFartherThan(score, minAmount, maxAmount, peak, r.value, e.hi);
      var gap := Max(r.value - peak, peak - r.value);
      assert 2 * gap - 3 <= e.hi - e.lo - 2;
      MulMono(2 * gap - 3, e.hi - e.lo - 2, Pow(3, n));
    }
  }

  lemma PeakInside(score: int -> int, lo: int, hi: int, peak: int)
    requires Unimodal(score, lo, hi, peak)
    ensures lo <= peak <= hi
  {
  }

  // The ends and the middle of the last interval score no more than the answer, which was scored.
  lemma EndsAreScored(score: int -> int, minAmount: int, maxAmount: int, n: nat)
    requires var e := Rounds(score, Hunt(minAmount, maxAmount, None), n); 0 < e.lo <= e.hi
    ensures var e, r := Rounds(score, Hunt(minAmount, maxAmount, None), n), BestAmount(score, minAmount, maxAmount, n);
            && r.Some? && r.value in AllScored(score, minAmount, maxAmount, n)
            && score(e.lo) <= score(r.value) && score(e.hi) <= score(r.value)
            && score(TDiv(e.lo + e.hi, 2)) <= score(r.value)
  {
    hide Rounds, Scored, BestAmount;
    var e := Rounds(score, Hunt(minAmount, maxAmount, None), n);
    BestOfAllScored(score, minAmount, maxAmount, n, e.lo);
    BestOfAllScored(score, minAmount, maxAmount, n, e.hi);
    BestOfAllScored(score, minAmount, maxAmount, n, TDiv(e.lo + e.hi, 2));
  }

  // On the same side of the peak, what scores no less lies no farther out.
  lemma NoFartherThan(score: int -> int, lo: int, hi: int, peak: int, r: int, a: int)
    requires Unimodal(score, lo, hi, peak) && lo <= r <= hi && lo <= a <= hi && score(a) <= score(r)
    ensures a <= peak ==> a <= r
    ensures peak <= a ==> r <= a
  {
    assert a <= peak ==> Rises(score, r, a) || a <= r;
    assert peak <= a ==> Falls(score, a, r) || r <= a;
  }

  // A score that is flat away from its peak.
  function Spike(a: int): int {
    if a == 2 then 5 else 0
  }

  // Strictness matters: on a flat-sided score one round can drop the peak, and no number of rounds
  // brings it back.
  lemma FlatSidesLosePeak(n: nat)
    requires n > 0
    ensures forall a :: 1 <= a <= 10 ==> Spike(a) <= Spike(2)
    ensures BestAmount(Spike, 1, 10, n).Some? && Spike(BestAmount(Spike, 1, 10, n).value) < Spike(2)
  {
    var h := Narrow(Spike, Hunt(1, 10, None));
    assert h == Hunt(4, 10, Some(7));
    StaysAbove(Spike, h, n - 1);
    assert Scored(Spike, Hunt(1, 10, None), n) == {4, 7} + Scored(Spike, h, n - 1);
    assert Rounds(Spike, Hunt(1, 10, None), n) == Rounds(Spike, h, n - 1);
    assert forall a :: a in AllScored(Spike, 1, 10, n) ==> 4 <= a;
    BestOfAllScored(Spike, 1, 10, n, 7);
  }

  lemma {:induction false} StaysAbove(score: int -> int, h: Hunt, n: nat)
    requires 4 <= h.lo <= h.hi
    ensures 4 <= Rounds(score, h, n).lo <= Rounds(score, h, n).hi
    ensures forall a :: a in Scored(score, h, n) ==> 4 <= a
    decreases n
  {
    if n > 0 && Third(h) > 0 {
      StaysAbove(score, Narrow(score, h), n - 1);
    }
  }
}
