/**
 * The reward rule of `POST /api/add-honey` (api/server.js): the first correct
 * answer of the day spins a wheel, later ones pay less the more honey the user
 * already earned today. The single `Math.random()` draw of the request is the
 * parameter `r`.
 */
module Honey {
  import opened JsMath

  /** The prize on wheel position `w` (the wheel has positions 0 .. 999). */
  function Wheel(w: int): int {
    if w < 600 then 25
    else if w < 800 then 50
    else if w < 900 then 100
    else if w < 950 then 200
    else if w < 995 then 500
    else 1000
  }

  /** The amount added for a user who has `todayHoney` honey today, with draw `r`. */
  function Reward(todayHoney: int, r: Unit): int {
    if todayHoney == 0 then Wheel(FloorTimes(r, 1000))
    else if todayHoney < 501 then FloorTimes(r, 26) + 25
    else if todayHoney < 1001 then FloorTimes(r, 11) + 10
    else if todayHoney < 2001 then FloorTimes(r, 6) + 5
    else if todayHoney < 5001 then FloorTimes(r, 5) + 1
    else if todayHoney < 7501 then FloorTimes(r, 3)
    else FloorTimes(r, 2)
  }

  /** The least and greatest later reward for a user at `todayHoney` (not 0). */
  function BandLow(todayHoney: int): int {
    if todayHoney < 501 then 25
    else if todayHoney < 1001 then 10
    else if todayHoney < 2001 then 5
    else if todayHoney < 5001 then 1
    else 0
  }

  function BandHigh(todayHoney: int): int {
    if todayHoney < 501 then 50
    else if todayHoney < 1001 then 20
    else if todayHoney < 2001 then 10
    else if todayHoney < 5001 then 5
    else if todayHoney < 7501 then 2
    else 1
  }

  /**
   * The first reward of the day depends on where the draw falls: 25 below 0.6,
   * 50 below 0.8, 100 below 0.9, 200 below 0.95, 500 below 0.995, 1000 above.
   */
  lemma FirstRewardOdds(r: Unit)
    ensures Reward(0, r) == 25 <==> r < 0.6
    ensures Reward(0, r) == 50 <==> 0.6 <= r < 0.8
    ensures Reward(0, r) == 100 <==> 0.8 <= r < 0.9
    ensures Reward(0, r) == 200 <==> 0.9 <= r < 0.95
    ensures Reward(0, r) == 500 <==> 0.95 <= r < 0.995
    ensures Reward(0, r) == 1000 <==> 0.995 <= r
  {
    var w := FloorTimes(r, 1000);
    assert w as real <= r * 1000.0 < w as real + 1.0;
  }

  /** How many wheel positions in `lo .. hi - 1` land on `prize`. */
  function WheelCount(prize: int, lo: int, hi: int): nat
    decreases hi - lo
  {
    if lo >= hi then 0 else (if Wheel(lo) == prize then 1 else 0) + WheelCount(prize, lo + 1, hi)
  }

  lemma {:induction false} WheelCountSplit(prize: int, lo: int, mid: int, hi: int)
    requires lo <= mid <= hi
    ensures WheelCount(prize, lo, hi) == WheelCount(prize, lo, mid) + WheelCount(prize, mid, hi)
    decreases mid - lo
  {
    if lo < mid {
      WheelCountSplit(prize, lo + 1, mid, hi);
    }
  }

  lemma {:induction false} WheelCountUniform(prize: int, lo: int, hi: int, hit: bool)
    requires lo <= hi
    requires forall w :: lo <= w < hi ==> (Wheel(w) == prize) == hit
    ensures WheelCount(prize, lo, hi) == if hit then hi - lo else 0
    decreases hi - lo
  {
    if lo < hi {
      WheelCountUniform(prize, lo + 1, hi, hit);
    }
  }

  /** A prize that fills the positions `a .. b - 1` of the wheel and no others has `b - a` of them. */
  lemma WheelBlock(prize: int, a: int, b: int)
    requires 0 <= a <= b <= 1000
    requires forall w :: 0 <= w < 1000 ==> (Wheel(w) == prize <==> a <= w < b)
    ensures WheelCount(prize, 0, 1000) == b - a
  {
    WheelCountSplit(prize, 0, a, 1000);
    WheelCountSplit(prize, a, b, 1000);
    WheelCountUniform(prize, 0, a, false);
    WheelCountUniform(prize, a, b, true);
    WheelCountUniform(prize, b, 1000, false);
  }

  /** The wheel has 600 positions of 25, 200 of 50, 100 of 100, 50 of 200, 45 of 500 and 5 of 1000. */
  lemma WheelCounts()
    ensures WheelCount(25, 0, 1000) == 600 && WheelCount(50, 0, 1000) == 200
    ensures WheelCount(100, 0, 1000) == 100 && WheelCount(200, 0, 1000) == 50
    ensures WheelCount(500, 0, 1000) == 45 && WheelCount(1000, 0, 1000) == 5
  {
    WheelBlock(25, 0, 600);
    WheelBlock(50, 600, 800);
    WheelBlock(100, 800, 900);
    WheelBlock(200, 900, 950);
    WheelBlock(500, 950, 995);
    WheelBlock(1000, 995, 1000);
  }

  /** Every later reward lies in its band: 25..50, 10..20, 5..10, 1..5, 0..2 or 0..1. */
  lemma LaterRewardInBand(todayHoney: int, r: Unit)
    requires todayHoney != 0
    ensures BandLow(todayHoney) <= Reward(todayHoney, r) <= BandHigh(todayHoney)
  {
  }

  /** Every amount of the band can be drawn. */
  lemma LaterRewardOnto(todayHoney: int, n: int)
    requires todayHoney != 0
    requires BandLow(todayHoney) <= n <= BandHigh(todayHoney)
    ensures exists r: Unit :: Reward(todayHoney, r) == n
  {
    var (m, base) :=
      if todayHoney < 501 then (26, 25)
      else if todayHoney < 1001 then (11, 10)
      else if todayHoney < 2001 then (6, 5)
      else if todayHoney < 5001 then (5, 1)
      else if todayHoney < 7501 then (3, 0)
      else (2, 0);
    FloorTimesOnto(m, n - base);
    var r: Unit :| FloorTimes(r, m) == n - base;
    assert Reward(todayHoney, r) == n;
  }

  /** The reward is never negative, and it can be zero only once `todayHoney` reaches 5001. */
  lemma RewardZeroOnlyLate(todayHoney: int, r: Unit)
    ensures Reward(todayHoney, r) >= 0
    ensures Reward(todayHoney, r) == 0 ==> todayHoney >= 5001
  {
  }

  /** The bands never widen upwards: more honey today never raises either end of the band. */
  lemma BandsShrink(a: int, b: int)
    requires 0 < a <= b
    ensures BandLow(b) <= BandLow(a) && BandHigh(b) <= BandHigh(a)
  {
  }
}
