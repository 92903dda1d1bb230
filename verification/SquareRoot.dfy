/** sqrt: t stands for the square root of n = 65536 * x. */
module SquareRoot {
  import opened MachineInt
  import opened FixedPoint
  import opened Newton

  // ----- One correction

  /** The correction dt of t, with the 32-bit difference of the hardware; None is a divide error. */
  function SqrtDelta(x: Float, t: Float): Option<Float> {
    var q := FDivF(x, t);
    if q.None? then None else FDivInt(Wrap32(q.value - t), 2)
  }

  /** The loop after k rounds, if it has not returned before. */
  function SqrtRun(x: Float, k: nat): Run {
    if k == 0 then Going(131072)
    else
      var r := SqrtRun(x, k - 1);
      if r.Going? then Round(r.t, SqrtDelta(x, r.t)) else r
  }

  /** After any step, t + 1 is above the root: (t + n/t) / 2 is at least the root, and rounding loses less than 1. */
  lemma SqrtStepFromBelow(n: int, t: int, q: int, t': int)
    requires t > 0 && q == n / t && n >= 0
    requires t' == t + TruncDiv(q - t, 2)
    ensures n < (t' + 1) * (t' + 1)
    ensures t' >= 0
  {
    EuclideanRest(n, t);
    Distribute(q, -1, t);
    assert q >= 0;
    var u, p := t + q + 1, t * (q + 1);
    assert n < p;
    ArithmeticGeometric(t, q + 1);
    assert u <= 2 * (t' + 1);
    SquareMonotone(u, 2 * (t' + 1));
    SquareOfDouble(t' + 1);
  }

  lemma ArithmeticGeometric(a: int, b: int)
    ensures 4 * (a * b) <= (a + b) * (a + b)
  {
    assert (a + b) * (a + b) - 4 * (a * b) == (a - b) * (a - b);
  }

  /** Once t + 1 is above the root, the quotient exceeds t by at most 2, so a large step goes down. */
  lemma SqrtQuotientNearT(n: int, t: int, q: int)
    requires t > 0 && q == n / t && 0 <= n < (t + 1) * (t + 1)
    ensures 0 <= q <= t + 2
  {
    EuclideanRest(n, t);
    if q >= t + 3 {
      ProductMonotone(t + 3, q, t);
      assert false;
    }
  }

  lemma SquareOfSumLessOne(t: int, q: int)
    ensures (t + q - 1) * (t + q - 1) == (t - q) * (t - q) + 4 * (q * t) - 2 * (t + q) + 1
  {
  }

  lemma SqrtNotSmall(n: int, t: int, q: int)
    requires n >= 65536 && t > 0 && n < (q + 1) * t && q <= t + 13
    ensures t >= 100
  {
    if t < 100 {
      ProductMonotone(q + 1, 114, t);
      assert false;
    }
  }

  /** A step of at most 6 in either direction ends within 1 above the root. */
  lemma SqrtStepFromAbove(n: int, t: int, q: int, t': int)
    requires t > 0 && q == n / t && n >= 65536
    requires t' == t + TruncDiv(q - t, 2) && -6 <= t' - t <= 6
    ensures (t' - 1) * (t' - 1) <= n
  {
    EuclideanRest(n, t);
    Distribute(q, -1, t);
    var d, w, p := t - q, t + q - 1, q * t;
    assert -13 <= d <= 13;
    SqrtNotSmall(n, t, q);
    SquareBound(d, 13);
    SquareOfSumLessOne(t, q);
    assert w * w <= 4 * p;
    assert 0 <= 2 * (t' - 1) <= w;
    SquareMonotone(2 * (t' - 1), w);
    SquareOfDouble(t' - 1);
  }

  lemma SquareOfDouble(a: int)
    ensures (2 * a) * (2 * a) == 4 * (a * a)
  {
  }

  /** n is less than the square of t + 1. */
  predicate RootBelow(n: int, t: int) {
    n < (t + 1) * (t + 1)
  }

  /** t is within 1 of the square root of n. */
  predicate IsRoot(n: int, t: int) {
    (t - 1) * (t - 1) <= n && RootBelow(n, t)
  }

  /** The states sqrt's loop can be in: the start, or a t with t + 1 above the root. */
  predicate SqrtState(n: int, t: int) {
    || t == 131072
    || (0 < t <= 0x2800_0000 && RootBelow(n, t))
  }

  /** What one correction of t to t' achieves: another state, below t unless t was the start, and the root itself
      if the correction was at most 6. */
  predicate SqrtProgress(n: int, t: int, t': int) {
    && 0 <= t' <= 0x2800_0001 && RootBelow(n, t')
    && (n > 0 ==> t' > 0)
    && (t' - t > 6 ==> !RootBelow(n, t) && t' <= 0x2800_0000)
    && (n > 0 && Abs(t' - t) <= 6 ==> IsRoot(n, t'))
  }

  lemma SqrtQuotientFits(x: Float, t: int, q: int)
    requires x >= 0 && SqrtState(ONE * x, t) && q == ONE * x / t
    ensures FDivF(x, t) == Some(q) && 0 <= q <= 0x4000_0000
  {
    EuclideanRest(ONE * x, t);
    if RootBelow(ONE * x, t) {
      SqrtQuotientNearT(ONE * x, t, q);
    }
    FDivFIsTruncatedQuotient(x, t, q);
  }

  lemma SqrtStep(n: int, t: int, q: int, t': int)
    requires (n == 0 || n >= 65536) && SqrtState(n, t) && q == n / t && 0 <= q <= 0x4000_0000
    requires t' == t + TruncDiv(q - t, 2)
    ensures SqrtProgress(n, t, t')
  {
    SqrtStepFromBelow(n, t, q, t');
    if RootBelow(n, t) {
      SqrtQuotientNearT(n, t, q);
    }
    if n > 0 {
      RootPositive(n, t');
      if -6 <= t' - t <= 6 {
        SqrtStepFromAbove(n, t, q, t');
      }
    }
  }

  lemma RootPositive(n: int, t: int)
    requires n >= 65536 && t >= 0 && RootBelow(n, t)
    ensures t >= 255
  {
    if t < 255 {
      SquareMonotone(t + 1, 255);
      assert false;
    }
  }

  /** From x == 0 the loop halves t, through the powers of two down to 8. */
  predicate ZeroState(t: int) {
    t == 8 || (t > 8 && t % 2 == 0 && ZeroState(t / 2))
  }

  lemma FourMissesZero()
    ensures !IsRoot(0, 4)
  {
  }

  lemma HalvedDifference(x: Float, t: Float, q: Float)
    requires FDivF(x, t) == Some(q) && Fits32(q - t)
    ensures SqrtDelta(x, t) == Some(TruncDiv(q - t, 2))
  {
    hide FDivF;
  }

  /** In every state the correction neither faults nor overflows, and it makes progress. */
  lemma SqrtDeltaProgress(x: Float, t: Float)
    requires x >= 0 && SqrtState(ONE * x, t)
    ensures FDivF(x, t).Some? && Fits32(FDivF(x, t).value - t)
    ensures SqrtDelta(x, t).Some? && Fits32(t + SqrtDelta(x, t).value)
    ensures SqrtProgress(ONE * x, t, t + SqrtDelta(x, t).value)
    ensures x == 0 ==> SqrtDelta(x, t).value == 0 - t / 2
  {
    hide FDivF, RootBelow, IsRoot, SqrtDelta;
    var q := ONE * x / t;
    SqrtQuotientFits(x, t, q);
    HalvedDifference(x, t, q);
    SqrtStep(ONE * x, t, q, t + TruncDiv(q - t, 2));
    assert x == 0 ==> q == 0;
  }

  // ----- Arguments x >= 0

  /** One pass through the loop body. */
  method SqrtCorrection(x: Float, t: Float) returns (dt: Float)
    requires x >= 0 && SqrtState(ONE * x, t)
    ensures SqrtDelta(x, t) == Some(dt) && Fits32(t + dt)
    ensures SqrtProgress(ONE * x, t, t + dt) && (x == 0 ==> dt == 0 - t / 2)
  {
    hide FDivF, SqrtProgress, SqrtState, FDivInt;
    SqrtDeltaProgress(x, t);
    var quotient := FDivF(x, t).value;
    var difference: Float := quotient - t;
    dt := FDivInt(difference, 2).value;
  }

  /** What holds at the head of the loop after k rounds. */
  predicate SqrtLoop(x: Float, k: nat, t: Float) {
    && SqrtState(ONE * x, t) && SqrtRun(x, k) == Going(t)
    && (if k == 0 then t == 131072 else RootBelow(ONE * x, t))
    && (x == 0 ==> ZeroState(t))
  }

  lemma SqrtLoopStarts(x: Float)
    ensures SqrtLoop(x, 0, 131072)
  {
    assert ZeroState(16);
    assert ZeroState(256);
    assert ZeroState(4096);
    assert ZeroState(65536);
  }

  lemma ZeroHalves(t: Float, dt: Float)
    requires ZeroState(t) && dt == 0 - t / 2
    ensures (t == 8 && t + dt == 4) || (t > 8 && dt < -6 && t + dt < t && ZeroState(t + dt))
  {
    assert t > 8 ==> t / 2 >= 8;
  }

  /** A correction t' - t of more than 6 leads to another state of the loop, further down. */
  lemma LargeStepGoesOn(n: int, t: int, t': int)
    requires SqrtState(n, t) && SqrtProgress(n, t, t') && t' > 0 && Abs(t' - t) > 6
    ensures SqrtState(n, t') && RootBelow(n, t') && (RootBelow(n, t) ==> t' < t)
  {
    hide RootBelow, IsRoot;
  }

  /** A round goes on from a smaller t, the first round apart, or returns the root. */
  lemma SqrtLoopStep(x: Float, k: nat, t: Float, dt: Float)
    requires x >= 0 && SqrtLoop(x, k, t) && SqrtDelta(x, t) == Some(dt)
    ensures Fits32(t + dt)
    ensures if Fabs(dt) > EPSILON then SqrtLoop(x, k + 1, t + dt) && (k == 0 || 0 <= t + dt < t)
            else SqrtRun(x, k + 1) == Ended(t + dt) && (x >= 1 <==> IsRoot(ONE * x, t + dt)) && (x == 0 ==> t + dt == 4)
  {
    hide RootBelow, IsRoot, SqrtDelta, SqrtProgress, SqrtState, ZeroState;
    var n, t' := ONE * x, t + dt;
    SqrtDeltaProgress(x, t);
    SqrtProgressFacts(n, t, t');
    assert SqrtRun(x, k + 1) == Round(t, Some(dt));
    FabsIsAbs(dt);
    if x == 0 {
      FourMissesZero();
      ZeroHalves(t, dt);
    }
    if Abs(dt) > 6 {
      LargeStepGoesOn(n, t, t');
    }
  }

  lemma SqrtProgressFacts(n: int, t: int, t': int)
    requires SqrtProgress(n, t, t') && SqrtState(n, t)
    ensures 0 < t <= 0x2800_0000 && t' >= 0 && (n > 0 ==> t' > 0) && (n > 0 && Abs(t' - t) <= 6 ==> IsRoot(n, t'))
  {
    hide RootBelow, IsRoot;
  }

  /** For every int x >= 1 no step faults or overflows, the loop ends, and the result is the root to within one
      unit; only at 0, where it is 4, is it not. */
  method Sqrt(x: Float) returns (t: Float)
    requires x >= 0
    ensures x >= 1 <==> IsRoot(ONE * x, t)
    ensures x == 0 ==> t == 4
    ensures exists k :: SqrtRun(x, k) == Ended(t)
  {
    hide SqrtLoop, RootBelow, IsRoot, SqrtDelta, SqrtRun;
    var epsilon := Epsilon();
    ghost var k := 0;
    SqrtLoopStarts(x);
    t := Int2F(2);
    while true
      invariant SqrtLoop(x, k, t)
      decreases k == 0, t
    {
      SqrtLoopState(x, k, t);
      var dt := SqrtCorrection(x, t);
      SqrtLoopStep(x, k, t, dt);
      t := t + dt;
      k := k + 1;
      if !(Fabs(dt) > epsilon) {
        assert SqrtRun(x, k) == Ended(t);
        return;
      }
    }
  }

  lemma SqrtLoopState(x: Float, k: nat, t: Float)
    requires SqrtLoop(x, k, t)
    ensures SqrtState(ONE * x, t)
  {
  }

  /** From any state on the way down the loop returns. */
  lemma {:induction false} SqrtEndsFrom(x: Float, k: nat, t: Float)
    requires x >= 0 && SqrtLoop(x, k, t)
    ensures exists m :: SqrtRun(x, m).Ended?
    decreases k == 0, t
  {
    hide SqrtLoop, RootBelow, IsRoot, SqrtDelta, SqrtRun;
    SqrtLoopState(x, k, t);
    SqrtDeltaProgress(x, t);
    var dt := SqrtDelta(x, t).value;
    SqrtLoopStep(x, k, t, dt);
    if Fabs(dt) > EPSILON {
      SqrtEndsFrom(x, k + 1, t + dt);
    }
  }

  // ----- Arguments x < 0

  /** For a negative argument quotient and t lie on different sides of 0, at a distance that no correction of at most 6
      covers, with wrap-around or without. */
  lemma NegativeNeverSettles(x: Float, t: Float)
    requires x < 0 && SqrtDelta(x, t).Some?
    ensures SqrtDelta(x, t).value > 6 || SqrtDelta(x, t).value < -6
  {
    hide FDivF, IsTruncQuotient, Abs;
    var q := NegativeQuotient(x, t);
    OppositeSides(ONE * x, t, q);
    FarDifferenceHalved(q - t);
  }

  lemma NegativeQuotient(x: Float, t: Float) returns (q: Float)
    requires FDivF(x, t).Some?
    ensures FDivF(x, t) == Some(q) && t != 0 && IsTruncQuotient(ONE * x, t, q)
  {
    hide FDivF;
    FDivFIsTruncatedQuotient(x, t, 0);
    q := FDivF(x, t).value;
    TruncDivRest(ONE * x, t);
    FDivFIsTruncatedQuotient(x, t, TruncDiv(ONE * x, t));
  }

  lemma FarDifferenceHalved(d: int)
    requires 14 <= Abs(d) <= TWO_32 - 14
    ensures FDivInt(Wrap32(d), 2).value > 6 || FDivInt(Wrap32(d), 2).value < -6
  {
  }

  lemma OppositeSides(n: int, t: int, q: int)
    requires -TWO_31 * ONE <= n <= -ONE && t != 0 && IsTruncQuotient(n, t, q)
    requires Fits32(t) && Fits32(q)
    ensures 14 <= Abs(q - t) <= TWO_32 - 14
  {
    QuotientOfNegative(n, t, q);
    SumFarFromEnds(Abs(q), Abs(t));
  }

  lemma SumFarFromEnds(a: nat, b: nat)
    requires a <= TWO_31 && b <= TWO_31 && ONE < a * b + b && a * b <= TWO_31 * ONE
    ensures 14 <= a + b <= TWO_32 - 14
  {
    if a < 14 && b < 14 {
      ProductMonotone(a, 14, b);
      assert false;
    }
    if a > TWO_31 - 14 && b > TWO_31 - 14 {
      ProductMonotone(TWO_31 - 13, a, b);
      assert false;
    }
  }

  lemma QuotientOfNegative(n: int, t: int, q: int)
    requires n < 0 && t != 0 && IsTruncQuotient(n, t, q)
    ensures Abs(q - t) == Abs(q) + Abs(t)
    ensures 0 - n < Abs(q) * Abs(t) + Abs(t) && Abs(q) * Abs(t) <= 0 - n
  {
    AbsProduct(q, t);
    if q * t > 0 {
      MultipleAtLeast(q, t);
      assert false;
    }
    if q != 0 && (q > 0) == (t > 0) {
      SameSigns(q, t);
      assert false;
    }
  }

  lemma SameSigns(q: int, t: int)
    requires q != 0 && t != 0 && (q > 0) == (t > 0)
    ensures q * t > 0
  {
  }

  /** The loop returns for x >= 0 and for no other argument: for x < 0 every round goes on or faults. */
  lemma SqrtReturnsExactly(x: Float)
    ensures (exists k :: SqrtRun(x, k).Ended?) <==> x >= 0
  {
    if x >= 0 {
      SqrtLoopStarts(x);
      SqrtEndsFrom(x, 0, 131072);
    } else {
      forall k: nat
        ensures !SqrtRun(x, k).Ended?
      {
        NegativeRun(x, k);
      }
    }
  }

  lemma {:induction false} NegativeRun(x: Float, k: nat)
    requires x < 0
    ensures !SqrtRun(x, k).Ended?
  {
    if k != 0 {
      NegativeRun(x, k - 1);
      var r := SqrtRun(x, k - 1);
      if r.Going? && SqrtDelta(x, r.t).Some? {
        NegativeNeverSettles(x, r.t);
      }
    }
  }
}
