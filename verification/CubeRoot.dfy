/** One round of pow's loop, for positive x and t: t stands for the cube root of n = 2^32 * x. */
module CubeRoot {
  import opened MachineInt
  import opened FixedPoint
  import opened Newton

  /** The correction dt of t, with the 32-bit cast and difference of the hardware; None is a divide error. */
  function PowDelta(x: Float, t: Float): Option<Float> {
    var q := FDivF(x, FMulF(t, t));
    if q.None? then None
    else
      var difference := Wrap32(q.value - t);
      QuotientFits(difference, 3);
      Some(TruncDiv(difference, 3))
  }

  /** The t that the loop starts with. */
  const T_START: Float := 131072

  /** The loop after k rounds, if it has not returned before. */
  function PowRun(x: Float, k: nat): Run {
    if k == 0 then Going(T_START)
    else
      var r := PowRun(x, k - 1);
      if r.Going? then Round(r.t, PowDelta(x, r.t)) else r
  }

  /** In the round that starts with t the cast, the division, the difference and the sum are all exact. */
  predicate PowExact(x: Float, t: Float) {
    && Fits32(t * t / ONE)
    && FDivF(x, t * t / ONE).Some?
    && var difference := FDivF(x, t * t / ONE).value - t;
       Fits32(difference) && Fits32(t + TruncDiv(difference, 3))
  }

  /** The largest t whose square is an int in fixed point. */
  const T_LAST := 11863283

  // ----- Cubes

  function Cube(a: int): int {
    a * a * a
  }

  /** n is less than the cube of t + 1. */
  predicate CubeBelow(n: int, t: int) {
    n < Cube(t + 1)
  }

  lemma CubeMonotone(a: int, b: int)
    requires 0 <= a <= b
    ensures Cube(a) <= Cube(b)
  {
    SquareMonotone(a, b);
    ProductMonotone(a * a, b * b, a);
    ProductMonotone(a, b, b * b);
  }

  lemma CubeOfTriple(a: int)
    ensures Cube(3 * a) == 27 * Cube(a)
  {
  }

  lemma CubeOfSum(u: int, b: int)
    ensures Cube(u + b) == Cube(u) + 3 * ((u * u) * b) + 3 * (u * (b * b)) + Cube(b)
  {
    var uu, ub, bb := u * u, u * b, b * b;
    assert (u + b) * (u + b) == uu + 2 * ub + bb;
    assert Cube(u + b) == (uu + 2 * ub + bb) * u + (uu + 2 * ub + bb) * b;
    assert ub * u == uu * b && ub * b == u * bb;
    Distribute(uu + 2 * ub, -bb, u);
    Distribute(uu + 2 * ub, -bb, b);
  }

  lemma DifferenceSquaredTimes(a: int, b: int)
    ensures (a - b) * (a - b) * (8 * a + b) == 8 * Cube(a) - 15 * ((a * a) * b) + 6 * (a * (b * b)) + Cube(b)
  {
    var aa, ab, bb := a * a, a * b, b * b;
    var square := aa - 2 * ab + bb;
    assert (a - b) * (a - b) == square;
    assert square * (8 * a + b) == 8 * (square * a) + square * b;
    assert ab * a == aa * b && ab * b == a * bb;
    assert square * a == aa * a - 2 * (ab * a) + bb * a;
    assert square * b == aa * b - 2 * (ab * b) + bb * b;
  }

  lemma SquareTimesNonnegative(d: int, e: int)
    requires e >= 0
    ensures d * d * e >= 0
  {
    SquareBound(d, Abs(d));
    assert d * d >= 0;
    ProductMonotone(0, d * d, e);
  }

  lemma DoubledProducts(a: int, b: int)
    ensures Cube(2 * a) == 8 * Cube(a)
    ensures ((2 * a) * (2 * a)) * b == 4 * ((a * a) * b)
    ensures (2 * a) * (b * b) == 2 * (a * (b * b))
  {
  }

  lemma CubicArithmeticGeometric(a: int, b: int)
    requires a >= 0 && b >= 0
    ensures 27 * ((a * a) * b) <= Cube(2 * a + b)
  {
    CubeOfSum(2 * a, b);
    DoubledProducts(a, b);
    DifferenceSquaredTimes(a, b);
    SquareTimesNonnegative(a - b, 8 * a + b);
  }

  // ----- One correction

  /** q is the quotient the loop computes from t: 65536 x / t2 where t2 is t * t / 65536, both rounded down. */
  predicate PowQuotient(x: int, t: int, q: int) {
    var t2 := t * t / ONE;
    t2 > 0 && q == ONE * x / t2
  }

  /** n is between q * (t^2 - 65535) and (q + 1) * t^2. */
  predicate IsNearQuotient(n: int, t: int, q: int) {
    q >= 0 && q * (t * t - 65535) <= n < (q + 1) * (t * t)
  }

  /** The two roundings lose no more than that. */
  lemma PowQuotientBounds(x: int, t: int, q: int)
    requires x >= 0 && PowQuotient(x, t, q)
    ensures IsNearQuotient(TWO_32 * x, t, q)
  {
    var s := t * t;
    var t2 := s / ONE;
    EuclideanRest(ONE * x, t2);
    Distribute(q, -1, t2);
    assert q >= 0;
    ProductMonotone(s - 65535, ONE * t2, q);
    ProductMonotone(ONE * t2, s, q + 1);
    assert q * (ONE * t2) == ONE * (q * t2);
    assert (q + 1) * (ONE * t2) == ONE * ((q + 1) * t2);
  }

  /** After any step, t + 1 is above the cube root. */
  lemma PowStepFromBelow(n: int, t: int, q: int, t': int)
    requires t > 0 && IsNearQuotient(n, t, q)
    requires t' == t + TruncDiv(q - t, 3)
    ensures t' >= 0 && CubeBelow(n, t')
  {
    CubicArithmeticGeometric(t, q + 1);
    assert t * t * (q + 1) == (q + 1) * (t * t);
    assert 2 * t + q + 1 <= 3 * (t' + 1);
    CubeMonotone(2 * t + q + 1, 3 * (t' + 1));
    CubeOfTriple(t' + 1);
  }

  /** Once t + 1 is above the cube root, the quotient is little more than t. */
  lemma PowQuotientNearT(n: int, t: int, q: int)
    requires t >= 1625 && IsNearQuotient(n, t, q) && CubeBelow(n, t)
    ensures q <= t + 45
    ensures t >= 3721 ==> q <= t + 20
  {
    if q > t + 45 {
      QuotientTooLarge(n, t, q, 1625, 46);
      assert false;
    }
    if t >= 3721 && q > t + 20 {
      QuotientTooLarge(n, t, q, 3721, 21);
      assert false;
    }
  }

  lemma QuotientTooLarge(n: int, t: int, q: int, low: int, m: int)
    requires (low == 1625 && m == 46) || (low == 3721 && m == 21)
    requires t >= low && q >= t + m && IsNearQuotient(n, t, q)
    ensures Cube(t + 1) <= n
  {
    var s := t * t;
    CubeOfSum(t, 1);
    ProductMonotone(low, t, t);
    ProductMonotone(t + m, q, s - 65535);
    Distribute(t, -m, s - 65535);
    Distribute(s, 65535, t);
  }

  lemma CubeExpansion(t: int, a: int)
    ensures Cube(3 * t - a) == 27 * (t * (t * t)) - 27 * (a * (t * t)) + 9 * ((a * a) * t) - Cube(a)
  {
    var u, b := 3 * t, 0 - a;
    CubeOfSum(u, b);
    assert b * b == a * a;
    assert Cube(b) == 0 - Cube(a);
    assert u * u == 9 * (t * t);
    assert (9 * (t * t)) * b == 0 - 9 * (a * (t * t));
    assert u * (a * a) == 3 * ((a * a) * t);
    CubeOfTriple(t);
    assert Cube(t) == t * (t * t);
  }

  lemma CubeBound(a: int, b: int)
    requires -b <= a <= b
    ensures -Cube(b) <= Cube(a) <= Cube(b)
  {
    CubeMonotone(Abs(a), b);
    assert Cube(a) == if a < 0 then -Cube(Abs(a)) else Cube(Abs(a));
  }

  lemma CubesOfAllowances()
    ensures Cube(33) == 35937 && Cube(39) == 59319 && Cube(63) == 250047
  {
  }

  /** The allowance e suffices for all t from the bound given with it. */
  predicate Allowance(e: int, t: int) {
    (e == 13 && t >= 5154) || (e == 19 && t >= 3715) || (e == 43 && t >= 1619)
  }

  lemma AllowanceSuffices(e: int, t: int, d: int)
    requires Allowance(e, t) && -20 <= d <= 20
    ensures var a := e + d;
            9 * ((a * a) * t) - Cube(a) <= 27 * (e * (t * t)) - 27 * 65535 * t + 27 * 65535 * d
  {
    var a, b := e + d, e + 20;
    CubesOfAllowances();
    hide Cube;
    CubeBound(a, b);
    SquareBound(a, b);
    ProductMonotone(a * a, b * b, t);
    ProductMonotone(if e == 13 then 5154 else if e == 19 then 3715 else 1619, t, t);
  }

  lemma ShiftedProduct(t: int, s: int, d: int, e: int)
    ensures (t - d) * (s - 65535) == t * s - d * s - 65535 * t + 65535 * d
    ensures (e + d) * s == e * s + d * s
  {
  }

  lemma CubeBelowQuotientProduct(t: int, d: int, e: int)
    requires Allowance(e, t) && -20 <= d <= 20
    ensures Cube(3 * t - (e + d)) <= 27 * ((t - d) * (t * t - 65535))
  {
    hide Cube, Allowance;
    CubeExpansion(t, e + d);
    AllowanceSuffices(e, t, d);
    ShiftedProduct(t, t * t, d, e);
  }

  /** A bound that t has reached once t + 1 is above the cube root. */
  function LeastRoot(x: int): int {
    if x >= 32 then 5160 else if x >= 12 then 3721 else 1625
  }

  /** How far a result may lie above the cube root. */
  function PowError(x: int): int {
    if x >= 32 then 5 else if x >= 12 then 7 else 15
  }

  predicate IsCubeRoot(x: int, t: int) {
    Cube(t - PowError(x)) <= TWO_32 * x && CubeBelow(TWO_32 * x, t)
  }

  /** A step of at most 6 in either direction ends close above the cube root. */
  lemma PowStepFromAbove(x: int, t: int, q: int, t': int)
    requires x >= 1 && t >= LeastRoot(x) - 6
    requires IsNearQuotient(TWO_32 * x, t, q)
    requires t' == t + TruncDiv(q - t, 3) && -6 <= t' - t <= 6
    ensures Cube(t' - PowError(x)) <= TWO_32 * x
  {
    var d, k := t - q, PowError(x);
    assert -20 <= d <= 20;
    assert 0 <= 3 * (t' - k) <= 3 * t - (3 * k - 2 + d);
    CubeBelowQuotientProduct(t, d, 3 * k - 2);
    CubeMonotone(3 * (t' - k), 3 * t - (3 * k - 2 + d));
    CubeOfTriple(t' - k);
  }

  /** The square of t is an int that does not round to 0, and the next t is at most T_LAST. */
  predicate CanStep(x: int, t: int) {
    256 <= t <= T_LAST && ONE * x < (3 * T_LAST - 2 * t + 3) * (t * t / ONE)
  }

  /** Where the only steps upward by more than 6 lead to. */
  predicate Overshot(x: int, t: int) {
    (x == 3 && 2351 <= t <= 2355) || (x == 5 && t == 2786)
  }

  lemma CubeRootNotSmall(x: int, t: int)
    requires x >= 1 && t >= 0 && CubeBelow(TWO_32 * x, t)
    ensures t >= LeastRoot(x)
  {
    var low := LeastRoot(x);
    assert Cube(low) <= TWO_32 * x;
    if t < low {
      CubeMonotone(t + 1, low);
      assert false;
    }
  }

  /** Where a step is possible, t2 is a positive int, and the quotient exceeds T_LAST by at most 2 (T_LAST - t) + 2. */
  lemma StepQuotient(x: int, t: int) returns (q: int)
    requires x >= 1 && CanStep(x, t)
    ensures 0 < t * t / ONE < TWO_31 && q == ONE * x / (t * t / ONE) && PowQuotient(x, t, q)
    ensures 0 <= q <= 3 * T_LAST - 2 * t + 2
  {
    SquareMonotone(256, t);
    SquareMonotone(t, T_LAST);
    var t2 := t * t / ONE;
    q := ONE * x / t2;
    PowQuotientBounds(x, t, q);
    EuclideanRest(ONE * x, t2);
    if q > 3 * T_LAST - 2 * t + 2 {
      ProductMonotone(3 * T_LAST - 2 * t + 3, q, t2);
      assert false;
    }
  }

  /** The t that follows t. */
  function NextT(x: int, t: int): int
    requires t * t / ONE != 0
  {
    t + TruncDiv(ONE * x / (t * t / ONE) - t, 3)
  }

  /** What a step achieves: t + 1 is above the cube root, and if the step was at most 6, t is the root. */
  lemma StepAchieves(x: int, t: int)
    requires x >= 1 && CanStep(x, t)
    ensures t * t / ONE > 0
    ensures LeastRoot(x) <= NextT(x, t) <= T_LAST && CubeBelow(TWO_32 * x, NextT(x, t))
    ensures Abs(NextT(x, t) - t) <= 6 ==> IsCubeRoot(x, NextT(x, t))
  {
    hide Cube, CubeBelow, IsNearQuotient, PowQuotient, PowError, LeastRoot, CanStep;
    var q := StepQuotient(x, t);
    var t' := t + TruncDiv(q - t, 3);
    StepPositive(x, t);
    PowQuotientBounds(x, t, q);
    PowStepFromBelow(TWO_32 * x, t, q, t');
    CubeRootNotSmall(x, t');
    if -6 <= t' - t <= 6 {
      PowStepFromAbove(x, t, q, t');
    }
  }

  lemma StepPositive(x: int, t: int)
    requires CanStep(x, t)
    ensures 256 <= t <= T_LAST
  {
  }

  /** The largest argument for which a quotient above t is known to be met only far below T_LAST. */
  const X_LAST := 143407983

  lemma RisesOnlyWhenSmall(x: int, t: int, q: int)
    requires 1 <= x <= X_LAST && t >= 1625 && q > t && IsNearQuotient(TWO_32 * x, t, q)
    ensures t < 1_000_000
  {
    if t >= 1_000_000 {
      SquareMonotone(1_000_000, t);
      ProductMonotone(1_000_000, q, t * t - 65535);
      assert false;
    }
  }

  lemma QuotientAtMost(x: int, t: int, q: int, root: nat, t2: int, most: nat)
    requires x >= 0 && t >= 0 && CubeBelow(TWO_32 * x, t) && PowQuotient(x, t, q)
    requires Cube(root) <= TWO_32 * x && 0 < t2 && t2 * ONE <= root * root && ONE * x < (most + 1) * t2
    ensures t >= root && q <= most
  {
    if t < root {
      CubeMonotone(t + 1, root);
      assert false;
    }
    hide Cube, CubeBelow;
    SquareMonotone(root, t);
    QuotientAntitone(ONE * x, t * t / ONE, q, t2, most);
  }

  lemma QuotientAntitone(a: int, s: int, q: int, t2: int, most: nat)
    requires 0 < t2 <= s && q == a / s && a < (most + 1) * t2
    ensures q <= most
  {
    EuclideanRest(a, s);
    if q > most {
      ProductMonotone(most + 1, q, s);
      ProductMonotone(t2, s, most + 1);
      assert false;
    }
  }

  /** For the smallest arguments the rounding of t2 is coarse, so their quotients are bounded one by one. */
  lemma SmallQuotient(x: int, t: int, q: int)
    requires 1 <= x < 12 && t >= 0 && CubeBelow(TWO_32 * x, t) && PowQuotient(x, t, q)
    ensures || q <= t + 20
            || (x == 3 && 2344 <= t && q <= 2368)
            || (x == 5 && 2779 <= t && q <= 2800)
  {
    hide CubeBelow, PowQuotient;
    if x == 1 {
      QuotientAtMost(x, t, q, 1625, 40, 1638);
    } else if x == 2 {
      QuotientAtMost(x, t, q, 2048, 64, 2048);
    } else if x == 3 {
      QuotientAtMost(x, t, q, 2344, 83, 2368);
    } else if x == 4 {
      QuotientAtMost(x, t, q, 2580, 101, 2595);
    } else if x == 5 {
      QuotientAtMost(x, t, q, 2779, 117, 2800);
    } else if x == 6 {
      QuotientAtMost(x, t, q, 2953, 133, 2956);
    } else if x == 7 {
      QuotientAtMost(x, t, q, 3109, 147, 3120);
    } else if x == 8 {
      QuotientAtMost(x, t, q, 3250, 161, 3256);
    } else if x == 9 {
      QuotientAtMost(x, t, q, 3381, 174, 3389);
    } else if x == 10 {
      QuotientAtMost(x, t, q, 3502, 187, 3504);
    } else {
      QuotientAtMost(x, t, q, 3615, 199, 3622);
    }
  }

  /** An upward step of more than 6 leads to a place that the next step leaves by at most 6. */
  lemma OvershotSettles(x: int, t: int, q: int)
    requires Overshot(x, t) && PowQuotient(x, t, q)
    ensures -15 <= q - t <= 0
  {
    var t2 := t * t / ONE;
    if x == 3 {
      SquareMonotone(2351, t);
      SquareMonotone(t, 2355);
      assert t2 == 84;
    } else {
      assert t2 == 118;
    }
  }

  lemma LargeStepsGoDown(x: int, t: int, q: int)
    requires x >= 1 && t >= 1625 && CubeBelow(TWO_32 * x, t) && PowQuotient(x, t, q)
    ensures q <= t + 20 || Overshot(x, t + TruncDiv(q - t, 3))
  {
    if x >= 12 {
      hide Cube;
      CubeRootNotSmall(x, t);
      PowQuotientBounds(x, t, q);
      PowQuotientNearT(TWO_32 * x, t, q);
    } else {
      hide CubeBelow, PowQuotient;
      SmallQuotient(x, t, q);
    }
  }

  /** From a t with t + 1 above the cube root a step is possible. */
  lemma AboveRootCanStep(x: int, t: int)
    requires 1 <= x <= X_LAST && 1625 <= t <= T_LAST && CubeBelow(TWO_32 * x, t)
    ensures CanStep(x, t)
  {
    SquareMonotone(1625, t);
    hide Cube, CubeBelow, IsNearQuotient;
    var t2 := t * t / ONE;
    var q := ONE * x / t2;
    PowQuotientBounds(x, t, q);
    PowQuotientNearT(TWO_32 * x, t, q);
    if q > t {
      RisesOnlyWhenSmall(x, t, q);
    }
    EuclideanRest(ONE * x, t2);
    Distribute(q, -1, t2);
    ProductMonotone(q + 1, 3 * T_LAST - 2 * t + 3, t2);
  }

  /** From such a t nothing leads far upward but a step to a place that the next step leaves by at most 6. */
  lemma AboveRootSettles(x: int, t: int)
    requires x >= 1 && CanStep(x, t) && CubeBelow(TWO_32 * x, t)
    ensures t * t / ONE > 0
    ensures NextT(x, t) - t <= 6 || Overshot(x, NextT(x, t))
    ensures Overshot(x, t) ==> Abs(NextT(x, t) - t) <= 6
  {
    hide Cube, CubeBelow, IsNearQuotient, PowQuotient, LeastRoot, CanStep, Overshot;
    var q := StepQuotient(x, t);
    StepPositive(x, t);
    CubeRootNotSmall(x, t);
    LeastRootAtLeast(x);
    LargeStepsGoDown(x, t, q);
    if Overshot(x, t) {
      OvershotSettles(x, t, q);
    }
  }

  lemma LeastRootAtLeast(x: int)
    ensures LeastRoot(x) >= 1625
  {
  }

  // ----- The same on the machine

  lemma DividedDifference(x: Float, t: Float, q: Float)
    requires Fits32(t * t / ONE) && FDivF(x, t * t / ONE) == Some(q) && Fits32(q - t)
    ensures PowDelta(x, t) == Some(TruncDiv(q - t, 3))
    ensures Fits32(t + TruncDiv(q - t, 3)) ==> PowExact(x, t)
  {
    hide FDivF;
  }

  /** A round of positive x and t is exact and leads to NextT. */
  lemma PositiveRound(x: Float, t: Float)
    requires x >= 1 && CanStep(x, t)
    ensures PowExact(x, t) && t * t / ONE > 0
    ensures PowDelta(x, t) == Some(NextT(x, t) - t)
  {
    hide FDivF, PowExact, PowDelta, PowQuotient, CanStep;
    var q := StepQuotient(x, t);
    StepPositive(x, t);
    EuclideanRest(ONE * x, t * t / ONE);
    FDivFIsTruncatedQuotient(x, t * t / ONE, q);
    DividedDifference(x, t, q);
  }

  /** A round of -x and -t is its mirror image: division and the two roundings toward zero are odd. */
  lemma NegativeRound(x: Float, t: Float)
    requires x >= 1 && CanStep(x, t)
    ensures PowExact(0 - x, 0 - t) && t * t / ONE > 0
    ensures PowDelta(0 - x, 0 - t) == Some(t - NextT(x, t))
  {
    hide FDivF, PowExact, PowDelta, PowQuotient, CanStep;
    var q := StepQuotient(x, t);
    StepPositive(x, t);
    var t2 := t * t / ONE;
    EuclideanRest(ONE * x, t2);
    Distribute(0, q, t2);
    assert (0 - t) * (0 - t) == t * t;
    FDivFIsTruncatedQuotient(0 - x, t2, 0 - q);
    DividedDifference(0 - x, 0 - t, 0 - q);
  }
}
