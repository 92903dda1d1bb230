/** The trapezoid rule of the integral test case, on 16.16 fixed point. */
module Integral {
  import opened MachineInt
  import opened FixedPoint

  type Integrand = Float -> Option<Float>

  /** f(x) = 1 / (1 + 25 x^2). */
  function F(x: Float): Option<Float> {
    FDivF(Int2F(1), Wrap32(Int2F(1) + FMulInt(FMulF(x, x), 25)))
  }

  /** The denominator of f without the 32-bit wrap-around. */
  function Denominator(x: int): int {
    ONE + 25 * (x * x / ONE)
  }

  lemma SquareGrows(x: int, y: int)
    requires Abs(x) <= Abs(y)
    ensures 0 <= x * x <= y * y
  {
    AbsProduct(x, x);
    AbsProduct(y, y);
    var m, n := Abs(x), Abs(y);
    assert m * m <= m * n <= n * n;
  }

  /** While the denominator is an int, f is 1 over it rounded down, positive and at most 1. */
  lemma FInUnitInterval(x: Float)
    requires Denominator(x) < TWO_31
    ensures Denominator(x) >= ONE && F(x) == Some(ONE * ONE / Denominator(x))
    ensures 0 < F(x).value <= ONE
  {
    SquareGrows(0, x);
    var d, square := Denominator(x), x * x / ONE;
    assert square >= 0;
    assert FMulF(x, x) == square && FMulInt(square, 25) == 25 * square;
    var q := ONE * ONE / d;
    EuclideanRest(ONE * ONE, d);
    if q <= 0 {
      ProductMonotone(q, 0, d);
      assert false;
    }
    if q > ONE {
      ProductMonotone(ONE + 1, q, d);
      assert false;
    }
    FDivFIsTruncatedQuotient(ONE, d, q);
  }

  /** f in plain numbers: the value times 1 + 25 x^2, with the square rounded down, is 1 to within that factor. */
  lemma FIsReciprocal(x: Float)
    requires Denominator(x) < TWO_31
    ensures F(x).Some? && var y := F(x).value;
            y * (65536 + 25 * (x * x / 65536)) <= 0x1_0000_0000 < (y + 1) * (65536 + 25 * (x * x / 65536))
  {
    FInUnitInterval(x);
    EuclideanRest(ONE * ONE, Denominator(x));
    Distribute(ONE * ONE / Denominator(x), -1, Denominator(x));
  }

  ghost predicate Bounded(fun: Integrand, a: Float, b: Float, low: int, high: int) {
    forall x: Float | a <= x <= b :: fun(x).Some? && low <= fun(x).value <= high
  }

  function Sample(fun: Integrand, x: int): int {
    if Fits32(x) then fun(x).GetOr(0) else 0
  }

  /** The samples at the inner grid points a + h, ..., a + (k - 1) * h. */
  function InnerSum(fun: Integrand, a: int, h: int, k: nat): int {
    if k <= 1 then 0 else InnerSum(fun, a, h, k - 1) + Sample(fun, a + h * (k - 1))
  }

  function TrapezoidSum(fun: Integrand, a: int, b: int, h: int, n: nat): int {
    TruncDiv(Sample(fun, a) + Sample(fun, b), 2) + InnerSum(fun, a, h, n)
  }

  lemma StepFits(span: int, n: int)
    requires 0 <= span && 1 <= n
    ensures 0 <= span / n && span / n * n <= span
  {
    EuclideanRest(span, n);
    if span / n < 0 {
      ProductMonotone(span / n, -1, n);
      assert false;
    }
  }

  /** The k-th grid point lies inside the interval, so the product h * k does not wrap. */
  lemma GridPointInside(h: Float, n: Int32, k: Int32, span: Float)
    requires 0 <= h && 0 <= k <= n && h * n <= span
    ensures 0 <= h * k <= span && FMulInt(h, k) == h * k
  {
    ProductMonotone(k, n, h);
    ProductMonotone(0, k, h);
    FMulIntFits(h, k);
  }

  lemma SumStaysInRange(low: int, high: int, k: int, n: int, s: int, y: int)
    requires 0 <= low <= y <= high && 1 <= k < n && high * n < TWO_31
    requires low * k <= s <= high * k
    ensures low * (k + 1) <= s + y <= high * (k + 1)
    ensures Fits32(s + y)
  {
    ProductMonotone(k + 1, n, high);
    ProductMonotone(0, low, k);
  }

  /** While n times the greatest sample is an int and the samples are between 0 and 1, no sum, grid point or product
      overflows, the result is the trapezoid sum times the step, and bounds on the samples bound it. */
  method ComputeT(n: Int32, a: Float, b: Float, fun: Integrand, ghost low: int, ghost high: int) returns (r: Float)
    requires 1 <= n && a <= b && Fits32(b - a)
    requires 0 <= low <= high <= ONE && high * n < TWO_31 && Bounded(fun, a, b, low, high)
    ensures var h := (b - a) / n;
            && r == TrapezoidSum(fun, a, b, h, n) * h / ONE
            && low * n * h / ONE <= r <= high * n * h / ONE
            && 0 <= r <= b - a
  {
    var span: Float := b - a;
    var h := FDivInt(span, n).value;
    assert h == span / n;
    StepFits(span, n);
    var s := TrapezoidLoop(n, a, b, fun, h, low, high);
    ScaledSum(low, high, s, n, h, span);
    r := FMulF(s, h);
  }

  /** The accumulation of computeT: half the two ends, then the inner samples one by one. */
  method TrapezoidLoop(n: Int32, a: Float, b: Float, fun: Integrand, h: Float, ghost low: int, ghost high: int)
      returns (s: Float)
    requires 1 <= n && a <= b && Fits32(b - a) && 0 <= h && h * n <= b - a
    requires 0 <= low <= high <= ONE && high * n < TWO_31 && Bounded(fun, a, b, low, high)
    ensures s == TrapezoidSum(fun, a, b, h, n)
    ensures low * n <= s <= high * n
  {
    var ends: Float := fun(a).value + fun(b).value;
    s := FDivInt(ends, 2).value;
    var k := 1;
    while k < n
      invariant 1 <= k <= n
      invariant s == TruncDiv(Sample(fun, a) + Sample(fun, b), 2) + InnerSum(fun, a, h, k)
      invariant low * k <= s <= high * k
    {
      GridPointInside(h, n, k, b - a);
      var x: Float := a + FMulInt(h, k);
      SumStaysInRange(low, high, k, n, s, fun(x).value);
      s := s + fun(x).value;
      k := k + 1;
    }
  }

  lemma ScaledSum(low: int, high: int, s: int, n: int, h: int, span: int)
    requires 0 <= low <= high <= ONE && 1 <= n && 0 <= h && h * n <= span
    requires low * n <= s <= high * n
    ensures low * n * h / ONE <= s * h / ONE <= high * n * h / ONE
    ensures 0 <= s * h / ONE <= span
  {
    ProductMonotone(low * n, s, h);
    ProductMonotone(s, high * n, h);
    ProductMonotone(0, low, n);
    ProductMonotone(0, s, h);
    ProductMonotone(high, ONE, n);
    ProductMonotone(s, ONE * n, h);
    assert ONE * n * h == ONE * (h * n);
  }

  lemma DenominatorBelow(x: int, y: int)
    requires Abs(x) <= Abs(y)
    ensures Denominator(x) <= Denominator(y)
  {
    SquareGrows(x, y);
    var s, t := x * x, y * y;
    assert s / ONE <= t / ONE;
  }

  lemma FBounded(a: Float, b: Float)
    requires Denominator(a) < TWO_31 && Denominator(b) < TWO_31
    ensures Bounded(F, a, b, 0, ONE)
  {
    forall x: Float | a <= x <= b
      ensures F(x).Some? && 0 <= F(x).value <= ONE
    {
      DenominatorBelow(x, if Abs(a) < Abs(b) then b else a);
      FInUnitInterval(x);
    }
  }

  /** An interval on whose ends the denominator of f is an int. */
  predicate Admissible(a: Float, b: Float) {
    a <= b && Denominator(a) < TWO_31 && Denominator(b) < TWO_31
  }

  /** The integral of f over such an interval. */
  method IntegrateF(n: Int32, a: Float, b: Float) returns (r: Float)
    requires 1 <= n <= 32767 && Admissible(a, b)
    ensures r == TrapezoidSum(F, a, b, (b - a) / n, n) * ((b - a) / n) / ONE
    ensures 0 <= r <= b - a
  {
    FBounded(a, b);
    EndsNearZero(a);
    EndsNearZero(b);
    r := ComputeT(n, a, b, F, 0, ONE);
  }

  lemma EndsNearZero(x: int)
    requires Denominator(x) < TWO_31
    ensures Abs(x) < 0x100_0000
  {
    if Abs(x) >= 0x100_0000 {
      SquareGrows(0x100_0000, x);
      assert false;
    }
  }

  lemma SampleBounded(fun: Integrand, a: Float, b: Float, high: int, h: int, n: int, k: nat)
    requires a <= b && Bounded(fun, a, b, 0, high) && k <= n && 0 <= h && h * n <= b - a
    ensures 0 <= Sample(fun, a + h * k) <= high
  {
    ProductMonotone(k, n, h);
    ProductMonotone(0, k, h);
    var x: Float := a + h * k;
    assert fun(x).Some?;
  }

  lemma {:induction false} InnerSumBounded(fun: Integrand, a: Float, b: Float, high: int, h: int, n: int, k: nat)
    requires a <= b && 0 <= high && Bounded(fun, a, b, 0, high)
    requires 1 <= k <= n && 0 <= h && h * n <= b - a
    ensures 0 <= InnerSum(fun, a, h, k) <= high * (k - 1)
  {
    hide Sample, Bounded;
    if k > 1 {
      InnerSumBounded(fun, a, b, high, h, n, k - 1);
      SampleBounded(fun, a, b, high, h, n, k - 1);
      Distribute(k - 1, 1, high);
    }
  }

  lemma FAtZero()
    ensures F(0) == Some(ONE) && Admissible(0, 0)
  {
    FInUnitInterval(0);
  }

  /** On the interval from 0 to 0 every sample is 1. */
  lemma {:induction false} InnerSumAtZero(k: nat)
    requires k >= 1
    ensures InnerSum(F, 0, 0, k) == ONE * (k - 1)
  {
    FAtZero();
    if k > 1 {
      InnerSumAtZero(k - 1);
    }
  }

  /** The trapezoid sum of f, of samples that are all positive, is an int on every admissible interval if and only if
      there are at most 32767 steps. */
  lemma SumForFFitsExactly(n: Int32)
    requires n >= 1
    ensures (forall a: Float, b: Float | Admissible(a, b) :: Fits32(TrapezoidSum(F, a, b, (b - a) / n, n))) <==>
            n <= 32767
  {
    if n <= 32767 {
      forall a: Float, b: Float | Admissible(a, b)
        ensures Fits32(TrapezoidSum(F, a, b, (b - a) / n, n))
      {
        FBounded(a, b);
        StepFits(b - a, n);
        InnerSumBounded(F, a, b, ONE, (b - a) / n, n, n);
      }
    } else {
      FAtZero();
      InnerSumAtZero(n);
      assert (0 - 0) / n == 0;
      assert TrapezoidSum(F, 0, 0, (0 - 0) / n, n) == ONE * n;
    }
  }

  // ----- What the sum weighs

  /** v at the point g, and 0 everywhere else. */
  function Spike(g: int, v: Float): Integrand {
    x => if x == g then Some(v) else Some(0)
  }

  /** The inner sum takes each of a + h, ..., a + (n - 1) h once, and no other point. */
  lemma {:induction false} InnerWeights(a: Float, h: int, n: nat, g: Float, v: Float)
    requires h > 0
    ensures InnerSum(Spike(g, v), a, h, n) == if exists k :: 1 <= k < n && a + h * k == g then v else 0
  {
    if n > 1 {
      InnerWeights(a, h, n - 1, g, v);
      var m := n - 1;
      assert Sample(Spike(g, v), a + h * m) == if a + h * m == g then v else 0;
      forall k | 1 <= k < m
        ensures a + h * k < a + h * m
      {
        ProductMonotone(k + 1, m, h);
      }
    }
  }

  /** The trapezoid sum gives each end half its weight and each grid point between them its whole weight. */
  lemma TrapezoidWeights(a: Float, b: Float, h: int, n: nat, g: Float, v: Float)
    requires h > 0 && n >= 1 && a + h * n == b
    ensures TrapezoidSum(Spike(g, v), a, b, h, n) ==
            if g == a || g == b then TruncDiv(v, 2)
            else if exists k :: 1 <= k < n && a + h * k == g then v
            else 0
  {
    InnerWeights(a, h, n, g, v);
    ProductMonotone(1, n, h);
    forall k | 1 <= k < n
      ensures a < a + h * k < b
    {
      ProductMonotone(1, k, h);
      ProductMonotone(k + 1, n, h);
    }
  }

  /** The integrand takes the value c + d x at every x from a to b. */
  ghost predicate Affine(fun: Integrand, a: Float, b: Float, c: int, d: int) {
    forall x: Float | a <= x <= b :: fun(x).Some? && fun(x).value == c + d * x
  }

  lemma {:induction false} AffineInnerSum(fun: Integrand, a: Float, b: Float, h: int, n: nat, c: int, d: int, k: nat)
    requires Affine(fun, a, b, c, d) && 0 <= h && 1 <= k <= n && a + h * n == b
    ensures 2 * InnerSum(fun, a, h, k) == (k - 1) * (2 * (c + d * a) + d * (h * k))
  {
    if k > 1 {
      var m := k - 1;
      AffineInnerSum(fun, a, b, h, n, c, d, m);
      ProductMonotone(0, m, h);
      ProductMonotone(m, n, h);
      var x: Float := a + h * m;
      assert Sample(fun, a + h * m) == c + d * x;
      AffineStep(c + d * a, d, h, m, d * x - d * a);
    }
  }

  lemma AffineStep(y: int, d: int, h: int, m: int, s: int)
    requires s == d * (h * m)
    ensures (m - 1) * (2 * y + d * (h * m)) + 2 * (y + s) == m * (2 * y + d * (h * (m + 1)))
  {
    var p := d * h;
    assert d * (h * m) == p * m && d * (h * (m + 1)) == p * m + p;
    assert (m - 1) * (2 * y + p * m) == m * (2 * y + p * m) - 2 * y - p * m;
    assert m * (2 * y + p * m + p) == m * (2 * y + p * m) + p * m;
  }

  /** On an affine integrand the rule is exact: twice the sum is n times the sum of the two ends, but for the rounding
      of half that sum. */
  lemma AffineSum(fun: Integrand, a: Float, b: Float, h: int, n: nat, c: int, d: int)
    requires Affine(fun, a, b, c, d) && 0 <= h && n >= 1 && a + h * n == b
    ensures var ends := fun(a).value + fun(b).value;
            2 * TrapezoidSum(fun, a, b, h, n) == n * ends - ends + 2 * TruncDiv(ends, 2)
  {
    AffineInnerSum(fun, a, b, h, n, c, d, n);
    ProductMonotone(0, n, h);
    var ends := fun(a).value + fun(b).value;
    assert d * (a + h * n) == d * a + d * (h * n);
    assert ends == 2 * (c + d * a) + d * (h * n);
    assert (n - 1) * ends == n * ends - ends;
  }

  /** The interval |x| <= 36 is inside that range. */
  lemma UpToThirtySix(x: int)
    requires Abs(x) <= 36 * ONE
    ensures Denominator(x) < TWO_31
  {
    SquareGrows(x, 36 * ONE);
  }
}
