/** pow's loop on every int: where it is exact, that it ends there at the cube root, and where it goes wrong. The source
    ignores its second argument. */
module PowLoop {
  import opened MachineInt
  import opened FixedPoint
  import opened Newton
  import opened CubeRoot
  import opened Descent

  /** The largest argument for which no round wraps. */
  const POW_LAST := 141310831

  /** The arguments for which every round is exact. */
  predicate PowDomain(x: Float) {
    1 <= x <= POW_LAST || (x < 0 && Lands(0 - x))
  }

  /** Some round of the loop faults or wraps. */
  ghost predicate GoesWrong(x: Float) {
    exists k: nat :: PowRun(x, k).Going? && !PowExact(x, PowRun(x, k).t)
  }

  lemma StartCanStep(x: Float)
    ensures CanStep(x, T_START) <==> x <= POW_LAST
  {
    assert T_START * T_START / ONE == 262144;
  }

  // ----- Rounds

  /** Still falling from the start, on the way to where the fall lands. */
  predicate Falling(x: Float, t: Float) {
    x < 0 && 256 <= t <= T_START && Land(0 - x, t) == Land(0 - x, T_START)
  }

  /** The states of the loop: t falls, or it has the sign of x and a step is possible. */
  predicate PowState(x: Float, t: Float) {
    || Falling(x, t)
    || (x > 0 && CanStep(x, t))
    || (x < 0 && CanStep(0 - x, 0 - t))
  }

  /** t, one unit further from 0, is beyond the cube root of 2^32 * x. */
  predicate BeyondRoot(x: Float, t: int) {
    if x > 0 then CubeBelow(TWO_32 * x, t) else CubeBelow(0 - TWO_32 * x, 0 - t)
  }

  /** t is the cube root, of either sign. */
  predicate IsSignedRoot(x: Float, t: int) {
    if x > 0 then IsCubeRoot(x, t) else IsCubeRoot(0 - x, 0 - t)
  }

  /** First t falls, then it may be anywhere, then it is beyond the root. */
  function Phase(x: Float, t: int): nat {
    if x < 0 < t then 2 else if BeyondRoot(x, t) then 0 else 1
  }

  function Distance(x: Float, t: int): nat {
    if x < 0 < t then t else if Overshot(Abs(x), Abs(t)) then 0 else Abs(t)
  }

  /** A round of the fall leads to Fall, if it is exact; and it is, unless that is far below 0. */
  lemma FallRound(x: Float, t: Float)
    requires x < 0 && 256 <= t <= T_START
    ensures PowExact(x, t) ==> PowDelta(x, t) == Some(Fall(0 - x, t) - t)
    ensures Fall(0 - x, t) >= -0x2000_0000 ==> PowExact(x, t)
    ensures Fall(0 - x, t) < t - 6
  {
    hide FDivF, PowDelta;
    FallBelow(0 - x, t);
    SquareMonotone(256, t);
    SquareMonotone(t, T_START);
    var t2 := t * t / ONE;
    var q := ONE * (0 - x) / t2;
    EuclideanRest(ONE * (0 - x), t2);
    Distribute(0, q, t2);
    QuotientNotNegative(ONE * (0 - x), t2);
    FDivFIsTruncatedQuotient(x, t2, 0 - q);
    if Fits32(0 - q) && Fits32(0 - q - t) {
      DividedDifference(x, t, 0 - q);
    }
  }

  /** What a round from t to t' achieves: another state, closer to the end, or the cube root. */
  predicate Advances(x: Float, t: Float, t': int) {
    && (x < 0 < t || BeyondRoot(x, t'))
    && if Abs(t' - t) > 6 then
         && Fits32(t') && PowState(x, t')
         && (Phase(x, t') < Phase(x, t) || (Phase(x, t') == Phase(x, t) && Distance(x, t') < Distance(x, t)))
       else IsSignedRoot(x, t')
  }

  lemma FallAdvances(x: Float, t: Float)
    requires x < 0 && Lands(0 - x) && Falling(x, t)
    ensures PowExact(x, t) && PowDelta(x, t).Some?
    ensures Advances(x, t, t + PowDelta(x, t).value)
  {
    hide PowExact, PowDelta, Lands, Overshot, CanStep, BeyondRoot;
    LandsExactly(0 - x);
    LandingInRange(0 - x);
    FallRound(x, t);
  }

  lemma LandingInRange(y: int)
    requires y >= 0 && LandsWell(y)
    ensures -T_LAST <= Land(y, T_START) <= -256
  {
  }

  lemma LandsBelow(y: int)
    requires Lands(y)
    ensures 1 <= y <= X_LAST
  {
  }

  /** A step of positive x and t, on which the mirrored step is modelled. */
  lemma StepAdvances(x: Float, t: Float)
    requires 1 <= x <= X_LAST && CanStep(x, t)
    ensures t * t / ONE > 0 && Advances(x, t, NextT(x, t))
  {
    hide CubeBelow, IsCubeRoot, NextT, Overshot, CanStep;
    StepAchieves(x, t);
    StepPositive(x, t);
    var u := NextT(x, t);
    LeastRootAtLeast(x);
    AboveRootCanStep(x, u);
    if CubeBelow(TWO_32 * x, t) {
      AboveRootSettles(x, t);
    }
  }

  lemma MirrorAdvances(x: Float, t: Float, u: int)
    requires x >= 1 && t >= 1 && Advances(x, t, u) && u >= 1
    ensures Advances(0 - x, 0 - t, 0 - u)
  {
    hide CubeBelow, IsCubeRoot, Overshot, CanStep, Land;
  }

  lemma NextPositive(x: int, t: int)
    requires x >= 1 && CanStep(x, t)
    ensures t * t / ONE > 0 && NextT(x, t) >= 1
  {
    StepAchieves(x, t);
    LeastRootAtLeast(x);
  }

  /** In every state the round is exact, and it advances. */
  lemma RoundAdvances(x: Float, t: Float)
    requires PowDomain(x) && PowState(x, t)
    ensures PowExact(x, t) && PowDelta(x, t).Some?
    ensures Advances(x, t, t + PowDelta(x, t).value)
  {
    hide PowExact, PowDelta, Lands, Advances, CanStep, NextT;
    if Falling(x, t) {
      FallAdvances(x, t);
    } else if x > 0 {
      PositiveRound(x, t);
      StepAdvances(x, t);
    } else {
      LandsBelow(0 - x);
      StepPositive(0 - x, 0 - t);
      NegativeRound(0 - x, 0 - t);
      StepAdvances(0 - x, 0 - t);
      NextPositive(0 - x, 0 - t);
      MirrorAdvances(0 - x, 0 - t, NextT(0 - x, 0 - t));
    }
  }

  // ----- Runs in the domain

  lemma StartState(x: Float)
    requires PowDomain(x)
    ensures PowState(x, T_START)
  {
    StartCanStep(x);
  }

  /** The round of the machine, with its test of abs(dt). */
  lemma RoundInDomain(x: Float, t: Float)
    requires PowDomain(x) && PowState(x, t)
    ensures PowExact(x, t) && PowDelta(x, t).Some?
    ensures var r := Round(t, PowDelta(x, t));
            && !r.Faulted? && r.t == t + PowDelta(x, t).value && Advances(x, t, r.t)
            && (r.Going? <==> Abs(r.t - t) > 6)
  {
    hide PowExact, PowDelta, PowDomain, PowState, Advances;
    RoundAdvances(x, t);
    var dt := PowDelta(x, t).value;
    AdvanceFits(x, t, t + dt);
    FabsIsAbs(dt);
  }

  lemma AdvanceFits(x: Float, t: Float, u: int)
    requires PowState(x, t) && Advances(x, t, u)
    ensures -T_LAST <= t <= T_LAST && -T_LAST - 6 <= u <= T_LAST + 6
  {
    hide Land, Phase, Distance, BeyondRoot, IsSignedRoot;
  }

  /** In the domain every round is exact, once t has the sign of x every round leaves it beyond the root, and what the
      loop returns is the cube root. */
  lemma {:induction false} PowRunInDomain(x: Float, k: nat)
    requires PowDomain(x)
    ensures !PowRun(x, k).Faulted?
    ensures PowRun(x, k).Going? ==> PowExact(x, PowRun(x, k).t) && PowState(x, PowRun(x, k).t)
    ensures PowRun(x, k).Ended? ==> IsSignedRoot(x, PowRun(x, k).t)
    ensures k > 0 && PowRun(x, k - 1).Going? && !(x < 0 < PowRun(x, k - 1).t) ==> BeyondRoot(x, PowRun(x, k).t)
  {
    hide PowExact, PowDelta, PowDomain, PowState, IsSignedRoot, BeyondRoot, Round;
    StartState(x);
    if k > 0 {
      PowRunInDomain(x, k - 1);
      var r := PowRun(x, k - 1);
      if r.Going? {
        RoundInDomain(x, r.t);
      }
    }
    if PowRun(x, k).Going? {
      RoundInDomain(x, PowRun(x, k).t);
    }
  }

  // ----- Runs outside it

  lemma SquareRounds(t: Float)
    requires -255 <= t <= 255
    ensures t * t / ONE == 0 && FMulF(t, t) == 0
  {
    SquareBound(t, 255);
  }

  /** At a t within 255 of 0 the square rounds to 0, and the division faults. */
  lemma NearZeroFaults(x: Float, t: Float)
    requires -255 <= t <= 255
    ensures !PowExact(x, t) && PowDelta(x, t) == None
  {
    SquareRounds(t);
  }

  lemma FarSquareWraps(x: Float, t: Float)
    requires Abs(t) > T_LAST
    ensures !PowExact(x, t)
  {
    SquareMonotone(T_LAST + 1, Abs(t));
    assert Abs(t) * Abs(t) == t * t;
  }

  /** From a t <= -256 from which no step is possible, the next t, if it is computed exactly, is out of range. */
  lemma NoStepGoesWrong(x: Float, t: Float)
    requires x < 0 && -T_LAST <= t <= -256 && !CanStep(0 - x, 0 - t)
    ensures PowExact(x, t) ==>
              PowDelta(x, t).Some? && PowDelta(x, t).value < -6 && t + PowDelta(x, t).value < -T_LAST
  {
    hide FDivF, PowDelta;
    var y, s := 0 - x, 0 - t;
    SquareMonotone(256, s);
    SquareMonotone(s, T_LAST);
    assert t * t == s * s;
    var t2 := s * s / ONE;
    var q := ONE * y / t2;
    EuclideanRest(ONE * y, t2);
    Distribute(0, q, t2);
    LargeQuotient(y, s, t2, q);
    FDivFIsTruncatedQuotient(x, t2, 0 - q);
    if Fits32(0 - q) && Fits32(0 - q - t) {
      DividedDifference(x, t, 0 - q);
    }
  }

  lemma LargeQuotient(y: int, s: int, t2: int, q: int)
    requires 0 <= y <= TWO_31 && 256 <= s <= T_LAST && t2 == s * s / ONE && t2 >= 1 && q == ONE * y / t2
    requires ONE * y >= (3 * T_LAST - 2 * s + 3) * t2
    ensures q >= 3 * T_LAST - 2 * s + 3 && s < 1_000_000
  {
    EuclideanRest(ONE * y, t2);
    if q < 3 * T_LAST - 2 * s + 3 {
      ProductMonotone(q + 1, 3 * T_LAST - 2 * s + 3, t2);
      assert false;
    }
    if s >= 1_000_000 {
      SquareMonotone(1_000_000, s);
      ProductMonotone(T_LAST + 3, 3 * T_LAST - 2 * s + 3, t2);
      assert false;
    }
  }

  /** Where the fall has landed with no step possible, this round or the next is not exact. */
  lemma BadLandingGoesWrong(x: Float, k: nat, t: Float)
    requires x < 0 && PowRun(x, k) == Going(t) && t < 256 && !CanStep(0 - x, 0 - t)
    ensures GoesWrong(x)
  {
    hide PowExact, PowDelta, CanStep;
    if -255 <= t <= 255 {
      NearZeroFaults(x, t);
    } else if t < -T_LAST {
      FarSquareWraps(x, t);
    } else {
      NoStepGoesWrong(x, t);
      if PowExact(x, t) {
        ExactRound(x, t);
        var r := PowRun(x, k + 1);
        assert r == Round(t, PowDelta(x, t));
        FarSquareWraps(x, r.t);
      }
    }
  }

  lemma ExactRound(x: Float, t: Float)
    requires PowExact(x, t) && PowDelta(x, t).Some?
    ensures Fits32(t + PowDelta(x, t).value) && -TWO_31 < PowDelta(x, t).value
  {
    hide FDivF;
  }

  lemma ExactFall(x: Float, k: nat, t: Float)
    requires x < 0 && PowRun(x, k) == Going(t) && 256 <= t <= T_START && PowExact(x, t)
    ensures Fits32(Fall(0 - x, t)) && PowRun(x, k + 1) == Going(Fall(0 - x, t)) && Fall(0 - x, t) < t
  {
    hide PowExact, PowDelta, Fall;
    FallRound(x, t);
    ExactRound(x, t);
    assert PowRun(x, k + 1) == Round(t, PowDelta(x, t));
  }

  lemma {:induction false} FallGoesWrong(x: Float, k: nat, t: Float)
    requires x < 0 && PowRun(x, k) == Going(t) && Falling(x, t) && !LandsWell(0 - x)
    ensures GoesWrong(x)
    decreases t
  {
    hide PowExact, PowDelta, CanStep, Fall, PowRun, Land;
    if PowExact(x, t) {
      ExactFall(x, k, t);
      LandOfFall(0 - x, t);
      var u := Fall(0 - x, t);
      if u >= 256 {
        FallGoesWrong(x, k + 1, u);
      } else {
        LandBelow256(0 - x, u);
        BadLandingGoesWrong(x, k + 1, u);
      }
    }
  }

  /** From 0 t falls until its square rounds to 0, and the division faults. */
  lemma {:induction false} ZeroFaults(k: nat, t: Float)
    requires 0 < t <= T_START && PowRun(0, k) == Going(t)
    ensures GoesWrong(0) && exists m :: PowRun(0, m).Faulted?
    decreases t
  {
    hide PowExact, PowDelta;
    if t < 256 {
      NearZeroFaults(0, t);
      assert PowRun(0, k + 1).Faulted?;
    } else {
      ZeroRound(t);
      ZeroFaults(k + 1, t - t / 3);
    }
  }

  lemma ZeroRound(t: Float)
    requires 256 <= t <= T_START
    ensures PowDelta(0, t) == Some(0 - t / 3)
  {
    hide FDivF, PowDelta, PowExact;
    SquareMonotone(256, t);
    SquareMonotone(t, T_START);
    FDivFIsTruncatedQuotient(0, t * t / ONE, 0);
    DividedDifference(0, t, 0);
  }

  /** From 141310832 on the square of the first t computed is no int. */
  lemma LargeGoesWrong(x: Float)
    requires x > POW_LAST
    ensures GoesWrong(x)
  {
    var q := x / 4;
    FDivFIsTruncatedQuotient(x, 262144, q);
    DividedDifference(x, T_START, q);
    assert PowRun(x, 0) == Going(T_START);
    assert PowRun(x, 1) == Going(T_START + (q - T_START) / 3);
    FarSquareWraps(x, PowRun(x, 1).t);
  }

  /** No round faults or wraps if and only if the argument is in PowDomain, for every int. */
  lemma PowExactExactly(x: Float)
    ensures GoesWrong(x) <==> !PowDomain(x)
  {
    hide PowExact, PowDelta, Lands;
    if PowDomain(x) {
      forall k: nat | PowRun(x, k).Going?
        ensures PowExact(x, PowRun(x, k).t)
      {
        PowRunInDomain(x, k);
      }
    } else {
      assert PowRun(x, 0) == Going(T_START);
      if x > 0 {
        LargeGoesWrong(x);
      } else if x == 0 {
        ZeroFaults(0, T_START);
      } else {
        LandsExactly(0 - x);
        FallGoesWrong(x, 0, T_START);
      }
    }
  }

  // ----- How it goes wrong below 0

  /** A fall that lands within 255 of 0 ends in a divide error. */
  lemma {:induction false} LandingNearZeroFaults(x: Float, k: nat, t: Float)
    requires x < 0 && PowRun(x, k) == Going(t) && Falling(x, t) && Land(0 - x, T_START) >= -255
    ensures exists m :: PowRun(x, m).Faulted?
    decreases t
  {
    hide PowExact, PowDelta, Fall, Land, PowRun;
    LandOfFall(0 - x, t);
    LandAtMost(0 - x, Fall(0 - x, t));
    FallRound(x, t);
    ExactFall(x, k, t);
    var u := Fall(0 - x, t);
    if u >= 256 {
      LandingNearZeroFaults(x, k + 1, u);
    } else {
      LandBelow256(0 - x, u);
      FaultAfter(x, k + 1, u);
    }
  }

  lemma LandAtMost(y: int, t: int)
    requires y >= 0
    ensures Land(y, t) <= t
  {
  }

  lemma FaultAfter(x: Float, k: nat, t: Float)
    requires PowRun(x, k) == Going(t) && -255 <= t <= 255
    ensures PowRun(x, k + 1).Faulted?
  {
    hide PowExact, PowDelta;
    NearZeroFaults(x, t);
    assert PowRun(x, k + 1) == Round(t, PowDelta(x, t));
  }

  /** -9 lands at -115. */
  lemma MinusNineFaults()
    ensures exists k :: PowRun(-9, k).Faulted?
  {
    hide After;
    NineLands();
    LandingNearZeroFaults(-9, 0, T_START);
  }

  lemma NineLands()
    ensures Land(9, T_START) == -115
  {
    hide After;
    Passes(9, To(87381, To(58253, To(38832, To(25880, To(17235, To(11447, To(7533, To(4795, To(2635, End))))))))), 10,
           -115);
    LandAfter(9, 10);
  }

  /** -1192611, next to the longest interval of the domain, gets to a t whose square wraps. */
  lemma MinusNextWraps()
    ensures PowRun(-1192611, 1) == Going(-12002) && PowRun(-1192611, 2) == Going(-11866437)
    ensures !Fits32(-11866437 * -11866437 / ONE)
  {
    hide PowDelta, PowExact;
    StepsToFall(1192611, T_START, -12002);
    FallRound(-1192611, T_START);
    assert PowRun(-1192611, 0) == Going(T_START);
    assert PowRun(-1192611, 1) == Going(-12002);
    StepFromMinus12002();
  }

  lemma StepFromMinus12002()
    ensures PowDelta(-1192611, -12002) == Some(-11866437 + 12002)
  {
    hide FDivF;
    FDivFIsTruncatedQuotient(-1192611, 2197, -35575309);
    DividedDifference(-1192611, -12002, -35575309);
  }

  // ----- The loop as code

  /** One pass through the loop body: in the domain the cast, the division and the difference stay within int. */
  method PowCorrection(x: Float, t: Float) returns (dt: Float)
    requires PowDomain(x) && PowState(x, t)
    ensures PowDelta(x, t) == Some(dt)
  {
    hide PowDomain, PowState, Wrap32, FDivF, Advances;
    RoundAdvances(x, t);
    var t2 := FMulF(t, t);
    var quotient := FDivF(x, t2).value;
    var difference: Int32 := quotient - t;
    dt := TruncDiv(difference, 3);
  }

  /** In the domain the loop ends at the cube root: to within one unit on the side of 0 and PowError on the other. */
  method Pow(x: Float, y: Float) returns (t: Float)
    requires PowDomain(x)
    ensures IsSignedRoot(x, t)
    ensures exists k :: PowRun(x, k) == Ended(t)
  {
    hide PowDomain, PowState, PowDelta, PowExact, IsSignedRoot, BeyondRoot;
    var epsilon := Epsilon();
    ghost var k := 0;
    StartState(x);
    t := Int2F(2);
    while true
      invariant PowState(x, t) && PowRun(x, k) == Going(t)
      decreases Phase(x, t), Distance(x, t)
    {
      RoundInDomain(x, t);
      var dt := PowCorrection(x, t);
      t := t + dt;
      k := k + 1;
      if !(Fabs(dt) > epsilon) {
        assert PowRun(x, k) == Ended(t);
        return;
      }
    }
  }
}
