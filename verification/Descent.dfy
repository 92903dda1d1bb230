/** How pow's t falls from its start when the argument is negative, and for which arguments it lands well. */
module Descent {
  import opened MachineInt
  import opened FixedPoint
  import opened Newton
  import opened CubeRoot

  /** The t that follows t > 0 for the argument -y: its correction is negative. */
  function Fall(y: int, t: int): int
    requires t >= 256
  {
    SquareMonotone(256, t);
    t - (t + ONE * y / (t * t / ONE)) / 3
  }

  lemma QuotientNotNegative(a: int, u: int)
    requires a >= 0 && u >= 1
    ensures a / u >= 0
  {
  }

  lemma FallBelow(y: int, t: int)
    requires y >= 0 && t >= 256
    ensures Fall(y, t) < t - 6
  {
    SquareMonotone(256, t);
    QuotientNotNegative(ONE * y, t * t / ONE);
  }

  /** The first t below 256. */
  function Land(y: int, t: int): (u: int)
    requires y >= 0
    ensures u < 256 && u <= t
    decreases if t >= 256 then t else 0
  {
    if t < 256 then t
    else
      FallBelow(y, t);
      Land(y, Fall(y, t))
  }

  lemma LandOfFall(y: int, t: int)
    requires y >= 0 && t >= 256
    ensures Land(y, t) == Land(y, Fall(y, t))
  {
    FallBelow(y, t);
  }

  lemma LandBelow256(y: int, t: int)
    requires y >= 0 && t < 256
    ensures Land(y, t) == t
  {
  }

  /** Where the fall from the start ends, a step of the mirrored loop is possible. */
  predicate LandsWell(y: int)
    requires y >= 0
  {
    CanStep(y, 0 - Land(y, T_START))
  }

  // ----- Falls side by side

  lemma QuotientOrder(a: int, t2: int, b: int, u2: int)
    requires 0 <= a <= b && 1 <= u2 <= t2
    ensures a / t2 <= b / u2
  {
    EuclideanRest(a, t2);
    EuclideanRest(b, u2);
    QuotientNotNegative(a, t2);
    var p, q := a / t2, b / u2;
    if p > q {
      ProductMonotone(q + 1, p, u2);
      ProductMonotone(u2, t2, p);
      Distribute(q, -1, u2);
      assert false;
    }
  }

  /** A larger argument or a smaller t falls lower. */
  lemma FallMonotone(y: int, t: int, z: int, u: int)
    requires 0 <= y <= z && 256 <= u <= t
    ensures Fall(z, u) <= Fall(y, t)
  {
    SquareMonotone(256, u);
    SquareMonotone(u, t);
    QuotientOrder(ONE * y, t * t / ONE, ONE * z, u * u / ONE);
  }

  /** The fall after n steps, or where it ended. */
  function After(y: int, n: nat): int {
    if n == 0 then T_START
    else
      var t := After(y, n - 1);
      if t >= 256 then Fall(y, t) else t
  }

  lemma {:induction false} LandAfter(y: int, n: nat)
    requires y >= 0
    ensures Land(y, T_START) == Land(y, After(y, n))
  {
    if n != 0 {
      LandAfter(y, n - 1);
    }
  }

  /** As long as the largest argument is still falling, the falls of those in between stay in between. */
  lemma {:induction false} AfterBetween(a: int, y: int, b: int, n: nat)
    requires 0 <= a <= y <= b && (n == 0 || After(b, n - 1) >= 256)
    ensures After(b, n) <= After(y, n) <= After(a, n)
  {
    if n != 0 {
      AfterBetween(a, y, b, n - 1);
      var t, u, v := After(a, n - 1), After(y, n - 1), After(b, n - 1);
      FallMonotone(a, t, y, u);
      FallMonotone(y, u, b, v);
    }
  }

  /** The n-th step of the fall leads to t. */
  predicate ComesTo(y: int, n: nat, t: int) {
    n > 0 && After(y, n) == t && After(y, n - 1) >= 256
  }

  // ----- Blocks of arguments between two falls

  /** All falls that end between -high and -low > -256 for an argument up to b end where a step is possible. */
  predicate GoodEnds(b: int, low: int, high: int) {
    256 <= low && high <= T_LAST && ONE * b < (3 * T_LAST - 2 * high + 3) * (low * low / ONE)
  }

  lemma GoodInside(y: int, b: int, low: int, s: int, high: int)
    requires 0 <= y <= b && low <= s <= high && GoodEnds(b, low, high)
    ensures CanStep(y, s)
  {
    SquareMonotone(low, s);
    SquareMonotone(256, low);
    var l2, s2 := low * low / ONE, s * s / ONE;
    GrowingProduct(3 * T_LAST - 2 * high + 3, l2, 3 * T_LAST - 2 * s + 3, s2);
  }

  lemma GrowingProduct(a: int, b: int, c: int, d: int)
    requires 0 <= a <= c && 0 <= b <= d
    ensures a * b <= c * d
  {
    ProductMonotone(a, c, b);
    ProductMonotone(b, d, c);
  }

  lemma GoodBlock(y: int, n: nat, a: int, u: int, b: int, v: int)
    requires 0 <= a <= y <= b && ComesTo(a, n, u) && ComesTo(b, n, v)
    requires GoodEnds(b, 0 - u, 0 - v)
    ensures LandsWell(y)
  {
    hide After, CanStep;
    AfterBetween(a, y, b, n);
    LandAfter(y, n);
    GoodInside(y, b, 0 - u, 0 - After(y, n), 0 - v);
    EndsLow(b, 0 - u, 0 - v);
  }

  lemma EndsLow(b: int, low: int, high: int)
    requires GoodEnds(b, low, high)
    ensures low >= 256
  {
  }

  /** From u >= 256 on an argument from a on falls below -T_LAST at once. */
  predicate FallsTooFar(a: int, u: int) {
    ONE * a >= (3 * T_LAST + 2 * u + 3) * (u * u / ONE)
  }

  /** From -s <= -least the step of an argument from a on leads beyond T_LAST. */
  predicate StepsTooFar(a: int, least: int, s: int) {
    ONE * a >= (3 * T_LAST - 2 * least + 3) * (s * s / ONE)
  }

  /** No step is possible where falls from an argument a on end, if after n steps they are between high and low. */
  predicate BadEnds(a: int, high: int, low: int) {
    || high < -T_LAST
    || (&& (high >= 256 ==> FallsTooFar(a, high))
        && (low <= -256 ==> StepsTooFar(a, if high <= -256 then 0 - high else 256, 0 - low)))
  }

  lemma BadBlock(y: int, n: nat, a: int, u: int, b: int, v: int)
    requires 0 <= a <= y <= b && ComesTo(a, n, u) && ComesTo(b, n, v)
    requires BadEnds(a, u, v)
    ensures !LandsWell(y)
  {
    hide After;
    AfterBetween(a, y, b, n);
    LandAfter(y, n);
    var high, t, low := u, After(y, n), v;
    if t >= 256 {
      TooFarBelow(a, y, high, t);
    } else if -T_LAST <= t <= -256 {
      StepBeyond(a, y, if high <= -256 then 0 - high else 256, 0 - t, 0 - low);
    }
  }

  lemma TooFarBelow(a: int, y: int, high: int, t: int)
    requires 0 <= a <= y && 256 <= t <= high && FallsTooFar(a, high)
    ensures Land(y, t) < -T_LAST
  {
    var u2 := high * high / ONE;
    SquareMonotone(256, high);
    EuclideanRest(ONE * a, u2);
    var q := ONE * a / u2;
    if q < 3 * T_LAST + 2 * high + 3 {
      ProductMonotone(q + 1, 3 * T_LAST + 2 * high + 3, u2);
      assert false;
    }
    FallMonotone(a, high, y, t);
    FallBelow(y, t);
  }

  lemma StepBeyond(a: int, y: int, least: int, s: int, most: int)
    requires 0 <= a <= y && 256 <= least <= s <= most && s <= T_LAST && StepsTooFar(a, least, most)
    ensures !CanStep(y, s)
  {
    SquareMonotone(s, most);
    SquareMonotone(256, s);
    GrowingProduct(3 * T_LAST - 2 * s + 3, s * s / ONE, 3 * T_LAST - 2 * least + 3, most * most / ONE);
  }

  // ----- Falls step by step

  /** u follows t, without a division by a variable. */
  predicate StepsTo(y: int, t: int, u: int) {
    var t2 := t * t / ONE;
    t >= 256 && (2 * t - 3 * u) * t2 <= ONE * y < (2 * t - 3 * u + 3) * t2
  }

  lemma StepsToFall(y: int, t: int, u: int)
    requires StepsTo(y, t, u)
    ensures Fall(y, t) == u
  {
    SquareMonotone(256, t);
    var t2 := t * t / ONE;
    EuclideanRest(ONE * y, t2);
    var q := ONE * y / t2;
    if q < 2 * t - 3 * u {
      ProductMonotone(q + 1, 2 * t - 3 * u, t2);
      assert false;
    }
    if q > 2 * t - 3 * u + 2 {
      ProductMonotone(2 * t - 3 * u + 3, q, t2);
      assert false;
    }
  }

  datatype Path = End | To(t: int, rest: Path)

  /** From t on, n steps lead over the path to last. */
  predicate Traces(y: int, t: int, path: Path, n: int, last: int)
    decreases path
  {
    match path
    case End => n == 1 && StepsTo(y, t, last)
    case To(u, rest) => StepsTo(y, t, u) && Traces(y, u, rest, n - 1, last)
  }

  /** The first n steps of the fall of y. */
  lemma Passes(y: int, path: Path, n: nat, last: int)
    requires Traces(y, T_START, path, n, last)
    ensures ComesTo(y, n, last)
  {
    hide StepsTo;
    PassesFrom(y, 0, T_START, path, n, last);
  }

  lemma {:induction false} PassesFrom(y: int, m: nat, t: int, path: Path, n: int, last: int)
    requires After(y, m) == t && Traces(y, t, path, n, last)
    ensures n > 0 && After(y, m + n) == last && After(y, m + n - 1) >= 256
    decreases path
  {
    match path
    case End => StepsToFall(y, t, last);
    case To(u, rest) =>
      StepsToFall(y, t, u);
      PassesFrom(y, m + 1, u, rest, n - 1, last);
  }

  /** The arguments -y for which pow's t lands well. */
  predicate Lands(y: int) {
    || 1 <= y <= 8
    || 10 <= y <= 28
    || 31 <= y <= 96
    || 103 <= y <= 329
    || 344 <= y <= 1107
    || 1167 <= y <= 3749
    || 3958 <= y <= 12708
    || 13569 <= y <= 13575
    || 13578 <= y <= 44138
    || 47990 <= y <= 167420
    || 188554 <= y <= 922035
    || 1192612 <= y <= 143407983
  }

  lemma LandsFrom1(y: int)
    requires 1 <= y <= 2
    ensures LandsWell(y)
  {
    hide ComesTo, LandsWell;
    Passes(1, To(87382, To(58255, To(38837, To(25891, To(17259, To(11502, To(7658, To(5081, To(3332, To(2093, To(1065,
           End))))))))))), 12, -575);
    Passes(2, To(87382, To(58255, To(38836, To(25889, To(17256, To(11495, To(7642, To(5046, To(3252, To(1897, To(456,
           End))))))))))), 12, -14259);
    GoodBlock(y, 12, 1, -575, 2, -14259);
  }

  lemma LandsFrom3(y: int)
    requires 3 <= y <= 8
    ensures LandsWell(y)
  {
    hide ComesTo, LandsWell;
    Passes(3, To(87382, To(58255, To(38836, To(25888, To(17253, To(11488, To(7627, To(5011, To(3170, To(1685,
           End)))))))))), 11, -400);
    Passes(8, To(87381, To(58253, To(38832, To(25881, To(17237, To(11453, To(7548, To(4831, To(2730, To(274,
           End)))))))))), 11, -174580);
    GoodBlock(y, 11, 3, -400, 8, -174580);
  }

  lemma FailsFrom9(y: int)
    requires y == 9
    ensures !LandsWell(y)
  {
    hide ComesTo, LandsWell;
    Passes(9, To(87381, To(58253, To(38832, To(25880, To(17235, To(11447, To(7533, To(4795, To(2635, End))))))))), 10,
           -115);
    BadBlock(y, 10, 9, -115, 9, -115);
  }

  lemma LandsFrom10(y: int)
    requires 10 <= y <= 28
    ensures LandsWell(y)
  {
    hide ComesTo, LandsWell;
    Passes(10, To(87381, To(58253, To(38832, To(25879, To(17232, To(11440, To(7518, To(4759, To(2540, End))))))))),
           10, -535);
    Passes(28, To(87379, To(58248, To(38821, To(25855, To(17177, To(11316, To(7231, To(4054, To(256, End))))))))), 10,
           -611498);
    GoodBlock(y, 10, 10, -535, 28, -611498);
  }

  lemma FailsFrom29(y: int)
    requires 29 <= y <= 30
    ensures !LandsWell(y)
  {
    hide ComesTo, LandsWell;
    Passes(29, To(87379, To(58248, To(38820, To(25853, To(17174, To(11309, To(7215, To(4013, End)))))))), 9, 90);
    Passes(30, To(87379, To(58248, To(38820, To(25852, To(17171, To(11302, To(7199, To(3970, End)))))))), 9, -84);
    BadBlock(y, 9, 29, 90, 30, -84);
  }

  lemma LandsFrom31(y: int)
    requires 31 <= y <= 96
    ensures LandsWell(y)
  {
    hide ComesTo, LandsWell;
    Passes(31, To(87379, To(58247, To(38819, To(25850, To(17167, To(11295, To(7183, To(3929, End)))))))), 9, -262);
    Passes(96, To(87374, To(58232, To(38781, To(25763, To(16969, To(10836, To(6054, To(285, End)))))))), 9, -2096962);
    GoodBlock(y, 9, 31, -262, 96, -2096962);
  }

  lemma FailsFrom97(y: int)
    requires 97 <= y <= 102
    ensures !LandsWell(y)
  {
    hide ComesTo, LandsWell;
    Passes(97, To(87374, To(58232, To(38781, To(25762, To(16966, To(10829, To(6035, End))))))), 8, 206);
    Passes(102, To(87373, To(58230, To(38777, To(25755, To(16950, To(10792, To(5941, End))))))), 8, -181);
    BadBlock(y, 8, 97, 206, 102, -181);
  }

  lemma LandsFrom103(y: int)
    requires 103 <= y <= 329
    ensures LandsWell(y)
  {
    hide ComesTo, LandsWell;
    Passes(103, To(87373, To(58230, To(38777, To(25754, To(16947, To(10785, To(5922, End))))))), 8, -257);
    Passes(325, To(87355, To(58176, To(38647, To(25454, To(16252, To(9073, To(397, End))))))), 8, -3549602);
    Passes(329, To(87354, To(58175, To(38645, To(25448, To(16238, To(9039, To(258, End))))))), 8, -7186942);
    if y <= 325 {
      GoodBlock(y, 8, 103, -257, 325, -3549602);
    } else {
      GoodBlock(y, 8, 325, -3549602, 329, -7186942);
    }
  }

  lemma FailsFrom330(y: int)
    requires 330 <= y <= 343
    ensures !LandsWell(y)
  {
    hide ComesTo, LandsWell;
    Passes(330, To(87354, To(58175, To(38644, To(25447, To(16236, To(9032, End)))))), 7, 227);
    Passes(343, To(87353, To(58171, To(38636, To(25429, To(16194, To(8924, End)))))), 7, -217);
    BadBlock(y, 7, 330, 227, 343, -217);
  }

  lemma LandsFrom344(y: int)
    requires 344 <= y <= 1107
    ensures LandsWell(y)
  {
    hide ComesTo, LandsWell;
    Passes(344, To(87353, To(58171, To(38636, To(25428, To(16191, To(8916, End)))))), 7, -256);
    Passes(542, To(87337, To(58123, To(38519, To(25157, To(15546, To(7153, End)))))), 7, -10411);
    Passes(1107, To(87290, To(57986, To(38186, To(24371, To(13579, To(456, End)))))), 7, -8060624);
    if y <= 542 {
      GoodBlock(y, 7, 344, -256, 542, -10411);
    } else {
      GoodBlock(y, 7, 542, -10411, 1107, -8060624);
    }
  }

  lemma FailsFrom1108(y: int)
    requires 1108 <= y <= 1166
    ensures !LandsWell(y)
  {
    hide ComesTo, LandsWell;
    Passes(1108, To(87289, To(57985, To(38185, To(24369, To(13575, End))))), 6, 440);
    Passes(1166, To(87285, To(57971, To(38151, To(24288, To(13363, End))))), 6, -442);
    BadBlock(y, 6, 1108, 440, 1166, -442);
  }

  lemma LandsFrom1167(y: int)
    requires 1167 <= y <= 3749
    ensures LandsWell(y)
  {
    hide ComesTo, LandsWell;
    Passes(1167, To(87285, To(57971, To(38151, To(24287, To(13359, End))))), 6, -456);
    Passes(1628, To(87246, To(57858, To(37876, To(23626, To(11575, End))))), 6, -9682);
    Passes(3749, To(87069, To(57339, To(36594, To(20388, To(679, End))))), 6, -11699283);
    if y <= 1628 {
      GoodBlock(y, 6, 1167, -456, 1628, -9682);
    } else {
      GoodBlock(y, 6, 1628, -9682, 3749, -11699283);
    }
  }

  lemma FailsFrom3750(y: int)
    requires 3750 <= y <= 3957
    ensures !LandsWell(y)
  {
    hide ComesTo, LandsWell;
    Passes(3750, To(87069, To(57338, To(36593, To(20386, End)))), 5, 672);
    Passes(3950, To(87053, To(57290, To(36471, To(20063, End)))), 5, -673);
    Passes(3957, To(87052, To(57288, To(36466, To(20051, End)))), 5, -724);
    if y <= 3950 {
      BadBlock(y, 5, 3750, 672, 3950, -673);
    } else {
      BadBlock(y, 5, 3950, -673, 3957, -724);
    }
  }

  lemma LandsFrom3958(y: int)
    requires 3958 <= y <= 12708
    ensures LandsWell(y)
  {
    hide ComesTo, LandsWell;
    Passes(3958, To(87052, To(57287, To(36465, To(20049, End)))), 5, -732);
    Passes(4343, To(87020, To(57193, To(36228, To(19415, End)))), 5, -3553);
    Passes(12708, To(86323, To(55108, To(30748, To(1255, End)))), 5, -11566267);
    if y <= 4343 {
      GoodBlock(y, 5, 3958, -732, 4343, -3553);
    } else {
      GoodBlock(y, 5, 4343, -3553, 12708, -11566267);
    }
  }

  lemma FailsFrom12709(y: int)
    requires 12709 <= y <= 13568
    ensures !LandsWell(y)
  {
    hide ComesTo, LandsWell;
    Passes(12709, To(86323, To(55107, To(30747, End))), 4, 1252);
    Passes(13561, To(86252, To(54892, To(30152, End))), 4, -1254);
    Passes(13568, To(86251, To(54890, To(30147, End))), 4, -1276);
    if y <= 13561 {
      BadBlock(y, 4, 12709, 1252, 13561, -1254);
    } else {
      BadBlock(y, 4, 13561, -1254, 13568, -1276);
    }
  }

  lemma LandsFrom13569(y: int)
    requires 13569 <= y <= 13575
    ensures LandsWell(y)
  {
    hide ComesTo, LandsWell;
    Passes(13569, To(86251, To(54890, To(30146, End))), 4, -1280);
    Passes(13575, To(86251, To(54889, To(30142, End))), 4, -1296);
    GoodBlock(y, 4, 13569, -1280, 13575, -1296);
  }

  lemma FailsFrom13576(y: int)
    requires 13576 <= y <= 13577
    ensures !LandsWell(y)
  {
    hide ComesTo, LandsWell;
    Passes(13576, To(86250, To(54888, To(30141, End))), 4, -1300);
    Passes(13577, To(86250, To(54888, To(30141, End))), 4, -1302);
    BadBlock(y, 4, 13576, -1300, 13577, -1302);
  }

  lemma LandsFrom13578(y: int)
    requires 13578 <= y <= 44138
    ensures LandsWell(y)
  {
    hide ComesTo, LandsWell;
    Passes(13578, To(86250, To(54887, To(30139, End))), 4, -1308);
    Passes(14117, To(86205, To(54751, To(29759, End))), 4, -2982);
    Passes(43599, To(83749, To(46934, To(2954, End))), 4, -7159193);
    Passes(44138, To(83704, To(46784, To(2319, End))), 4, -11757104);
    if y <= 14117 {
      GoodBlock(y, 4, 13578, -1308, 14117, -2982);
    } else if y <= 43599 {
      GoodBlock(y, 4, 14117, -2982, 43599, -7159193);
    } else {
      GoodBlock(y, 4, 43599, -7159193, 44138, -11757104);
    }
  }

  lemma FailsFrom44139(y: int)
    requires 44139 <= y <= 47989
    ensures !LandsWell(y)
  {
    hide ComesTo, LandsWell;
    Passes(44139, To(83704, To(46784, End)), 3, 2318);
    Passes(47913, To(83389, To(45729, End)), 3, -2316);
    Passes(47989, To(83383, To(45708, End)), 3, -2413);
    if y <= 47913 {
      BadBlock(y, 3, 44139, 2318, 47913, -2316);
    } else {
      BadBlock(y, 3, 47913, -2316, 47989, -2413);
    }
  }

  lemma LandsFrom47990(y: int)
    requires 47990 <= y <= 167420
    ensures LandsWell(y)
  {
    hide ComesTo, LandsWell;
    Passes(47990, To(83383, To(45707, End)), 3, -2416);
    Passes(48324, To(83355, To(45613, End)), 3, -2844);
    Passes(66676, To(81825, To(40293, End)), 3, -31934);
    Passes(167420, To(73430, To(4501, End)), 3, -11833069);
    if y <= 48324 {
      GoodBlock(y, 3, 47990, -2416, 48324, -2844);
    } else if y <= 66676 {
      GoodBlock(y, 3, 48324, -2844, 66676, -31934);
    } else {
      GoodBlock(y, 3, 66676, -31934, 167420, -11833069);
    }
  }

  lemma FailsFrom167421(y: int)
    requires 167421 <= y <= 188553
    ensures !LandsWell(y)
  {
    hide ComesTo, LandsWell;
    Passes(167421, To(73430, End), 2, 4500);
    Passes(187950, To(71719, End), 2, -4500);
    Passes(188538, To(71670, End), 2, -4768);
    Passes(188553, To(71669, End), 2, -4775);
    if y <= 187950 {
      BadBlock(y, 2, 167421, 4500, 187950, -4500);
    } else if y <= 188538 {
      BadBlock(y, 2, 187950, -4500, 188538, -4768);
    } else {
      BadBlock(y, 2, 188538, -4768, 188553, -4775);
    }
  }

  lemma LandsFrom188554(y: int)
    requires 188554 <= y <= 922035
    ensures LandsWell(y)
  {
    hide ComesTo, LandsWell;
    Passes(188554, To(71669, End), 2, -4776);
    Passes(188931, To(71638, End), 2, -4946);
    Passes(202432, To(70512, End), 2, -11282);
    Passes(834003, To(17882, End), 2, -3722260);
    Passes(922035, To(10546, End), 2, -11862245);
    if y <= 188931 {
      GoodBlock(y, 2, 188554, -4776, 188931, -4946);
    } else if y <= 202432 {
      GoodBlock(y, 2, 188931, -4946, 202432, -11282);
    } else if y <= 834003 {
      GoodBlock(y, 2, 202432, -11282, 834003, -3722260);
    } else {
      GoodBlock(y, 2, 834003, -3722260, 922035, -11862245);
    }
  }

  lemma FailsFrom922036(y: int)
    requires 922036 <= y <= 1192611
    ensures !LandsWell(y)
  {
    hide ComesTo, LandsWell;
    Passes(922036, End, 1, 10545);
    Passes(1175163, End, 1, -10548);
    Passes(1191555, End, 1, -11914);
    Passes(1192539, End, 1, -11996);
    Passes(1192611, End, 1, -12002);
    if y <= 1175163 {
      BadBlock(y, 1, 922036, 10545, 1175163, -10548);
    } else if y <= 1191555 {
      BadBlock(y, 1, 1175163, -10548, 1191555, -11914);
    } else if y <= 1192539 {
      BadBlock(y, 1, 1191555, -11914, 1192539, -11996);
    } else {
      BadBlock(y, 1, 1192539, -11996, 1192611, -12002);
    }
  }

  lemma LandsFrom1192612(y: int)
    requires 1192612 <= y <= 1196073
    ensures LandsWell(y)
  {
    hide ComesTo, LandsWell;
    Passes(1192612, End, 1, -12003);
    Passes(1192835, End, 1, -12021);
    Passes(1196073, End, 1, -12291);
    if y <= 1192835 {
      GoodBlock(y, 1, 1192612, -12003, 1192835, -12021);
    } else {
      GoodBlock(y, 1, 1192835, -12021, 1196073, -12291);
    }
  }

  lemma LandsFrom1196073(y: int)
    requires 1196073 <= y <= 143407983
    ensures LandsWell(y)
  {
    hide ComesTo, LandsWell;
    Passes(1196073, End, 1, -12291);
    Passes(1250564, End, 1, -16832);
    Passes(2333513, End, 1, -107078);
    Passes(66076489, End, 1, -5418992);
    Passes(143407983, End, 1, -11863283);
    if y <= 1250564 {
      GoodBlock(y, 1, 1196073, -12291, 1250564, -16832);
    } else if y <= 2333513 {
      GoodBlock(y, 1, 1250564, -16832, 2333513, -107078);
    } else if y <= 66076489 {
      GoodBlock(y, 1, 2333513, -107078, 66076489, -5418992);
    } else {
      GoodBlock(y, 1, 66076489, -5418992, 143407983, -11863283);
    }
  }

  lemma FailsFrom143407984(y: int)
    requires 143407984 <= y <= 2147483648
    ensures !LandsWell(y)
  {
    hide ComesTo, LandsWell;
    Passes(143407984, End, 1, -11863284);
    Passes(2147483648, End, 1, -178869589);
    BadBlock(y, 1, 143407984, -11863284, 2147483648, -178869589);
  }

  /** The condition on the fall, in terms of the argument alone. */
  lemma LandsExactly(y: int)
    requires 1 <= y <= TWO_31
    ensures LandsWell(y) <==> Lands(y)
  {
    hide LandsWell;
    if y <= 2 {
      LandsFrom1(y);
    } else if y <= 8 {
      LandsFrom3(y);
    } else if y <= 9 {
      FailsFrom9(y);
    } else if y <= 28 {
      LandsFrom10(y);
    } else if y <= 30 {
      FailsFrom29(y);
    } else if y <= 96 {
      LandsFrom31(y);
    } else if y <= 102 {
      FailsFrom97(y);
    } else if y <= 329 {
      LandsFrom103(y);
    } else if y <= 343 {
      FailsFrom330(y);
    } else if y <= 1107 {
      LandsFrom344(y);
    } else if y <= 1166 {
      FailsFrom1108(y);
    } else if y <= 3749 {
      LandsFrom1167(y);
    } else if y <= 3957 {
      FailsFrom3750(y);
    } else if y <= 12708 {
      LandsFrom3958(y);
    } else if y <= 13568 {
      FailsFrom12709(y);
    } else if y <= 13575 {
      LandsFrom13569(y);
    } else if y <= 13577 {
      FailsFrom13576(y);
    } else if y <= 44138 {
      LandsFrom13578(y);
    } else if y <= 47989 {
      FailsFrom44139(y);
    } else if y <= 167420 {
      LandsFrom47990(y);
    } else if y <= 188553 {
      FailsFrom167421(y);
    } else if y <= 922035 {
      LandsFrom188554(y);
    } else if y <= 1192611 {
      FailsFrom922036(y);
    } else if y <= 1196073 {
      LandsFrom1192612(y);
    } else if y <= 143407983 {
      LandsFrom1196073(y);
    } else {
      FailsFrom143407984(y);
    }
  }
}
