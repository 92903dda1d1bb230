/** f2F: decoding an IEEE 754 single into 16.16 fixed point with shifts only. */
module SingleFloat {
  import opened MachineInt
  import opened FixedPoint

  function SignBit(bits: Word): int {
    bits / TWO_31
  }

  function Exponent(bits: Word): (e: int)
    ensures 0 <= e < 256
  {
    bits / 0x80_0000 % 256
  }

  function Fraction(bits: Word): (f: int)
    ensures 0 <= f < 0x80_0000
  {
    bits % 0x80_0000
  }

  /** The significand with its hidden bit, for a biased exponent e and fraction f. */
  function Significand(e: int, f: int): int {
    if e != 0 then f + 0x80_0000 else f
  }

  /** The shift instructions use the low five bits of their count. */
  function Sar(x: Int32, count: int): Int32 {
    x / Pow2(count % 32)
  }

  function Shl(x: Int32, count: int): Int32 {
    Wrap32(x * Pow2(count % 32))
  }

  function Magnitude(e: int, m: Int32): Int32 {
    if e < 134 then Sar(m, 134 - e) else if e > 134 then Shl(m, e - 134) else m
  }

  function ToFixed(bits: Word): Float {
    var e := Exponent(bits);
    var x := Magnitude(e, Significand(e, Fraction(bits)));
    if SignBit(bits) == 0 then x else Wrap32(0 - x)
  }

  /** The source's own sequence of updates to x and exp. */
  method F2F(bits: Word) returns (r: Float)
    ensures r == ToFixed(bits)
  {
    hide Sar, Shl;
    var sign, exp, x: Int32 := SignBit(bits), Exponent(bits), Fraction(bits);
    if exp != 0 {
      x := x + 0x80_0000;
    }
    exp := exp - 150;
    if exp < -16 {
      x := Sar(x, -16 - exp);
    }
    if exp > -16 {
      x := Shl(x, 16 + exp);
    }
    r := if sign == 0 then x else Wrap32(0 - x);
  }

  // ----- What the bits mean (IEEE 754-2008, section 3.4)

  function Scale2(k: int): (r: real)
    ensures r > 0.0
    decreases if k < 0 then 0 - k else k
  {
    if k == 0 then 1.0 else if k > 0 then 2.0 * Scale2(k - 1) else Scale2(k + 1) / 2.0
  }

  /** Subnormals (e == 0) have the scale of e == 1 and no hidden bit. */
  function UnsignedValue(e: int, m: nat): (v: real)
    ensures v >= 0.0
  {
    var s := Scale2((if e == 0 then 1 else e) - 150);
    RealAssociates(m as real, s, 1.0);
    m as real * s
  }

  function SingleValue(bits: Word): real {
    var e := Exponent(bits);
    var v := UnsignedValue(e, Significand(e, Fraction(bits)));
    if SignBit(bits) == 0 then v else -v
  }

  function TruncReal(r: real): int {
    if r >= 0.0 then r.Floor else 0 - (-r).Floor
  }

  /** When f2F is right: |value| in [2^-24, 2^15), a value so small that the masked shift still clears it,
      or exactly -2^15. */
  predicate InRange(bits: Word) {
    var e, f := Exponent(bits), Fraction(bits);
    || 103 <= e <= 141
    || (e <= 102 && Significand(e, f) < Pow2((134 - e) % 32))
    || (e == 142 && SignBit(bits) == 1 && f == 0)
  }

  // ----- Powers of two

  lemma {:induction false} Pow2Sum(i: nat, j: nat)
    ensures Pow2(i + j) == Pow2(i) * Pow2(j)
  {
    if i != 0 {
      Pow2Sum(i - 1, j);
    }
  }

  lemma Pow2Values()
    ensures Pow2(0) == 1 && Pow2(5) == 32 && Pow2(6) == 64 && Pow2(7) == 128 && Pow2(8) == 256 && Pow2(9) == 512
    ensures Pow2(21) == 0x20_0000 && Pow2(24) == 0x100_0000
  {
    assert Pow2(4) == 16;
    Pow2Sum(4, 4);
    Pow2Sum(8, 8);
    Pow2Sum(16, 5);
    Pow2Sum(16, 8);
  }

  lemma {:induction false} Pow2Monotone(i: nat, j: nat)
    requires i <= j
    ensures Pow2(i) <= Pow2(j)
    decreases j
  {
    if i < j {
      Pow2Monotone(i, j - 1);
    }
  }

  lemma {:induction false} ScaleStep(k: int)
    ensures Scale2(k + 1) == 2.0 * Scale2(k)
  {
  }

  lemma Scale2Sixteen(k: int)
    ensures Scale2(k) * 65536.0 == Scale2(k + 16)
  {
    ScaleStep(k); ScaleStep(k + 1); ScaleStep(k + 2); ScaleStep(k + 3);
    ScaleStep(k + 4); ScaleStep(k + 5); ScaleStep(k + 6); ScaleStep(k + 7);
    ScaleStep(k + 8); ScaleStep(k + 9); ScaleStep(k + 10); ScaleStep(k + 11);
    ScaleStep(k + 12); ScaleStep(k + 13); ScaleStep(k + 14); ScaleStep(k + 15);
  }

  lemma {:induction false} ScaleIsPow2(n: nat)
    ensures Scale2(n) == Pow2(n) as real
    ensures Scale2(0 - n) * Pow2(n) as real == 1.0
  {
    if n != 0 {
      ScaleIsPow2(n - 1);
      ScaleStep(0 - n);
      calc {
        Scale2(0 - n) * Pow2(n) as real;
        Scale2(0 - n) * (2.0 * Pow2(n - 1) as real);
        (2.0 * Scale2(0 - n)) * Pow2(n - 1) as real;
        Scale2(0 - (n - 1)) * Pow2(n - 1) as real;
      }
    }
  }

  lemma FloorOfQuotient(m: nat, d: nat, r: nat, p: nat, s: real)
    requires s > 0.0 && m == d * p + r && r < p && s * p as real == 1.0
    ensures (m as real * s).Floor == d
  {
    calc {
      m as real * s;
      (d as real * p as real + r as real) * s;
      d as real * (s * p as real) + r as real * s;
      d as real + r as real * s;
    }
    assert 0.0 <= r as real * s < p as real * s;
  }

  // ----- f2F against that meaning

  /** |value| * 65536 truncated, with shifts of any length. */
  function IdealMagnitude(e: int, m: nat): int
    requires e >= 0
  {
    var e' := if e == 0 then 1 else e;
    if e' < 134 then m / Pow2(134 - e') else m * Pow2(e' - 134)
  }

  lemma RealAssociates(a: real, b: real, c: real)
    ensures a * b * c == a * (b * c)
    ensures (-a) * c == -(a * c)
    ensures a >= 0.0 && b > 0.0 ==> a * b >= 0.0
  {
  }

  lemma QuotientFacts(m: nat, p: int)
    requires p >= 1
    ensures m / p >= 0 && 0 <= m - m / p * p < p
    ensures m / p == 0 <==> m < p
  {
    EuclideanRest(m, p);
  }

  lemma ScaledIntegerFloor(m: nat, k: int)
    ensures (m as real * Scale2(k)).Floor == if k < 0 then m / Pow2(0 - k) else m * Pow2(k)
  {
    hide Scale2, Pow2;
    if k < 0 {
      var p := Pow2(0 - k);
      ScaleIsPow2(0 - k);
      QuotientFacts(m, p);
      FloorOfQuotient(m, m / p, m - m / p * p, p, Scale2(k));
    } else {
      ScaleIsPow2(k);
      assert m as real * Pow2(k) as real == (m * Pow2(k)) as real;
    }
  }

  lemma TruncOfSigned(v: real, c: real)
    requires v >= 0.0 && c > 0.0
    ensures TruncReal(v * c) == (v * c).Floor
    ensures TruncReal((-v) * c) == 0 - (v * c).Floor
  {
    RealAssociates(v, c, c);
    var p := v * c;
    assert (-v) * c == -p;
    assert -(-p) == p;
  }

  lemma IdealIsFloor(e: int, m: nat)
    requires e >= 0
    ensures (UnsignedValue(e, m) * 65536.0).Floor == IdealMagnitude(e, m)
  {
    var k := (if e == 0 then 1 else e) - 134;
    RealAssociates(m as real, Scale2(k - 16), 65536.0);
    Scale2Sixteen(k - 16);
    ScaledIntegerFloor(m, k);
  }

  lemma IdealIsTruncatedValue(bits: Word)
    ensures var e := Exponent(bits);
            var ideal := IdealMagnitude(e, Significand(e, Fraction(bits)));
            TruncReal(SingleValue(bits) * 65536.0) == if SignBit(bits) == 0 then ideal else 0 - ideal
  {
    var e := Exponent(bits);
    var m := Significand(e, Fraction(bits));
    IdealIsFloor(e, m);
    TruncOfSigned(UnsignedValue(e, m), 65536.0);
  }

  lemma ProductBounds(a: int, b: int, low: int, high: int)
    requires 0 <= a && low <= b <= high
    ensures a * low <= a * b <= a * high
  {
  }

  lemma RightShift(m: int, count: int)
    requires 0 <= m < 0x100_0000 && count >= 0
    ensures m / Pow2(count) == 0 <==> m < Pow2(count)
    ensures 24 <= count ==> m / Pow2(count) == 0
    ensures m / Pow2(count) >= 0
  {
    QuotientFacts(m, Pow2(count));
    if 24 <= count {
      Pow2Values();
      Pow2Monotone(24, count);
    }
  }

  lemma LeftShift(m: int, count: int)
    requires 0 <= m < 0x100_0000 && 0 <= count <= 7
    ensures Shl(m, count) == m * Pow2(count) >= 0
  {
    assert count % 32 == count;
    assert 0 <= m * Pow2(count) < TWO_31 by {
      Pow2Values();
      Pow2Monotone(count, 7);
      ProductBounds(m, Pow2(count), 0, 128);
    }
  }

  lemma ShiftInRange(e: int, m: int)
    requires 0 <= e <= 141 && 0 <= m < 0x100_0000
    ensures 103 <= e ==> Magnitude(e, m) == IdealMagnitude(e, m)
    ensures e <= 102 ==> IdealMagnitude(e, m) == 0
    ensures e <= 102 ==> (Magnitude(e, m) == 0 <==> m < Pow2((134 - e) % 32))
    ensures Magnitude(e, m) >= 0
  {
    if e >= 134 {
      LeftShift(m, e - 134);
      assert Pow2(0) == 1;
    } else {
      RightShift(m, (134 - e) % 32);
      RightShift(m, if e == 0 then 133 else 134 - e);
      assert 103 <= e ==> (134 - e) % 32 == 134 - e;
    }
  }

  lemma ShiftTooFar(e: int, m: int)
    requires 142 <= e && 0x80_0000 <= m < 0x100_0000
    ensures IdealMagnitude(e, m) >= TWO_31
    ensures IdealMagnitude(e, m) == TWO_31 <==> e == 142 && m == 0x80_0000
    ensures e == 142 && m == 0x80_0000 ==> Magnitude(e, m) == -0x8000_0000
  {
    Pow2Values();
    if e > 142 {
      Pow2Monotone(9, e - 134);
      ProductBounds(m, Pow2(e - 134), 512, Pow2(e - 134));
    }
  }

  /** f2F returns value * 65536 truncated toward zero exactly on the inputs InRange names. */
  lemma F2FExact(bits: Word)
    requires Exponent(bits) < 255
    ensures ToFixed(bits) == TruncReal(SingleValue(bits) * 65536.0) <==> InRange(bits)
  {
    hide Magnitude, IdealMagnitude, SingleValue, TruncReal;
    IdealIsTruncatedValue(bits);
    var e := Exponent(bits);
    var m := Significand(e, Fraction(bits));
    assert SignBit(bits) == 0 || SignBit(bits) == 1;
    if e <= 141 {
      ShiftInRange(e, m);
    } else {
      ShiftTooFar(e, m);
    }
  }

  /** From biased exponent 134 to 165, where the shift to the left is by less than 32, the result is the low 32 bits of
      the truncated value, too large for an int or not. */
  lemma OverflowWraps(bits: Word)
    requires 134 <= Exponent(bits) <= 165
    ensures ToFixed(bits) == Wrap32(TruncReal(SingleValue(bits) * 65536.0))
  {
    hide Magnitude, IdealMagnitude, SingleValue, TruncReal;
    IdealIsTruncatedValue(bits);
    var e := Exponent(bits);
    var m := Significand(e, Fraction(bits));
    WrappedMagnitude(e, m);
    NegatedWrap(IdealMagnitude(e, m));
  }

  lemma WrappedMagnitude(e: int, m: int)
    requires 134 <= e <= 165 && 0x80_0000 <= m < 0x100_0000
    ensures Magnitude(e, m) == Wrap32(IdealMagnitude(e, m))
  {
    assert (e - 134) % 32 == e - 134;
    assert Pow2(0) == 1;
  }

  /** Two singles that differ only by 32 binary orders of magnitude, once or more, have the same result as long as both
      are shifted in the same direction. */
  lemma ShiftCountsRepeat(a: Word, b: Word)
    requires SignBit(a) == SignBit(b) && Fraction(a) == Fraction(b) && (Exponent(a) - Exponent(b)) % 32 == 0
    requires (Exponent(a) >= 134 && Exponent(b) >= 134) || (0 < Exponent(a) < 134 && 0 < Exponent(b) < 134)
    ensures ToFixed(a) == ToFixed(b)
  {
    hide Exponent, Fraction, SignBit;
    SameCount(Exponent(a), Exponent(b), Significand(Exponent(a), Fraction(a)));
  }

  lemma SameCount(d: int, e: int, m: Int32)
    requires (d - e) % 32 == 0 && ((d >= 134 && e >= 134) || (0 < d < 134 && 0 < e < 134))
    ensures Magnitude(d, m) == Magnitude(e, m)
  {
    hide Shl, Sar;
    SameShifts(d - 134, e - 134, m);
    SameShifts(134 - d, 134 - e, m);
    ShiftByNone(m);
  }

  lemma SameShifts(c: int, d: int, m: Int32)
    requires (c - d) % 32 == 0 || (d - c) % 32 == 0
    ensures Shl(m, c) == Shl(m, d) && Sar(m, c) == Sar(m, d)
  {
    assert c % 32 == d % 32;
  }

  lemma ShiftByNone(m: Int32)
    ensures Shl(m, 0) == m
  {
    assert Pow2(0) == 1;
  }

  lemma NegatedWrap(x: int)
    ensures Wrap32(0 - Wrap32(x)) == Wrap32(0 - x)
  {
  }

  lemma ZerosInRange()
    ensures InRange(0) && InRange(TWO_31)
    ensures ToFixed(0) == 0 && ToFixed(TWO_31) == 0
  {
    assert Exponent(0) == 0 && Fraction(0) == 0;
    assert Exponent(TWO_31) == 0 && Fraction(TWO_31) == 0;
    ShiftInRange(0, 0);
  }

  /** 2^-25 becomes 128.0: its shift count is 32, which the hardware reads as 0. */
  lemma TinyValueIsMistaken()
    ensures ToFixed(0x3300_0000) == 0x80_0000
    ensures TruncReal(SingleValue(0x3300_0000) * 65536.0) == 0
  {
    Pow2Values();
    assert Exponent(0x3300_0000) == 102 && Fraction(0x3300_0000) == 0;
    IdealIsTruncatedValue(0x3300_0000);
    ShiftInRange(102, 0x80_0000);
  }

  function Negated(bits: Word): Word {
    if bits < TWO_31 then bits + TWO_31 else bits - TWO_31
  }

  lemma NegatedFields(bits: Word)
    ensures var n := Negated(bits);
            && Exponent(n) == Exponent(bits) && Fraction(n) == Fraction(bits)
            && SignBit(n) == 1 - SignBit(bits) && 0 <= SignBit(bits) <= 1
  {
    assert TWO_31 == 0x80_0000 * 256;
  }

  /** Flipping the sign bit, of any bits at all, negates the result in 32-bit arithmetic, so it negates it unless the
      result is the least int. */
  lemma OddUnderSignFlip(bits: Word)
    ensures ToFixed(Negated(bits)) == Wrap32(0 - ToFixed(bits))
    ensures ToFixed(Negated(bits)) == 0 - ToFixed(bits) <==> ToFixed(bits) != -0x8000_0000
  {
    hide Magnitude, Exponent, Fraction, SignBit, Negated;
    NegatedFields(bits);
  }

  lemma TruncScaledMonotone(v: real, w: real)
    requires v <= w
    ensures TruncReal(v * 65536.0) <= TruncReal(w * 65536.0)
  {
    assert v * 65536.0 <= w * 65536.0;
  }

  lemma MonotoneInRange(a: Word, b: Word)
    requires Exponent(a) < 255 && Exponent(b) < 255
    requires InRange(a) && InRange(b) && SingleValue(a) <= SingleValue(b)
    ensures ToFixed(a) <= ToFixed(b)
  {
    TruncScaledMonotone(SingleValue(a), SingleValue(b));
    F2FExact(a);
    F2FExact(b);
  }

  /** The float literals 1e-4, 0.5 and 7.9 of the sources, as bits and as fixed point. */
  lemma Literals()
    ensures ToFixed(0x38D1_B717) == 6
    ensures ToFixed(0x3F00_0000) == 32768
    ensures ToFixed(0x40FC_CCCD) == 517734
  {
    Pow2Values();
    assert Exponent(0x38D1_B717) == 113 && Exponent(0x3F00_0000) == 126 && Exponent(0x40FC_CCCD) == 129;
  }
}
