/** What the two Newton loops of the FLOAT library share: their exit test and their states. */
module Newton {
  import opened MachineInt
  import opened FixedPoint
  import opened SingleFloat

  /** The bits of the literal 1e-4 in both loop conditions, and its fixed-point value. */
  const EPSILON_BITS := 0x38D1_B717
  const EPSILON: Float := 6

  method Epsilon() returns (e: Float)
    ensures e == EPSILON
  {
    e := F2F(EPSILON_BITS);
    Literals();
  }

  /** A loop is at its head with some t, or has returned one, or has met a divide error. */
  datatype Run = Going(t: Float) | Ended(t: Float) | Faulted

  /** The round of a loop whose correction of t is dt, with the 32-bit sum of the hardware. */
  function Round(t: Float, dt: Option<Float>): Run {
    if dt.None? then Faulted
    else
      var t' := Wrap32(t + dt.value);
      if Fabs(dt.value) > EPSILON then Going(t') else Ended(t')
  }

  /** abs(a) is not computed for the least int only. */
  lemma FabsIsAbs(a: Float)
    requires a != -0x8000_0000
    ensures Fabs(a) == Abs(a)
  {
  }

  lemma SquareMonotone(a: int, b: int)
    requires 0 <= a <= b
    ensures a * a <= b * b
  {
  }

  lemma SquareBound(a: int, b: int)
    requires -b <= a <= b
    ensures a * a <= b * b
  {
    SquareMonotone(Abs(a), b);
    assert Abs(a) * Abs(a) == a * a;
  }
}
