/** The 16.16 fixed-point type FLOAT: an int holding 65536 times the value it stands for. */
module FixedPoint {
  import opened MachineInt

  type Float = Int32

  const ONE := 65536

  /** The idiv instruction on edx:eax. None is the divide-error exception. */
  function Idiv(edx: Int32, eax: Word, divisor: Int32): Option<Int32> {
    var dividend := edx * TWO_32 + eax;
    if divisor == 0 then None
    else
      var q := TruncDiv(dividend, divisor);
      if Fits32(q) then Some(q) else None
  }

  function FMulF(a: Float, b: Float): Float {
    Wrap32(a * b / ONE)
  }

  /** a >> 16 goes to edx, the low word of a << 16 to eax. */
  function FDivF(a: Float, b: Float): Option<Float> {
    Idiv(a / ONE, a * ONE % TWO_32, b)
  }

  function Fabs(a: Float): Float {
    if a > 0 then a else Wrap32(0 - a)
  }

  function F2Int(a: Float): Int32 {
    var masked := a - a % ONE;
    masked / ONE
  }

  function Int2F(a: Int32): Float {
    Wrap32(a * ONE)
  }

  function FMulInt(a: Float, b: Int32): Float {
    Wrap32(a * b)
  }

  lemma FMulIntFits(a: Float, b: Int32)
    requires Fits32(a * b)
    ensures FMulInt(a, b) == a * b
  {
  }

  function FDivInt(a: Float, b: Int32): Option<Float> {
    if b == 0 || (a == -TWO_31 && b == -1) then None
    else
      QuotientFits(a, b);
      Some(TruncDiv(a, b))
  }

  lemma QuotientFits(a: Int32, b: Int32)
    requires b != 0 && !(a == -TWO_31 && b == -1)
    ensures Fits32(TruncDiv(a, b))
  {
    var q := TruncDiv(a, b);
    TruncDivRest(a, b);
    if b == 1 || b == -1 {
      assert q * b == if b == 1 then q else -q;
    }
  }

  /** The register pair handed to idiv is the 64-bit number 65536 * a, sign included. */
  lemma RegisterPairIsScaled(a: Float)
    ensures (a / ONE) * TWO_32 + a * ONE % TWO_32 == ONE * a
  {
    var high, low := a / ONE, a % ONE;
    assert a * ONE == high * TWO_32 + low * ONE;
    assert 0 <= low * ONE < TWO_32;
  }

  /** Multiplication rounds down, on whatever side of 0 the product is, as long as the result is an int. */
  lemma FMulFRoundsDown(a: Float, b: Float)
    requires -TWO_31 * ONE <= a * b < TWO_31 * ONE
    ensures ONE * FMulF(a, b) <= a * b < ONE * FMulF(a, b) + ONE
  {
    EuclideanRest(a * b, ONE);
  }

  /** Division is 65536 * a / b rounded toward zero, and it faults exactly when that is no int. */
  lemma FDivFIsTruncatedQuotient(a: Float, b: Float, q: int)
    ensures b == 0 ==> FDivF(a, b) == None
    ensures b != 0 && IsTruncQuotient(ONE * a, b, q) ==>
              FDivF(a, b) == if Fits32(q) then Some(q) else None
  {
    RegisterPairIsScaled(a);
    if b != 0 {
      TruncDivUnique(ONE * a, b, q);
    }
  }

  /** Multiplying by b and dividing by it again gives a back to within 65536 / |b| + 1. */
  lemma MultiplyThenDivide(a: Float, b: Float)
    requires b != 0 && Fits32(a * b / ONE)
    requires FDivF(FMulF(a, b), b).Some?
    ensures Abs(FDivF(FMulF(a, b), b).value - a) * Abs(b) < ONE + Abs(b)
  {
    var p := FMulF(a, b);
    assert ONE * p <= a * b < ONE * p + ONE;
    var q := TruncDiv(ONE * p, b);
    TruncDivRest(ONE * p, b);
    FDivFIsTruncatedQuotient(p, b, q);
    assert Abs(q * b - a * b) < ONE + Abs(b);
    Distribute(q, a, b);
    AbsProduct(q - a, b);
  }

  lemma AbsProduct(m: int, b: int)
    ensures Abs(m * b) == Abs(m) * Abs(b)
  {
  }

  /** Int2F and F2Int are inverse exactly on the 16-bit integers; F2Int rounds down. */
  lemma IntegerRoundTrip(a: Int32)
    ensures F2Int(Int2F(a)) == a <==> -32768 <= a < 32768
    ensures ONE * F2Int(a) <= a < ONE * F2Int(a) + ONE
  {
    assert a * ONE / ONE == a;
  }
}
