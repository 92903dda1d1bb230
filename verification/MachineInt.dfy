/** The 32-bit machine arithmetic that the C sources are compiled to. */
module MachineInt {

  const TWO_31 := 0x8000_0000
  const TWO_32 := 0x1_0000_0000

  type Int32 = x: int | -0x8000_0000 <= x < 0x8000_0000
  type Word = x: int | 0 <= x < 0x1_0000_0000

  datatype Option<+T> = None | Some(value: T) {
    function GetOr(default: T): T {
      if Some? then value else default
    }
  }

  predicate Fits32(x: int) {
    -TWO_31 <= x < TWO_31
  }

  /** The int whose bit pattern is the low 32 bits of x. */
  function Wrap32(x: int): (r: Int32)
    ensures (r - x) % TWO_32 == 0
    ensures Fits32(x) ==> r == x
  {
    var m := x % TWO_32;
    if m < TWO_31 then m else m - TWO_32
  }

  function Abs(x: int): nat {
    if x < 0 then -x else x
  }

  /** C's `/`: rounds toward zero, whatever the signs. */
  function TruncDiv(a: int, b: int): int
    requires b != 0
  {
    if a >= 0 then a / b else -((-a) / b)
  }

  /** q is the quotient of a by b rounded toward zero. */
  predicate IsTruncQuotient(a: int, b: int, q: int) {
    var rest := a - q * b;
    Abs(rest) < Abs(b) && (a >= 0 ==> rest >= 0) && (a <= 0 ==> rest <= 0)
  }

  lemma MultipleAtLeast(k: int, b: int)
    requires k != 0
    ensures Abs(k * b) >= Abs(b)
  {
    if b != 0 {
      var m := Abs(k);
      assert m * Abs(b) >= 1 * Abs(b) by {
        assert (m - 1) * Abs(b) >= 0;
      }
      assert Abs(k * b) == m * Abs(b);
    }
  }

  /** Rounding toward zero determines the quotient, and TruncDiv is that quotient. */
  lemma TruncDivUnique(a: int, b: int, q: int)
    requires b != 0
    ensures IsTruncQuotient(a, b, q) <==> q == TruncDiv(a, b)
  {
    var p := TruncDiv(a, b);
    TruncDivRest(a, b);
    if IsTruncQuotient(a, b, q) && q != p {
      Distribute(p, q, b);
      MultipleAtLeast(p - q, b);
      assert false;
    }
  }

  lemma Distribute(p: int, q: int, b: int)
    ensures (p - q) * b == p * b - q * b
  {
  }

  lemma ProductMonotone(a: int, b: int, c: int)
    requires a <= b && 0 <= c
    ensures a * c <= b * c
  {
  }

  lemma EuclideanRest(n: int, b: int)
    requires b != 0
    ensures 0 <= n - (n / b) * b < Abs(b)
  {
    assert n == b * (n / b) + n % b;
  }

  lemma QuotientIs(a: int, q: int, u: int)
    requires u >= 1 && 0 <= a - q * u < u
    ensures a / u == q
  {
    EuclideanRest(a, u);
    Distribute(a / u, q, u);
    if a / u != q {
      MultipleAtLeast(a / u - q, u);
      assert false;
    }
  }

  lemma RemainderIs(a: int, q: int, u: int)
    requires u >= 1 && 0 <= a - q * u < u
    ensures a % u == a - q * u
  {
    QuotientIs(a, q, u);
    assert a == u * (a / u) + a % u;
  }

  lemma QuotientShift(a: int, k: int, u: int)
    requires u >= 1
    ensures (a + k * u) / u == a / u + k
  {
    EuclideanRest(a, u);
    Distribute(a / u, -k, u);
    QuotientIs(a + k * u, a / u + k, u);
  }

  lemma QuotientMonotone(a: int, b: int, u: int)
    requires u >= 1 && a <= b
    ensures a / u <= b / u
  {
    EuclideanRest(a, u);
    EuclideanRest(b, u);
    var p, q := a / u, b / u;
    Distribute(p, q, u);
    if p > q {
      MultipleAtLeast(p - q, u);
      assert false;
    }
  }

  lemma RemainderShift(a: int, k: int, u: int)
    requires u >= 1
    ensures (a + k * u) % u == a % u
  {
    QuotientShift(a, k, u);
    Distribute(a / u, -k, u);
    assert a == a / u * u + a % u;
    assert a + k * u == (a + k * u) / u * u + (a + k * u) % u;
  }

  lemma TruncDivRest(a: int, b: int)
    requires b != 0
    ensures IsTruncQuotient(a, b, TruncDiv(a, b))
  {
    if a >= 0 {
      EuclideanRest(a, b);
    } else {
      EuclideanRest(-a, b);
      Distribute(0, (-a) / b, b);
    }
  }

  function Pow2(n: nat): (p: int)
    ensures p >= 1
  {
    if n == 0 then 1 else 2 * Pow2(n - 1)
  }
}
