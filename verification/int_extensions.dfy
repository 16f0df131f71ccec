/** 32-bit integer arithmetic as C# performs it in an unchecked context, and the `Mod` extension
    method built on it. */
module IntExtensions {
  import opened Wrappers

  const MinInt32: int := -0x8000_0000
  const MaxInt32: int := 0x7FFF_FFFF
  const TwoTo32: int := 0x1_0000_0000

  predicate IsInt32(x: int) {
    MinInt32 <= x <= MaxInt32
  }

  /** Two's-complement wrap-around of an unchecked `int` operation. */
  function Wrap32(x: int): (r: int)
    ensures IsInt32(r)
    ensures (r - x) % TwoTo32 == 0
    ensures IsInt32(x) ==> r == x
  {
    (x - MinInt32) % TwoTo32 + MinInt32
  }

  /** The exceptions `%` can raise on `int`. */
  datatype ArithError = DivideByZero | Overflow

  function Abs(m: int): (r: int)
    ensures r >= 0 && (r == m || r == -m)
  {
    if m < 0 then -m else m
  }

  /** C#'s `/`: truncating toward zero. */
  function CsQuot(x: int, m: int): int
    requires m != 0
  {
    if (x >= 0) == (m > 0) then Abs(x) / Abs(m) else -(Abs(x) / Abs(m))
  }

  /** C#'s `%`: the remainder of truncating division, so it takes the sign of the dividend. */
  function CsRem(x: int, m: int): (r: int)
    requires m != 0
    ensures -Abs(m) < r < Abs(m)
    ensures x >= 0 ==> 0 <= r
    ensures x <= 0 ==> r <= 0
  {
    if x >= 0 then Abs(x) % Abs(m) else -(Abs(x) % Abs(m))
  }

  /** Quotient and remainder recombine to the dividend, as the C# specification requires. */
  lemma {:induction false} CsDivision(x: int, m: int)
    requires m != 0
    ensures x == m * CsQuot(x, m) + CsRem(x, m)
  {
    var a := Abs(m);
    var n := Abs(x);
    var q0 := n / a;
    assert n == a * q0 + n % a;
    if m < 0 {
      assert m * q0 == -(a * q0);
      assert m * -q0 == a * q0;
    } else {
      assert m * -q0 == -(a * q0);
    }
  }

  lemma {:induction false} MulAtLeast(a: int, m: int)
    requires a >= 1 && m > 0
    ensures a * m >= m
  {
    assert a * m == (a - 1) * m + m;
  }

  /** Euclidean division by a positive number has one quotient and one remainder. */
  lemma {:induction false} DivUnique(m: int, q1: int, r1: int, q2: int, r2: int)
    requires m > 0 && 0 <= r1 < m && 0 <= r2 < m
    requires q1 * m + r1 == q2 * m + r2
    ensures q1 == q2 && r1 == r2
  {
    assert (q1 - q2) * m == q1 * m - q2 * m;
    assert (q2 - q1) * m == q2 * m - q1 * m;
    if q1 > q2 {
      MulAtLeast(q1 - q2, m);
    } else if q2 > q1 {
      MulAtLeast(q2 - q1, m);
    }
  }

  /** Adding a multiple of `m` does not change the residue modulo `m`. */
  lemma {:induction false} ModShift(a: int, k: int, m: int)
    requires m > 0
    ensures (a + k * m) % m == a % m
  {
    var b := a + k * m;
    assert a == (a / m) * m + a % m;
    assert b == (a / m + k) * m + a % m;
    assert b == (b / m) * m + b % m;
    DivUnique(m, a / m + k, a % m, b / m, b % m);
  }

  /** A value already below the modulus is its own residue. */
  lemma {:induction false} ModSmall(r: int, m: int)
    requires 0 <= r < m
    ensures r % m == r
  {
    assert r == (r / m) * m + r % m;
    DivUnique(m, 0, r, r / m, r % m);
  }

  /** The C# remainder of a value smaller in magnitude than the modulus is the value itself. */
  lemma {:induction false} CsRemSmall(t: int, m: int)
    requires m != 0 && Abs(t) < Abs(m)
    ensures CsRem(t, m) == t
  {
    ModSmall(Abs(t), Abs(m));
  }

  /** Adding the modulus to a remainder of the same sign leaves its C# remainder unchanged. */
  lemma {:induction false} CsRemShift(rem: int, m: int)
    requires m != 0 && Abs(rem) < Abs(m)
    requires m > 0 ==> rem >= 0
    requires m < 0 ==> rem <= 0
    ensures CsRem(rem + m, m) == rem
  {
    var a := Abs(m);
    var n := Abs(rem);
    assert Abs(rem + m) == n + 1 * a;
    ModShift(n, 1, a);
    ModSmall(n, a);
  }

  /** The C# remainder is congruent to the dividend. */
  lemma {:induction false} CsRemCongruent(x: int, m: int)
    requires m > 0
    ensures CsRem(x, m) % m == x % m
  {
    CsDivision(x, m);
    ModShift(CsRem(x, m), CsQuot(x, m), m);
    assert CsRem(x, m) + CsQuot(x, m) * m == x;
  }

  /** `x % m` with its exceptions: `m == 0` divides by zero, and `int.MinValue % -1` overflows. */
  function CheckedRem(x: int, m: int): (r: Result<int, ArithError>)
    ensures m == 0 ==> r == Failure(DivideByZero)
    ensures m != 0 && !(x == MinInt32 && m == -1) ==> r == Success(CsRem(x, m))
  {
    if m == 0 then Failure(DivideByZero)
    else if x == MinInt32 && m == -1 then Failure(Overflow)
    else Success(CsRem(x, m))
  }

  /** `Mod` exactly as written, `(x % m + m) % m`: the inner sum wraps around when it exceeds
      `int.MaxValue`. */
  function ModAsWritten(x: int, m: int): (r: Result<int, ArithError>)
    requires IsInt32(x) && IsInt32(m)
    ensures m == 0 ==> r == Failure(DivideByZero)
    ensures m > 0 && CsRem(x, m) + m <= MaxInt32 ==> r.Success? && 0 <= r.value < m
  {
    match CheckedRem(x, m)
    case Failure(e) => Failure(e)
    case Success(inner) => CheckedRem(Wrap32(inner + m), m)
  }

  /** The wrap-around makes the as-written `Mod` return a negative value for a positive modulus. */
  lemma {:induction false} ModAsWrittenOverflows()
    ensures ModAsWritten(2147483646, 2147483647) == Success(-3)
  {
    assert CsRem(2147483646, 2147483647) == 2147483646;
    assert Wrap32(2147483646 + 2147483647) == -3;
    assert CsRem(-3, 2147483647) == -3;
  }

  /** `Mod` as intended: the remainder moved into the sign of the modulus, with no intermediate
      value that can leave the 32-bit range. */
  function Mod(x: int, m: int): (r: Result<int, ArithError>)
    requires IsInt32(x) && IsInt32(m)
    ensures m == 0 ==> r == Failure(DivideByZero)
    ensures m > 0 ==> r.Success? && 0 <= r.value < m && r.value % m == x % m
    ensures m > 0 && x >= 0 ==> r == Success(x % m)
    ensures m < 0 && !(x == MinInt32 && m == -1) ==> r.Success? && m < r.value <= 0
    ensures r.Success? ==> IsInt32(r.value)
  {
    match CheckedRem(x, m)
    case Failure(e) => Failure(e)
    case Success(rem) =>
      if m > 0 then
        CsRemCongruent(x, m);
        if rem < 0 then
          ModShift(rem, 1, m);
          Success(rem + m)
        else Success(rem)
      else if rem > 0 && m < 0 then Success(rem + m)
      else Success(rem)
  }

  /** Whenever the inner sum of the as-written `Mod` stays in range, the two definitions agree. */
  lemma {:induction false} ModAgreesWithoutOverflow(x: int, m: int)
    requires IsInt32(x) && IsInt32(m) && m != 0 && !(x == MinInt32 && m == -1)
    requires IsInt32(CsRem(x, m) + m)
    ensures ModAsWritten(x, m) == Mod(x, m)
  {
    var rem := CsRem(x, m);
    var t := rem + m;
    assert CheckedRem(x, m) == Success(rem);
    assert Wrap32(t) == t;
    assert !(t == MinInt32 && m == -1);
    assert ModAsWritten(x, m) == Success(CsRem(t, m));
    var expected := if rem != 0 && (rem < 0) != (m < 0) then rem + m else rem;
    if rem != 0 && (rem < 0) != (m < 0) {
      CsRemSmall(t, m);
    } else {
      CsRemShift(rem, m);
    }
    assert Mod(x, m) == Success(expected);
  }
}
