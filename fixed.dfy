/** The libnds 20.12 fixed-point primitives the lighting uses, as
    definitions: 4096 stands for 1.0. Products and quotients are computed
    in 64 bits by the hardware and then shifted or divided; the model uses
    unbounded integers and does not truncate results back to 32 bits. */
module FixedPoint {

  /** One, in 20.12 fixed point. */
  const One := 4096

  /** A three-component `int32[3]` vector. */
  datatype Vec3 = Vec3(x: int, y: int, z: int)

  function Abs(a: int): (r: nat)
    ensures r == a || r == -a
  {
    if a < 0 then -a else a
  }

  /** `mulf32(a, b)`: the 64-bit product shifted right by 12. An arithmetic
      shift rounds toward minus infinity, so the result is the floor of
      a*b/4096. */
  function MulF32(a: int, b: int): (r: int)
    ensures a == 0 || b == 0 ==> r == 0
  {
    (a * b) / One
  }

  /** The product rounded down: within one unit below the exact a*b/4096. */
  lemma MulF32Floor(a: int, b: int)
    ensures One * MulF32(a, b) <= a * b < One * MulF32(a, b) + One
  {
  }

  /** A product of two non-negative values is non-negative; a product with
      zero is zero. */
  lemma MulF32Sign(a: int, b: int)
    ensures a >= 0 && b >= 0 ==> MulF32(a, b) >= 0
    ensures a == 0 || b == 0 ==> MulF32(a, b) == 0
  {
    if a >= 0 && b >= 0 {
      assert a * b >= 0;
    }
  }

  /** The hardware divider's quotient: rounded toward zero, so its
      magnitude is the quotient of the magnitudes and its sign is the
      product of the signs. */
  function TruncDiv(a: int, b: int): (q: int)
    requires b != 0
    ensures q > 0 ==> (a > 0) == (b > 0)
    ensures q < 0 ==> (a > 0) != (b > 0)
    ensures q != 0 ==> a != 0
  {
    QuotientSign(Abs(a), Abs(b));
    var m: int := Abs(a) / Abs(b);
    if (a < 0) == (b < 0) then m else -m
  }

  lemma TruncDivSpec(a: int, b: int)
    requires b != 0
    ensures Abs(TruncDiv(a, b)) == Abs(a) / Abs(b)
  {
    var m := Abs(a) / Abs(b);
    QuotientSign(Abs(a), Abs(b));
    assert TruncDiv(a, b) == m || TruncDiv(a, b) == -m;
  }

  lemma QuotientSign(a: nat, b: nat)
    requires b > 0
    ensures a / b >= 0 && (a / b > 0 ==> a > 0)
  {
    if a == 0 {
      assert a == 0 * b + 0;
    }
  }

  /** The quotient of magnitudes is the largest multiple that fits: the
      truncated quotient is off from the true one by less than one. */
  lemma QuotientBounds(a: nat, b: nat)
    requires b > 0
    ensures (a / b) * b <= a < (a / b + 1) * b
  {
    var m := a / b;
    assert a == m * b + a % b;
    assert (m + 1) * b == m * b + b;
  }

  /** `divf32(num, den)`: `num << 12` divided by `den` on the 64/32-bit
      divider. A zero denominator does not trap on the DS: the divider
      returns -1 for a non-negative numerator and +1 for a negative one. */
  function DivF32(num: int, den: int): (q: int)
    ensures den == 0 ==> q == -1 || q == 1
    ensures den != 0 && q > 0 ==> (num > 0) == (den > 0)
    ensures den != 0 && q < 0 ==> (num > 0) != (den > 0)
    ensures den != 0 && q != 0 ==> num != 0
  {
    if den == 0 then (if num >= 0 then -1 else 1)
    else TruncDiv(num * One, den)
  }

  /** The quotient of `num << 12` by `den`, rounded toward zero; the
      divider's answer for a zero denominator; a non-negative quotient of
      non-negative operands; zero over anything non-zero is zero. */
  lemma DivF32Spec(num: int, den: int)
    ensures den == 0 ==> DivF32(num, den) == (if num >= 0 then -1 else 1)
    ensures den != 0 ==> Abs(DivF32(num, den)) == Abs(num * One) / Abs(den)
    ensures den > 0 && num >= 0 ==> DivF32(num, den) >= 0
    ensures den != 0 && num == 0 ==> DivF32(num, den) == 0
    ensures den != 0 && DivF32(num, den) > 0 ==> (num > 0) == (den > 0)
    ensures den != 0 && DivF32(num, den) < 0 ==> (num > 0) != (den > 0)
  {
    if den != 0 {
      TruncDivSpec(num * One, den);
      if num == 0 {
        QuotientSign(0, Abs(den));
      }
    }
  }

  /** `dotf32(a, b)`: the sum of the three component products. */
  function DotF32(a: Vec3, b: Vec3): (r: int)
    ensures a == Vec3(0, 0, 0) || b == Vec3(0, 0, 0) ==> r == 0
  {
    MulF32(a.x, b.x) + MulF32(a.y, b.y) + MulF32(a.z, b.z)
  }

  /** A vector's dot product with itself is non-negative, and zero only
      when each component's square is below one unit. */
  lemma DotSelfNonNegative(a: Vec3)
    ensures DotF32(a, a) >= 0
    ensures DotF32(a, a) == 0 <==> a.x * a.x < One && a.y * a.y < One && a.z * a.z < One
  {
    MulF32Sign(a.x, a.x);
    MulF32Sign(a.y, a.y);
    MulF32Sign(a.z, a.z);
    assert a.x * a.x >= 0 && a.y * a.y >= 0 && a.z * a.z >= 0;
  }

  /** The integer square root: the largest r with r*r <= n. */
  function Isqrt(n: nat): (r: nat)
    ensures n > 0 ==> r > 0
    decreases n
  {
    if n < 4 then (if n == 0 then 0 else 1)
    else
      var h := 2 * Isqrt(n / 4);
      if (h + 1) * (h + 1) <= n then h + 1 else h
  }

  /** Isqrt(n) is the root rounded down: its square fits in n and the next
      square does not. */
  lemma {:induction false} IsqrtBounds(n: nat)
    ensures Isqrt(n) * Isqrt(n) <= n < (Isqrt(n) + 1) * (Isqrt(n) + 1)
    decreases n
  {
    if n >= 4 {
      IsqrtBounds(n / 4);
      IsqrtDouble(n, Isqrt(n / 4));
    }
  }

  /** If s is the root of n / 4, then n lies between (2s)^2 and (2s+2)^2. */
  lemma IsqrtDouble(n: nat, s: nat)
    requires s * s <= n / 4 < (s + 1) * (s + 1)
    ensures (2 * s) * (2 * s) <= n < (2 * s + 2) * (2 * s + 2)
  {
    var k := n / 4;
    assert n == 4 * k + n % 4;
    assert (2 * s) * (2 * s) == 4 * (s * s);
    assert (2 * s + 2) * (2 * s + 2) == 4 * ((s + 1) * (s + 1));
    assert k + 1 <= (s + 1) * (s + 1);
  }

  /** `sqrtf32(a)`: the hardware's 64-bit square root of `a << 12`, which
      is the fixed-point square root rounded down. The model gives 0 for
      a value that is not positive. */
  function SqrtF32(a: int): (r: int)
    ensures r >= 0
    ensures a <= 0 ==> r == 0
  {
    if a > 0 then Isqrt(a * One) else 0
  }

  /** For a positive a, the root of `a << 12` rounded down. */
  lemma SqrtF32Bounds(a: int)
    requires a > 0
    ensures SqrtF32(a) * SqrtF32(a) <= a * One < (SqrtF32(a) + 1) * (SqrtF32(a) + 1)
  {
    IsqrtBounds(a * One);
  }

  /** The square root is monotone: a brighter channel never gets a smaller
      root. */
  lemma {:induction false} SqrtF32Monotone(a: int, b: int)
    requires a <= b
    ensures SqrtF32(a) <= SqrtF32(b)
  {
    if a > 0 {
      var r, s := SqrtF32(a), SqrtF32(b);
      SqrtF32Bounds(a);
      SqrtF32Bounds(b);
      assert r * r < (s + 1) * (s + 1);
      SquareOrder(r, s + 1);
    }
  }

  /** Squares of naturals are ordered like the naturals. */
  lemma SquareOrder(r: nat, t: nat)
    requires r * r < t * t
    ensures r < t
  {
    if t <= r {
      MulMonotone(t, r);
    }
  }

  lemma MulMonotone(a: nat, b: nat)
    requires a <= b
    ensures a * a <= b * b
  {
    assert a * a <= a * b <= b * b;
  }
}
