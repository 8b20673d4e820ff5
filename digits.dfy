/**
  Digit extraction for the least-significant-digit radix sort.

  The source computes digits with floating-point division, `%` and
  `math.floor`. Here they are integer operations: Dafny's `/` and `%` round
  towards minus infinity when the divisor is positive, exactly like Python's
  floor division and floor modulo, so the integer form agrees with the
  exact-arithmetic reading of the source for every integer (negative
  differences included). The lemmas at the end of this module state that
  agreement over the reals.
*/
module Digits {

  /** The digit of `v - minElement` at weight `exp` in base `radix`: the bucket
      index that `calculate_bucket_key` computes for the element `v`. */
  function BucketKey(v: int, radix: int, exp: int, minElement: int): (d: int)
    requires radix >= 1 && exp >= 1
    ensures 0 <= d < radix
  {
    ((v - minElement) / exp) % radix
  }

  /** The normalised value `v - minElement` reduced modulo `m`: the part of the
      value made of its digits of weight below `m` when `m` is a power of the radix. */
  function Residue(v: int, minElement: int, m: int): (r: int)
    requires m >= 1
    ensures 0 <= r < m
  {
    (v - minElement) % m
  }

  /** Multiplication by a positive factor is monotone. */
  lemma MulMonotone(a: int, b: int, c: int)
    requires a <= b && c >= 1
    ensures a * c <= b * c
  {
    assert b * c - a * c == (b - a) * c;
  }

  /** Euclidean division is unique: a quotient and a remainder in range determine both. */
  lemma DivModUnique(q: int, m: int, k: int, r: int)
    requires m >= 1 && 0 <= r < m && q == k * m + r
    ensures q / m == k && q % m == r
  {
    var k', r' := q / m, q % m;
    assert q == k' * m + r';
    assert (k - k') * m == r' - r;
    if k > k' {
      MulMonotone(1, k - k', m);
    } else if k < k' {
      MulMonotone(1, k' - k, m);
    }
  }

  /** Substituting one quotient-remainder decomposition into another. */
  lemma Recompose(q: int, a: int, b: int, c: int, d: int, exp: int, radix: int)
    requires q == a * exp + b && a == c * radix + d
    ensures q == c * (exp * radix) + (d * exp + b)
  {
    assert a * exp == (c * radix + d) * exp;
    assert (c * radix + d) * exp == c * (exp * radix) + d * exp;
  }

  /** A digit below `radix` at weight `exp`, plus a remainder below `exp`,
      stays below `exp * radix`. */
  lemma DigitBound(d: int, b: int, exp: int, radix: int)
    requires 0 <= d < radix && 0 <= b < exp
    ensures 0 <= d * exp + b < exp * radix
  {
    MulMonotone(0, d, exp);
    MulMonotone(d, radix - 1, exp);
    assert (radix - 1) * exp == exp * radix - exp;
  }

  /** The two-step digit decomposition: dividing by `exp` and then by `radix`
      is dividing by `exp * radix`, and the residue modulo `exp * radix` is the
      digit at weight `exp` times `exp` plus the residue modulo `exp`. */
  lemma DivideTwice(q: int, radix: int, exp: int)
    requires radix >= 1 && exp >= 1
    ensures exp * radix >= 1
    ensures q / (exp * radix) == (q / exp) / radix
    ensures q % (exp * radix) == ((q / exp) % radix) * exp + q % exp
  {
    MulMonotone(1, radix, exp);
    var a, b := q / exp, q % exp;
    var c, d := a / radix, a % radix;
    Recompose(q, a, b, c, d, exp, radix);
    DigitBound(d, b, exp, radix);
    DivModUnique(q, exp * radix, c, d * exp + b);
  }

  /** Splitting a residue modulo `exp * radix` into the digit at weight `exp`
      and the residue modulo `exp`. */
  lemma ResidueSplit(v: int, radix: int, exp: int, minElement: int)
    requires radix >= 1 && exp >= 1
    ensures exp * radix >= 1
    ensures Residue(v, minElement, exp * radix)
         == BucketKey(v, radix, exp, minElement) * exp + Residue(v, minElement, exp)
  {
    DivideTwice(v - minElement, radix, exp);
  }

  /** A real number between `n` and `n + 1` has floor `n`. */
  lemma FloorBetween(x: real, n: int)
    requires n as real <= x < n as real + 1.0
    ensures x.Floor == n
  {
  }

  /** Casting to the reals commutes with multiplication and addition. */
  lemma CastMulAdd(k: int, m: int, d: int)
    ensures (k * m + d) as real == k as real * m as real + d as real
  {
  }

  /** Multiplication by a positive real is strictly monotone. */
  lemma RealMulStrict(x: real, y: real, m: real)
    requires m > 0.0 && x < y
    ensures x * m < y * m
  {
    assert y * m - x * m == (y - x) * m;
  }

  /** Multiplication by a positive real preserves and reflects `<=`. */
  lemma RealMulMonotone(x: real, y: real, m: real)
    requires m > 0.0
    ensures x <= y <==> x * m <= y * m
  {
    if x < y {
      RealMulStrict(x, y, m);
    } else if y < x {
      RealMulStrict(y, x, m);
    }
  }

  /** The integer quotient `a / m` is the largest `k` with `k * m <= a`. */
  lemma IntQuotientBounds(a: int, m: int)
    requires m >= 1
    ensures (a / m) * m <= a < (a / m + 1) * m
  {
    var k, d := a / m, a % m;
    assert a == k * m + d;
    assert (k + 1) * m == k * m + m;
  }

  /** The floor of `x / m` over the reals is the integer quotient of the floor of `x` by `m`. */
  lemma FloorOfRealQuotient(x: real, m: int)
    requires m >= 1
    ensures (x / m as real).Floor == x.Floor / m
  {
    var a := x.Floor;
    var k := a / m;
    var mr := m as real;
    var y := x / mr;
    assert x == y * mr;
    IntQuotientBounds(a, m);
    CastMulAdd(k, m, 0);
    CastMulAdd(k + 1, m, 0);
    assert k as real * mr <= y * mr;
    assert y * mr < (k + 1) as real * mr;
    RealMulMonotone(k as real, y, mr);
    RealMulMonotone((k + 1) as real, y, mr);
    FloorBetween(y, k);
  }

  /** Python's `%` on floats with a positive divisor, in exact arithmetic:
      `x - y * floor(x / y)`. */
  function FloatMod(x: real, y: real): real
    requires y > 0.0
  {
    x - y * ((x / y).Floor as real)
  }

  /** If `x` lies in `[a, a + 1)` and `a = c * m + d`, then `x - m * c` lies in `[d, d + 1)`. */
  lemma RealRemainderBounds(x: real, a: real, c: real, m: real, d: real)
    requires a <= x < a + 1.0 && a == c * m + d
    ensures d <= x - m * c < d + 1.0
  {
    assert c * m == m * c;
  }

  /** The floor of a float remainder by an integer is the integer remainder of the floor. */
  lemma FloorOfFloatMod(x: real, radix: int)
    requires radix >= 1
    ensures FloatMod(x, radix as real).Floor == x.Floor % radix
  {
    var a := x.Floor;
    FloorOfRealQuotient(x, radix);
    var c, d := a / radix, a % radix;
    CastMulAdd(c, radix, d);
    RealRemainderBounds(x, a as real, c as real, radix as real, d as real);
    FloorBetween(FloatMod(x, radix as real), d);
  }

  /** Line 29 read over the reals, `floor(((v - minElement) / exp) % radix)`,
      is the integer digit `BucketKey`. */
  lemma BucketKeyMatchesFloatDigit(v: int, radix: int, exp: int, minElement: int)
    requires radix >= 1 && exp >= 1
    ensures FloatMod((v - minElement) as real / exp as real, radix as real).Floor
         == BucketKey(v, radix, exp, minElement)
  {
    var q := (v - minElement) as real;
    assert q.Floor == v - minElement;
    FloorOfRealQuotient(q, exp);
    FloorOfFloatMod(q / exp as real, radix);
  }

  /** The loop guard of line 114 read over the reals, `range / exp >= 1`, is the
      integer comparison `range >= exp`. */
  lemma LoopGuardMatchesFloatGuard(range: int, exp: int)
    requires exp >= 1
    ensures (range as real / exp as real >= 1.0) <==> range >= exp
  {
    var r, e := range as real / exp as real, exp as real;
    assert range as real == r * e;
    RealMulMonotone(1.0, r, e);
  }
}
