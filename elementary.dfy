/** The elementary functions the engine takes from JavaScript's `Math` object.

    `Math.exp`, `Math.log`, `Math.sqrt` and `Math.pow` cannot be computed over
    the reals inside the model, so every operation that uses them receives them
    as a value of `Elementary`. Two facts are carried by the types because the
    formulas divide by them (`1 + exp(x)` and `pow(T/300, 1.5)` never vanish);
    every other law is a predicate that a lemma asks for only when its proof
    needs it. `Math.max` and `Math.min` are modelled exactly. */
module Elementary {

  /** `Math.exp`, `Math.log`, `Math.sqrt` and `Math.pow` as function values. */
  datatype MathFunctions = MathFunctions(
    exp: real -> real,
    log: real -> real,
    sqrt: real -> real,
    pow: (real, real) -> real)

  /** `Math.exp` is positive everywhere and `Math.pow` is positive on positive
      bases; the formulas divide by both. */
  ghost predicate Positive(m: MathFunctions) {
    && (forall x :: m.exp(x) > 0.0)
    && (forall b, e :: b > 0.0 ==> m.pow(b, e) > 0.0)
  }

  type Elementary = m: MathFunctions | Positive(m)
    witness MathFunctions((x: real) => 1.0, (x: real) => 0.0, (y: real) => 0.0, (b: real, e: real) => 1.0)

  // ---------------------------------------------------------------------------
  // Laws of the real functions, each asked for only where a proof uses it.
  // ---------------------------------------------------------------------------

  ghost predicate ExpIncreasing(m: Elementary) {
    forall x, y :: x < y ==> m.exp(x) < m.exp(y)
  }

  ghost predicate ExpOfZero(m: Elementary) {
    m.exp(0.0) == 1.0
  }

  ghost predicate ExpReciprocal(m: Elementary) {
    forall x, y :: x + y == 0.0 ==> m.exp(x) * m.exp(y) == 1.0
  }

  ghost predicate SqrtLaw(m: Elementary) {
    forall y :: y >= 0.0 ==> m.sqrt(y) >= 0.0 && m.sqrt(y) * m.sqrt(y) == y
  }

  ghost predicate LogIncreasing(m: Elementary) {
    forall x, y :: 0.0 < x < y ==> m.log(x) < m.log(y)
  }

  ghost predicate LogOfOne(m: Elementary) {
    m.log(1.0) == 0.0
  }

  ghost predicate PowOfOne(m: Elementary) {
    m.pow(1.0, 1.5) == 1.0
  }

  ghost predicate PowSquare(m: Elementary) {
    forall x :: m.pow(x, 2.0) == x * x
  }

  // ---------------------------------------------------------------------------
  // Math.max and Math.min.
  // ---------------------------------------------------------------------------

  function Max(a: real, b: real): (r: real)
    ensures r >= a && r >= b
    ensures r == a || r == b
  {
    if a >= b then a else b
  }

  function Min(a: real, b: real): (r: real)
    ensures r <= a && r <= b
    ensures r == a || r == b
  {
    if a <= b then a else b
  }

  // ---------------------------------------------------------------------------
  // Consequences of the laws used across the model.
  // ---------------------------------------------------------------------------

  /** A square root of a positive number is positive. */
  lemma SqrtPositive(m: Elementary, y: real)
    requires SqrtLaw(m)
    requires y > 0.0
    ensures m.sqrt(y) > 0.0
  {
    assert m.sqrt(y) >= 0.0 && m.sqrt(y) * m.sqrt(y) == y;
  }

  /** The square root is strictly increasing on the non-negative reals. */
  lemma SqrtIncreasing(m: Elementary, a: real, b: real)
    requires SqrtLaw(m)
    requires 0.0 <= a < b
    ensures m.sqrt(a) < m.sqrt(b)
  {
    var sa, sb := m.sqrt(a), m.sqrt(b);
    assert sa >= 0.0 && sa * sa == a;
    assert sb >= 0.0 && sb * sb == b;
    SqrtPositive(m, b);
    assert (sb - sa) * (sb + sa) == b - a;
    if sb - sa <= 0.0 {
      NonPositiveTimesPositive(sb - sa, sb + sa);
    }
  }

  /** The product of two positive numbers is positive. */
  lemma MulPositive(x: real, y: real)
    requires x > 0.0 && y > 0.0
    ensures x * y > 0.0
  {
  }

  /** Multiplying by a positive number preserves strict order. */
  lemma MulLess(k: real, x: real, y: real)
    requires k > 0.0 && x < y
    ensures k * x < k * y
  {
    MulPositive(k, y - x);
  }

  /** `a/c < b/d` for positive denominators when `a·d < b·c`. */
  lemma QuotientLess(a: real, c: real, b: real, d: real)
    requires c > 0.0 && d > 0.0
    requires a * d < b * c
    ensures a / c < b / d
  {
    var x, y := a / c, b / d;
    assert a == x * c && b == y * d;
    assert x * c * d < y * d * c;
    assert (y - x) * (c * d) > 0.0;
  }

  /** Division by a positive number preserves order. */
  lemma QuotientMonotone(a: real, b: real, d: real)
    requires d > 0.0 && a <= b
    ensures a / d <= b / d
  {
    assert b / d - a / d == (b - a) / d;
  }

  /** Squaring preserves strict order on the positive reals. */
  lemma SquareLess(x: real, y: real)
    requires 0.0 < x < y
    ensures x * x < y * y
  {
    MulLess(x, x, y);
    MulLess(y, x, y);
  }

  /** A square is never negative. */
  lemma SquareNonNegative(x: real)
    ensures x * x >= 0.0
  {
    if x < 0.0 {
      MulPositive(-x, -x);
    }
  }

  /** Division by a positive number preserves strict order. */
  lemma QuotientStrictMonotone(a: real, b: real, d: real)
    requires d > 0.0 && a < b
    ensures a / d < b / d
  {
    MulLess(d, a, b);
    QuotientLess(a, d, b, d);
  }

  /** Negation commutes with division. */
  lemma NegatedQuotient(a: real, d: real)
    requires d != 0.0
    ensures (-a) / d == -(a / d)
  {
  }

  /** `1/(1+a) + 1/(1+b) = 1` when `a·b = 1`: the logistic function at `x`
      and at `-x` add up to one. */
  lemma LogisticComplement(a: real, b: real)
    requires a > 0.0 && b > 0.0 && a * b == 1.0
    ensures 1.0 / (1.0 + a) + 1.0 / (1.0 + b) == 1.0
  {
    assert (1.0 + b) * a == a + 1.0;
    assert 1.0 / (1.0 + b) == a / (1.0 + a);
  }

  lemma NonPositiveTimesPositive(p: real, q: real)
    requires p <= 0.0 && q > 0.0
    ensures p * q <= 0.0
  {
  }

  /** `exp(x) - 1` has the sign of `x`. */
  lemma ExpMinusOneSign(m: Elementary, x: real)
    requires ExpIncreasing(m) && ExpOfZero(m)
    ensures x < 0.0 ==> m.exp(x) < 1.0
    ensures x > 0.0 ==> m.exp(x) > 1.0
    ensures x == 0.0 ==> m.exp(x) == 1.0
  {
    if x < 0.0 {
      assert m.exp(x) < m.exp(0.0);
    } else if x > 0.0 {
      assert m.exp(0.0) < m.exp(x);
    }
  }
}
