/** Scalar helpers that stand for the Python built-ins the tracer relies on:
    `int(x)` (truncation toward zero), `x ** n` for an integer exponent,
    `min`, `max`, `abs`, and the square root that `numpy` supplies. */
module Numeric {

  datatype Option<T> = None | Some(value: T)

  /** What the model assumes of the square-root function it is handed in place of
      `np.sqrt`: on non-negative arguments it returns the non-negative root. */
  ghost predicate IsSqrt(sqrt: real -> real) {
    forall x :: 0.0 <= x ==> 0.0 <= sqrt(x) && sqrt(x) * sqrt(x) == x
  }

  /** Python's `int(x)` on a float: truncation toward zero. */
  function Trunc(x: real): (n: int)
    ensures 0.0 <= x ==> 0 <= n && n as real <= x < n as real + 1.0
    ensures x < 0.0 ==> n <= 0 && n as real - 1.0 < x <= n as real
  {
    if 0.0 <= x then x.Floor else -((-x).Floor)
  }

  /** Python's `x ** n` for a natural exponent (so `x ** 0 == 1`). */
  function Pow(x: real, n: nat): real {
    if n == 0 then 1.0 else x * Pow(x, n - 1)
  }

  function Abs(x: real): real { if x < 0.0 then -x else x }

  function MaxReal(a: real, b: real): real { if a < b then b else a }

  function MinReal(a: real, b: real): real { if b < a then b else a }

  function MinInt(a: int, b: int): int { if b < a then b else a }

  lemma {:induction false} PowNonNegative(x: real, n: nat)
    requires 0.0 <= x
    ensures 0.0 <= Pow(x, n)
  {
    if n > 0 {
      PowNonNegative(x, n - 1);
    }
  }

  /** For a base in [0, 1] one more factor never makes the power larger; this is
      the geometric decay of the reflection weight with bounce depth. */
  lemma PowNonIncreasing(x: real, n: nat)
    requires 0.0 <= x <= 1.0
    ensures 0.0 <= Pow(x, n + 1) <= Pow(x, n) <= 1.0
  {
    PowAtMostOne(x, n);
    PowNonNegative(x, n);
    assert Pow(x, n + 1) == x * Pow(x, n);
  }

  lemma {:induction false} PowAtMostOne(x: real, n: nat)
    requires 0.0 <= x <= 1.0
    ensures Pow(x, n) <= 1.0
  {
    if n > 0 {
      PowAtMostOne(x, n - 1);
      PowNonNegative(x, n - 1);
      assert (1.0 - x) * Pow(x, n - 1) >= 0.0;
      assert x * Pow(x, n - 1) <= Pow(x, n - 1);
    }
  }

  /** An even power of a non-zero number is positive, whatever its sign. */
  lemma {:induction false} PowEvenPositive(x: real, m: nat)
    requires x != 0.0
    ensures Pow(x, 2 * m) > 0.0
  {
    if m > 0 {
      PowEvenPositive(x, m - 1);
      assert Pow(x, 2 * m) == x * (x * Pow(x, 2 * m - 2));
      assert x * x > 0.0;
    }
  }

  /** A product is zero only when a factor is. */
  lemma ZeroProduct(e: real, m: real)
    requires m != 0.0
    requires e * m == 0.0
    ensures e == 0.0
  {
  }

  lemma ZeroProductSquare(e: real, n: real)
    requires n != 0.0
    requires e * (n * n) == 0.0
    ensures e == 0.0
  {
    assert (e * n) * n == 0.0;
    ZeroProduct(e * n, n);
    ZeroProduct(e, n);
  }

  /** From `d * (n * n) == s` and `n * n == s` with `n` non-zero, `d` is one. */
  lemma CancelSquare(d: real, n: real, s: real)
    requires n != 0.0
    requires n * n == s
    requires d * (n * n) == s
    ensures d == 1.0
  {
    ZeroProductSquare(d - 1.0, n);
  }

  lemma NonNegativeProduct(x: real, y: real)
    requires 0.0 <= x && 0.0 <= y
    ensures 0.0 <= x * y
  {
  }

  /** A non-negative number exceeds a positive `r` exactly when its square
      exceeds `r * r`. */
  lemma SquareBeyond(n: real, r: real, sq: real)
    requires 0.0 <= n && 0.0 < r && n * n == sq
    ensures n > r <==> sq > r * r
  {
    if n > r {
      assert n * n > r * n > r * r;
    } else {
      assert n * n <= r * n <= r * r;
    }
  }

  lemma Distribute(a: real, k: real, s: real)
    ensures (a + k) * s == a * s + k * s
  {
  }

  lemma PositiveProduct(x: real, y: real)
    requires 0.0 < x && 0.0 < y
    ensures 0.0 < x * y
  {
  }

  lemma NegativeTimesPositive(x: real, y: real)
    requires x < 0.0 && 0.0 < y
    ensures x * y < 0.0
  {
  }

  /** `(-b - s) / a2 <= (-b + s) / a2` for a non-negative `s` and a positive
      denominator: the two roots of a quadratic come out in order. */
  lemma OrderedQuotients(b: real, s: real, a2: real)
    requires 0.0 <= s && 0.0 < a2
    ensures (-b - s) / a2 <= (-b + s) / a2
  {
    var p, q := (-b - s) / a2, (-b + s) / a2;
    assert (q - p) * a2 == 2.0 * s;
    if q - p < 0.0 {
      NegativeTimesPositive(q - p, a2);
    }
  }

  lemma RootIdentity(b: real, c4a: real, s: real, u: real)
    requires u == -b + s || u == -b - s
    requires s * s == b * b - c4a
    ensures u * u + 2.0 * b * u + c4a == 0.0
  {
    if u == -b + s {
      assert u * u + 2.0 * b * u == (-b + s) * (-b + s) + 2.0 * b * (-b + s);
    } else {
      assert u * u + 2.0 * b * u == (-b - s) * (-b - s) + 2.0 * b * (-b - s);
    }
  }

  /** Either value `(-b +- s) / 2a`, with `s` a square root of the discriminant,
      solves `a t^2 + b t + c = 0`. */
  lemma QuadraticRoot(a: real, b: real, c: real, s: real, t: real)
    requires a != 0.0
    requires s * s == b * b - 4.0 * a * c
    requires t == (-b + s) / (2.0 * a) || t == (-b - s) / (2.0 * a)
    ensures a * t * t + b * t + c == 0.0
  {
    var u := 2.0 * a * t;
    assert u == -b + s || u == -b - s;
    RootIdentity(b, 4.0 * a * c, s, u);
    assert 4.0 * a * (a * t * t + b * t + c) == u * u + 2.0 * b * u + 4.0 * a * c;
    ZeroProduct(a * t * t + b * t + c, 4.0 * a);
  }

  /** The non-negative square root of `k * k` is `k` when `k` is positive. */
  lemma SqrtOfSquare(sqrt: real -> real, k: real)
    requires IsSqrt(sqrt)
    requires 0.0 < k
    ensures sqrt(k * k) == k
  {
    var s := sqrt(k * k);
    assert 0.0 <= k * k;
    assert 0.0 <= s && s * s == k * k;
    assert (s - k) * (s + k) == 0.0;
    ZeroProduct(s - k, s + k);
  }

  /** Adding a whole number to a non-negative argument shifts the truncation by
      that number. */
  lemma TruncShift(x: real, n: nat)
    requires 0.0 <= x
    ensures Trunc(x + n as real) == Trunc(x) + n
  {
  }

  /** Adding a whole number to an argument that stays at or below zero also
      shifts the truncation by that number. */
  lemma TruncShiftNegative(x: real, n: nat)
    requires x + n as real <= 0.0
    ensures Trunc(x + n as real) == Trunc(x) + n
  {
    var y := -x;
    assert (y - n as real).Floor == y.Floor - n;
  }

  /** Crossing zero, truncation toward zero loses one: for an `x` strictly
      between `-n` and 0 that is not a whole number, `x + n` truncates to one
      less than `Trunc(x) + n`. */
  lemma TruncAcrossZero(x: real, n: nat)
    requires -(n as real) < x < 0.0 && x.Floor as real != x
    ensures Trunc(x + n as real) == Trunc(x) + n - 1
  {
    var y := -x;
    var f := y.Floor;
    assert ((-f) as real).Floor == -f;
    assert f as real != y;
    assert f as real < y < f as real + 1.0;
    assert (n - f - 1) as real < n as real - y < (n - f) as real;
    assert (n as real - y).Floor == n - f - 1;
  }

  /** Two integers `n - 1` apart never share a remainder modulo `n > 1`. */
  lemma ModShiftBreaks(a: int, n: int)
    requires 1 < n
    ensures (a + n - 1) % n != a % n
  {
    if (a + n - 1) % n == a % n {
      var q := (a + n - 1) / n - a / n;
      assert q * n == n - 1;
      MultipleInRange(q, n);
    }
  }

  /** Euclidean remainder is periodic in its modulus. */
  lemma ModShift(a: int, n: int)
    requires 0 < n
    ensures (a + n) % n == a % n
  {
    var q, r := a / n, a % n;
    var q2, r2 := (a + n) / n, (a + n) % n;
    assert (q2 - q - 1) * n == r - r2;
    MultipleInRange(q2 - q - 1, n);
  }

  /** The only multiple of `n` strictly between `-n` and `n` is zero. */
  lemma MultipleInRange(k: int, n: int)
    requires 0 < n && -n < k * n < n
    ensures k == 0
  {
    assert 1 <= k ==> 0 <= (k - 1) * n;
    assert k <= -1 ==> 0 <= (-k - 1) * n;
  }
}
