/** Three-component vectors over exact reals: the `numpy` arrays the tracer uses
    for points, directions and normals. */
module Vectors {
  import opened Numeric

  datatype Vec3 = Vec3(x: real, y: real, z: real)

  const Origin := Vec3(0.0, 0.0, 0.0)

  function Add(u: Vec3, v: Vec3): Vec3 { Vec3(u.x + v.x, u.y + v.y, u.z + v.z) }

  function Sub(u: Vec3, v: Vec3): Vec3 { Vec3(u.x - v.x, u.y - v.y, u.z - v.z) }

  function Neg(v: Vec3): Vec3 { Vec3(-v.x, -v.y, -v.z) }

  /** `v * k` for a scalar `k`. */
  function Scale(v: Vec3, k: real): Vec3 { Vec3(v.x * k, v.y * k, v.z * k) }

  /** `np.dot`. */
  function Dot(u: Vec3, v: Vec3): real { u.x * v.x + u.y * v.y + u.z * v.z }

  /** `np.cross`. */
  function Cross(u: Vec3, v: Vec3): Vec3 {
    Vec3(u.y * v.z - u.z * v.y, u.z * v.x - u.x * v.z, u.x * v.y - u.y * v.x)
  }

  /** `np.linalg.norm`, given the square root to use. */
  function Norm(v: Vec3, sqrt: real -> real): real { sqrt(Dot(v, v)) }

  /** `v / k`, component by component. */
  function Divide(v: Vec3, k: real): Vec3
    requires k != 0.0
  {
    Vec3(v.x / k, v.y / k, v.z / k)
  }

  /** `normalise(v) = v / np.linalg.norm(v)`. A vector of norm zero, where
      the source would produce NaN components, is left as it is. */
  function Normalise(v: Vec3, sqrt: real -> real): (u: Vec3)
  {
    var n := Norm(v, sqrt);
    if n == 0.0 then v else Divide(v, n)
  }

  /** Scaling a normalised vector back by the norm gives the vector; a
      vector of norm zero comes back unchanged. */
  lemma NormaliseScalesBack(v: Vec3, sqrt: real -> real)
    ensures Norm(v, sqrt) != 0.0 ==> Scale(Normalise(v, sqrt), Norm(v, sqrt)) == v
    ensures Norm(v, sqrt) == 0.0 ==> Normalise(v, sqrt) == v
  {
  }

  /** Dividing by a non-zero factor undoes scaling by it. */
  lemma DivideUndoesScale(v: Vec3, k: real)
    requires k != 0.0
    ensures Divide(Scale(v, k), k) == v
  {
    assert (v.x * k) / k == v.x;
    assert (v.y * k) / k == v.y;
    assert (v.z * k) / k == v.z;
  }

  lemma SumOfSquaresNonNegative(a: real, b: real, c: real)
    ensures 0.0 <= a * a + b * b + c * c
  {
  }

  lemma DotSelfNonNegative(v: Vec3)
    ensures 0.0 <= Dot(v, v)
  {
    SumOfSquaresNonNegative(v.x, v.y, v.z);
  }

  /** Dividing every component by `k` divides the squared length by `k * k`. */
  lemma DividedSquaredLength(v: Vec3, k: real)
    requires k != 0.0
    ensures Dot(Divide(v, k), Divide(v, k)) * (k * k) == Dot(v, v)
  {
    var u := Divide(v, k);
    assert u.x * k == v.x && u.y * k == v.y && u.z * k == v.z;
    assert (u.x * u.x) * (k * k) == (u.x * k) * (u.x * k);
    assert (u.y * u.y) * (k * k) == (u.y * k) * (u.y * k);
    assert (u.z * u.z) * (k * k) == (u.z * k) * (u.z * k);
  }

  /** Scaling every component by `k` scales the squared length by `k * k`. */
  lemma ScaledSquaredLength(v: Vec3, k: real)
    ensures Dot(Scale(v, k), Scale(v, k)) == Dot(v, v) * (k * k)
  {
    assert (v.x * k) * (v.x * k) == (v.x * v.x) * (k * k);
    assert (v.y * k) * (v.y * k) == (v.y * v.y) * (k * k);
    assert (v.z * k) * (v.z * k) == (v.z * v.z) * (k * k);
  }

  /** Whenever `normalise` actually divides (the norm is non-zero), it returns a
      unit vector. */
  lemma NormaliseIsUnit(v: Vec3, sqrt: real -> real)
    requires IsSqrt(sqrt)
    requires Norm(v, sqrt) != 0.0
    ensures Dot(Normalise(v, sqrt), Normalise(v, sqrt)) == 1.0
  {
    DotSelfNonNegative(v);
    var n := Norm(v, sqrt);
    assert n * n == Dot(v, v);
    DividedSquaredLength(v, n);
    CancelSquare(Dot(Normalise(v, sqrt), Normalise(v, sqrt)), n, Dot(v, v));
  }

  /** The point `p + k * q` expanded in the dot product with `n`. */
  lemma DotAlong(n: Vec3, p: Vec3, q: Vec3, k: real)
    ensures Dot(n, Add(p, Scale(q, k))) == Dot(n, p) + k * Dot(n, q)
  {
    assert n.x * (p.x + q.x * k) == n.x * p.x + k * (n.x * q.x);
    assert n.y * (p.y + q.y * k) == n.y * p.y + k * (n.y * q.y);
    assert n.z * (p.z + q.z * k) == n.z * p.z + k * (n.z * q.z);
  }

  /** The same expansion with the moving point on the left. */
  lemma DotAlongLeft(p: Vec3, q: Vec3, k: real, n: Vec3)
    ensures Dot(Add(p, Scale(q, k)), n) == Dot(p, n) + k * Dot(q, n)
  {
    assert (p.x + q.x * k) * n.x == p.x * n.x + k * (q.x * n.x);
    assert (p.y + q.y * k) * n.y == p.y * n.y + k * (q.y * n.y);
    assert (p.z + q.z * k) * n.z == p.z * n.z + k * (q.z * n.z);
  }

  /** Along a unit vector `u`, the point `e + k u` has `u`-coordinate
      `e . u + k`. */
  lemma AlongUnit(e: Vec3, u: Vec3, k: real)
    requires Dot(u, u) == 1.0
    ensures Dot(Add(e, Scale(u, k)), u) == Dot(e, u) + k
  {
    DotAlongLeft(e, u, k, u);
  }

  /** Moving along `u` does not change the coordinate along a `v` that is
      perpendicular to `u`. */
  lemma AlongPerpendicular(e: Vec3, u: Vec3, v: Vec3, k: real)
    requires Dot(u, v) == 0.0
    ensures Dot(Add(e, Scale(u, k)), v) == Dot(e, v)
  {
    DotAlongLeft(e, u, k, v);
  }

  lemma DotSymmetric(u: Vec3, v: Vec3)
    ensures Dot(u, v) == Dot(v, u)
  {
  }

  /** Squared length of `w + t * d`, expanded as a quadratic in `t`. */
  lemma SquaredLengthAlong(w: Vec3, d: Vec3, t: real)
    ensures Dot(Add(w, Scale(d, t)), Add(w, Scale(d, t)))
         == Dot(d, d) * t * t + 2.0 * Dot(d, w) * t + Dot(w, w)
  {
    var p := Add(w, Scale(d, t));
    assert p.x * p.x == d.x * d.x * t * t + 2.0 * d.x * w.x * t + w.x * w.x;
    assert p.y * p.y == d.y * d.y * t * t + 2.0 * d.y * w.y * t + w.y * w.y;
    assert p.z * p.z == d.z * d.z * t * t + 2.0 * d.z * w.z * t + w.z * w.z;
  }

  /** The cross product is perpendicular to both of its factors. */
  lemma CrossPerpendicular(u: Vec3, v: Vec3)
    ensures Dot(Cross(u, v), u) == 0.0 && Dot(Cross(u, v), v) == 0.0
  {
  }
}
