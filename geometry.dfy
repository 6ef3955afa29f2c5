// Homogeneous 4x4 transforms over exact reals. Points are row vectors multiplied
// from the left, so the translation sits in the fourth row and the homogeneous
// weight w is read from the fourth column. The angle's cosine and sine are
// parameters c and s.

module Geometry {

  datatype Option<T> = None | Some(value: T)

  /** An immutable point in 3D space. */
  datatype Point3D = Point3D(x: real, y: real, z: real)

  /** A point of the 2D drawing plane. */
  datatype Point2D = Point2D(x: real, y: real)

  /** A row-major 4x4 matrix; mRC is the entry in row R, column C. */
  datatype Matrix4D = Matrix4D(
    m11: real, m12: real, m13: real, m14: real,
    m21: real, m22: real, m23: real, m24: real,
    m31: real, m32: real, m33: real, m34: real,
    m41: real, m42: real, m43: real, m44: real)

  const Identity := Matrix4D(
    1.0, 0.0, 0.0, 0.0,
    0.0, 1.0, 0.0, 0.0,
    0.0, 0.0, 1.0, 0.0,
    0.0, 0.0, 0.0, 1.0)

  /** The last column is (0, 0, 0, 1): no perspective term. */
  predicate IsAffine(m: Matrix4D)
  {
    m.m14 == 0.0 && m.m24 == 0.0 && m.m34 == 0.0 && m.m44 == 1.0
  }

  /** The matrix product a * b. */
  function Mul(a: Matrix4D, b: Matrix4D): (r: Matrix4D)
    ensures IsAffine(a) && IsAffine(b) ==> IsAffine(r)
  {
    Matrix4D(
      a.m11 * b.m11 + a.m12 * b.m21 + a.m13 * b.m31 + a.m14 * b.m41,
      a.m11 * b.m12 + a.m12 * b.m22 + a.m13 * b.m32 + a.m14 * b.m42,
      a.m11 * b.m13 + a.m12 * b.m23 + a.m13 * b.m33 + a.m14 * b.m43,
      a.m11 * b.m14 + a.m12 * b.m24 + a.m13 * b.m34 + a.m14 * b.m44,
      a.m21 * b.m11 + a.m22 * b.m21 + a.m23 * b.m31 + a.m24 * b.m41,
      a.m21 * b.m12 + a.m22 * b.m22 + a.m23 * b.m32 + a.m24 * b.m42,
      a.m21 * b.m13 + a.m22 * b.m23 + a.m23 * b.m33 + a.m24 * b.m43,
      a.m21 * b.m14 + a.m22 * b.m24 + a.m23 * b.m34 + a.m24 * b.m44,
      a.m31 * b.m11 + a.m32 * b.m21 + a.m33 * b.m31 + a.m34 * b.m41,
      a.m31 * b.m12 + a.m32 * b.m22 + a.m33 * b.m32 + a.m34 * b.m42,
      a.m31 * b.m13 + a.m32 * b.m23 + a.m33 * b.m33 + a.m34 * b.m43,
      a.m31 * b.m14 + a.m32 * b.m24 + a.m33 * b.m34 + a.m34 * b.m44,
      a.m41 * b.m11 + a.m42 * b.m21 + a.m43 * b.m31 + a.m44 * b.m41,
      a.m41 * b.m12 + a.m42 * b.m22 + a.m43 * b.m32 + a.m44 * b.m42,
      a.m41 * b.m13 + a.m42 * b.m23 + a.m43 * b.m33 + a.m44 * b.m43,
      a.m41 * b.m14 + a.m42 * b.m24 + a.m43 * b.m34 + a.m44 * b.m44)
  }

  /** The identity matrix is a unit for the product on both sides. */
  lemma MulIdentity(m: Matrix4D)
    ensures Mul(Identity, m) == m && Mul(m, Identity) == m
  {
  }

  function Transpose(m: Matrix4D): Matrix4D
  {
    Matrix4D(
      m.m11, m.m21, m.m31, m.m41,
      m.m12, m.m22, m.m32, m.m42,
      m.m13, m.m23, m.m33, m.m43,
      m.m14, m.m24, m.m34, m.m44)
  }

  /** Rotation about the X axis by the angle whose cosine is c and sine is s. */
  function RotationX(c: real, s: real): (r: Matrix4D)
    ensures IsAffine(r)
  {
    Matrix4D(
      1.0, 0.0, 0.0, 0.0,
      0.0, c, -s, 0.0,
      0.0, s, c, 0.0,
      0.0, 0.0, 0.0, 1.0)
  }

  /** Rotation about the Y axis by the angle whose cosine is c and sine is s. */
  function RotationY(c: real, s: real): (r: Matrix4D)
    ensures IsAffine(r)
  {
    Matrix4D(
      c, 0.0, s, 0.0,
      0.0, 1.0, 0.0, 0.0,
      -s, 0.0, c, 0.0,
      0.0, 0.0, 0.0, 1.0)
  }

  /** The homogeneous weight of `p` under `m`. */
  function Weight(p: Point3D, m: Matrix4D): real
  {
    p.x * m.m14 + p.y * m.m24 + p.z * m.m34 + m.m44
  }

  /** The row vector (x, y, z, 1) times the column (c1, c2, c3, c4). */
  function RowTimesColumn(p: Point3D, c1: real, c2: real, c3: real, c4: real): real
  {
    p.x * c1 + p.y * c2 + p.z * c3 + c4
  }

  /** The row vector (x, y, z, 1) times the first three columns of `m`, before the divide. */
  function Numerators(p: Point3D, m: Matrix4D): Point3D
  {
    Point3D(
      RowTimesColumn(p, m.m11, m.m21, m.m31, m.m41),
      RowTimesColumn(p, m.m12, m.m22, m.m32, m.m42),
      RowTimesColumn(p, m.m13, m.m23, m.m33, m.m43))
  }

  /**
    * The transformed point: the numerators divided by the weight. A zero weight has
    * no finite result (the original divides by it); it is None here.
    */
  function Transform(p: Point3D, m: Matrix4D): (r: Option<Point3D>)
    ensures r.None? <==> Weight(p, m) == 0.0
    ensures r.Some? ==>
              && r.value.x * Weight(p, m) == Numerators(p, m).x
              && r.value.y * Weight(p, m) == Numerators(p, m).y
              && r.value.z * Weight(p, m) == Numerators(p, m).z
    ensures IsAffine(m) ==> Weight(p, m) == 1.0 && r == Some(Numerators(p, m))
  {
    var w := Weight(p, m);
    if w == 0.0 then None
    else
      var n := Numerators(p, m);
      Some(Point3D(n.x / w, n.y / w, n.z / w))
  }

  function NormSquared(p: Point3D): real
  {
    p.x * p.x + p.y * p.y + p.z * p.z
  }

  /**
    * The row vector (x, y, z, 1) times an affine matrix (entries aRC), then times the
    * column u, is (x, y, z, 1) times the column that the matrix sends u to.
    */
  lemma RegroupColumn(p: Point3D,
                      a11: real, a12: real, a13: real, a14: real,
                      a21: real, a22: real, a23: real, a24: real,
                      a31: real, a32: real, a33: real, a34: real,
                      a41: real, a42: real, a43: real, a44: real,
                      u1: real, u2: real, u3: real, u4: real)
    requires a14 == 0.0 && a24 == 0.0 && a34 == 0.0 && a44 == 1.0
    ensures RowTimesColumn(Point3D(RowTimesColumn(p, a11, a21, a31, a41),
                                   RowTimesColumn(p, a12, a22, a32, a42),
                                   RowTimesColumn(p, a13, a23, a33, a43)), u1, u2, u3, u4)
         == RowTimesColumn(p,
                           a11 * u1 + a12 * u2 + a13 * u3 + a14 * u4,
                           a21 * u1 + a22 * u2 + a23 * u3 + a24 * u4,
                           a31 * u1 + a32 * u2 + a33 * u3 + a34 * u4,
                           a41 * u1 + a42 * u2 + a43 * u3 + a44 * u4)
  {
  }

  /** The x numerator under a * b is the x numerator under `b` of the numerators under affine `a`. */
  lemma NumeratorXMul(p: Point3D, a: Matrix4D, b: Matrix4D)
    requires IsAffine(a)
    ensures Numerators(Numerators(p, a), b).x == Numerators(p, Mul(a, b)).x
  {
    RegroupColumn(p, a.m11, a.m12, a.m13, a.m14, a.m21, a.m22, a.m23, a.m24,
                  a.m31, a.m32, a.m33, a.m34, a.m41, a.m42, a.m43, a.m44, b.m11, b.m21, b.m31, b.m41);
  }

  /** The y numerator under a * b is the y numerator under `b` of the numerators under affine `a`. */
  lemma NumeratorYMul(p: Point3D, a: Matrix4D, b: Matrix4D)
    requires IsAffine(a)
    ensures Numerators(Numerators(p, a), b).y == Numerators(p, Mul(a, b)).y
  {
    RegroupColumn(p, a.m11, a.m12, a.m13, a.m14, a.m21, a.m22, a.m23, a.m24,
                  a.m31, a.m32, a.m33, a.m34, a.m41, a.m42, a.m43, a.m44, b.m12, b.m22, b.m32, b.m42);
  }

  /** The z numerator under a * b is the z numerator under `b` of the numerators under affine `a`. */
  lemma NumeratorZMul(p: Point3D, a: Matrix4D, b: Matrix4D)
    requires IsAffine(a)
    ensures Numerators(Numerators(p, a), b).z == Numerators(p, Mul(a, b)).z
  {
    RegroupColumn(p, a.m11, a.m12, a.m13, a.m14, a.m21, a.m22, a.m23, a.m24,
                  a.m31, a.m32, a.m33, a.m34, a.m41, a.m42, a.m43, a.m44, b.m13, b.m23, b.m33, b.m43);
  }

  /** Transforming by a product of affine matrices is transforming by each in turn, left factor first. */
  lemma TransformMul(p: Point3D, a: Matrix4D, b: Matrix4D)
    requires IsAffine(a) && IsAffine(b)
    ensures Transform(p, Mul(a, b)) == Some(Transform(Transform(p, a).value, b).value)
  {
    NumeratorXMul(p, a, b);
    NumeratorYMul(p, a, b);
    NumeratorZMul(p, a, b);
  }

  /** Rotation about X leaves the x coordinate unchanged. */
  lemma RotationXFixesX(c: real, s: real, p: Point3D)
    ensures Transform(p, RotationX(c, s)).Some?
    ensures Transform(p, RotationX(c, s)).value.x == p.x
  {
  }

  /** Rotation about Y leaves the y coordinate unchanged. */
  lemma RotationYFixesY(c: real, s: real, p: Point3D)
    ensures Transform(p, RotationY(c, s)).Some?
    ensures Transform(p, RotationY(c, s)).value.y == p.y
  {
  }

  /** On the unit circle, the X rotation is orthogonal: its transpose is its inverse. */
  lemma RotationXOrthogonal(c: real, s: real)
    requires c * c + s * s == 1.0
    ensures Mul(RotationX(c, s), Transpose(RotationX(c, s))) == Identity
    ensures Mul(Transpose(RotationX(c, s)), RotationX(c, s)) == Identity
  {
  }

  /** On the unit circle, the Y rotation is orthogonal: its transpose is its inverse. */
  lemma RotationYOrthogonal(c: real, s: real)
    requires c * c + s * s == 1.0
    ensures Mul(RotationY(c, s), Transpose(RotationY(c, s))) == Identity
    ensures Mul(Transpose(RotationY(c, s)), RotationY(c, s)) == Identity
  {
    assert c * (-s) + s * c == 0.0;
    assert (-s) * c + c * s == 0.0;
    assert (-s) * (-s) + c * c == 1.0;
  }

  lemma RotationXPreservesNorm(c: real, s: real, p: Point3D)
    requires c * c + s * s == 1.0
    ensures NormSquared(Transform(p, RotationX(c, s)).value) == NormSquared(p)
  {
    var q := Transform(p, RotationX(c, s)).value;
    assert q.y * q.y + q.z * q.z == (c * c + s * s) * (p.y * p.y + p.z * p.z);
  }

  lemma RotationYPreservesNorm(c: real, s: real, p: Point3D)
    requires c * c + s * s == 1.0
    ensures NormSquared(Transform(p, RotationY(c, s)).value) == NormSquared(p)
  {
    var q := Transform(p, RotationY(c, s)).value;
    assert q.x * q.x + q.z * q.z == (c * c + s * s) * (p.x * p.x + p.z * p.z);
  }

  /**
    * The frame's composed rotation RotationX * RotationY: its weight is 1 for every point,
    * so the divide changes nothing, and it preserves the squared distance from the origin.
    */
  lemma ComposedRotation(cx: real, sx: real, cy: real, sy: real, p: Point3D)
    requires cx * cx + sx * sx == 1.0 && cy * cy + sy * sy == 1.0
    ensures IsAffine(Mul(RotationX(cx, sx), RotationY(cy, sy)))
    ensures Weight(p, Mul(RotationX(cx, sx), RotationY(cy, sy))) == 1.0
    ensures Transform(p, Mul(RotationX(cx, sx), RotationY(cy, sy))).Some?
    ensures NormSquared(Transform(p, Mul(RotationX(cx, sx), RotationY(cy, sy))).value) == NormSquared(p)
  {
    var rx, ry := RotationX(cx, sx), RotationY(cy, sy);
    TransformMul(p, rx, ry);
    RotationXPreservesNorm(cx, sx, p);
    RotationYPreservesNorm(cy, sy, Transform(p, rx).value);
  }

  /** For one angle, the two rotations commute exactly when its sine is zero. */
  lemma RotationsCommuteIff(c: real, s: real)
    ensures Mul(RotationX(c, s), RotationY(c, s)) == Mul(RotationY(c, s), RotationX(c, s)) <==> s == 0.0
  {
    if Mul(RotationX(c, s), RotationY(c, s)) == Mul(RotationY(c, s), RotationX(c, s)) {
      assert Mul(RotationY(c, s), RotationX(c, s)).m12 == s * s;
      assert Mul(RotationX(c, s), RotationY(c, s)).m12 == 0.0;
    }
  }
}
