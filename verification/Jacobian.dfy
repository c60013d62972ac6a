/** The Jacobian point formulas of sm2_jacobian_point_dbl, _add, _get_xy and _mul. A point
    object holds X, Y, Z with x = X / Z^2 and y = Y / Z^3; Z = 0 is the point at infinity. */
module Jacobian {
  import opened Modular
  import opened Curve

  datatype Jac = Jac(X: int, Y: int, Z: int)

  ghost predicate Reduced(J: Jac, p: int) {
    0 <= J.X < p && 0 <= J.Y < p && 0 <= J.Z < p
  }

  /** The coordinates J stand for the affine point A. */
  ghost predicate Represents(J: Jac, A: Point, p: int)
    requires p > 0
  {
    if J.Z == 0 then A.Infinity?
    else A.Affine? && Scaled(J.X, J.Y, A.x, A.y, J.Z, p)
  }

  /** X = x w^2 and Y = y w^3. */
  ghost predicate Scaled(X: int, Y: int, x: int, y: int, w: int, p: int)
    requires p > 0
  {
    Cong(X, x * (w * w), p) && Cong(Y, y * (w * w * w), p)
  }

  /** sm2_fp_div2 on values. */
  function Half(x: int, p: int): int {
    if x % 2 == 1 then (x + p) / 2 else x / 2
  }

  lemma Odd(p: int)
    requires Field(p)
    ensures p % 2 == 1
  {
    assert p % 2 != 0;
  }

  /** Replacing the scale by a congruent one. */
  lemma Rescale(X: int, Y: int, x: int, y: int, w: int, w': int, p: int)
    requires p > 0 && Scaled(X, Y, x, y, w, p) && Cong(w, w', p)
    ensures Scaled(X, Y, x, y, w', p)
  {
    CongMul(w, w', w, w', p);
    CongMul(w * w, w' * w', w, w', p);
    CongMul(x, x, w * w, w' * w', p);
    CongMul(y, y, w * w * w, w' * w' * w', p);
  }

  // ------------------------------------------------------------ doubling

  /** The new Z coordinate, 2 y Z^4, and the doubled Y. */
  lemma DblZ(y: int, Y1: int, Z: int, d: int, Z3: int, p: int)
    requires p > 0 && Cong(Y1, y * (Z * Z * Z), p)
    requires d == MAdd(Y1, Y1, p) && Z3 == MMul(d, Z, p)
    ensures Cong(d, 2 * y * (Z * Z * Z), p)
    ensures Cong(Z3, 2 * y * (Z * Z * (Z * Z)), p)
  {
    var v := y * (Z * Z * Z);
    Op(Y1, v, Y1, v, p);
    assert v + v == 2 * y * (Z * Z * Z);
    Op(d, v + v, Z, Z, p);
    assert 2 * y * (Z * Z * Z) * Z == 2 * y * (Z * Z * (Z * Z)) by {
      assert (Z * Z * Z) * Z == Z * Z * (Z * Z);
      var q := Z * Z * Z;
      assert 2 * y * q * Z == 2 * y * (q * Z);
    }
  }

  /** The register 3 (X - Z^2) (X + Z^2) is the slope times the new Z. */
  lemma DblSlope(x: int, y: int, s: int, X1: int, Z: int, t1: int, m: int, n: int, q: int, t2: int, p: int)
    requires p > 0 && Cong(s * (2 * y), 3 * x * x - 3, p) && Cong(X1, x * (Z * Z), p)
    requires t1 == MMul(Z, Z, p) && m == MSub(X1, t1, p) && n == MAdd(X1, t1, p)
    requires q == MMul(m, n, p) && t2 == MAdd(MAdd(q, q, p), q, p)
    ensures Cong(t2, s * (2 * y * (Z * Z * (Z * Z))), p)
  {
    var z4 := Z * Z * (Z * Z);
    Op(Z, Z, Z, Z, p);
    DblRegister(x, Z * Z, X1, t1, m, n, q, t2, p);
    TangentNumerator(x, Z * Z);
    CongMul(s * (2 * y), 3 * x * x - 3, z4, z4, p);
    Regroup(s, 2 * y, z4);
  }

  /** 3 (X - Z^2) (X + Z^2) */
  lemma DblRegister(x: int, z2: int, X1: int, t1: int, m: int, n: int, q: int, t2: int, p: int)
    requires p > 0 && Cong(X1, x * z2, p) && Cong(t1, z2, p) && m == MSub(X1, t1, p) && n == MAdd(X1, t1, p)
    requires q == MMul(m, n, p) && t2 == MAdd(MAdd(q, q, p), q, p)
    ensures Cong(t2, 3 * ((x * z2 - z2) * (x * z2 + z2)), p)
  {
    var u := x * z2;
    Op(X1, u, t1, z2, p);
    Op(m, u - z2, n, u + z2, p);
    var e := (u - z2) * (u + z2);
    Op(q, e, q, e, p);
    Op(MAdd(q, q, p), e + e, q, e, p);
  }

  lemma TangentNumerator(x: int, z: int)
    ensures 3 * ((x * z - z) * (x * z + z)) == (3 * x * x - 3) * (z * z)
  {
    var u := x * z;
    assert (u - z) * (u + z) == u * u - z * z;
    assert u * u == (x * x) * (z * z);
  }

  /** 4 Y^2 X = x w^2 and 8 Y^4 = y w^3. */
  lemma DblPowers(x: int, y: int, X1: int, Z: int, d: int, d2: int, t3: int, d4: int, h: int, p: int)
    requires Field(p) && Cong(X1, x * (Z * Z), p) && Cong(d, 2 * y * (Z * Z * Z), p)
    requires d2 == MMul(d, d, p) && t3 == MMul(d2, X1, p) && d4 == MMul(d2, d2, p) && h == Half(d4, p)
    ensures var w := 2 * y * (Z * Z * (Z * Z));
      Cong(t3, x * (w * w), p) && Cong(h, y * (w * w * w), p)
  {
    var c := 2 * y * (Z * Z * Z);
    var w := 2 * y * (Z * Z * (Z * Z));
    Op(d, c, d, c, p);
    Op(d2, c * c, X1, x * (Z * Z), p);
    Op(d2, c * c, d2, c * c, p);
    DblMonomials(x, y, Z);
    HalfOf(d4, 2 * (y * (w * w * w)), y * (w * w * w), h, p);
  }

  lemma DblMonomials(x: int, y: int, Z: int)
    ensures var c := 2 * y * (Z * Z * Z); var w := 2 * y * (Z * Z * (Z * Z));
      (c * c) * (x * (Z * Z)) == x * (w * w) && (c * c) * (c * c) == 2 * (y * (w * w * w))
  {
    var z3 := Z * Z * Z;
    var c, w := 2 * y * z3, 2 * y * (Z * Z * (Z * Z));
    assert w == c * Z by { assert z3 * Z == Z * Z * (Z * Z); assert 2 * y * (z3 * Z) == 2 * y * z3 * Z; }
    assert w * w == (c * c) * (Z * Z);
    assert (c * c) * (x * (Z * Z)) == x * ((c * c) * (Z * Z));
    assert w * w * w == (c * c) * (Z * Z) * (c * Z);
    assert (c * c) * (Z * Z) * (c * Z) == (c * c) * c * z3;
    assert 2 * (y * ((c * c) * c * z3)) == (c * c) * c * (2 * y * z3);
  }

  lemma HalfOf(d: int, v2: int, v: int, h: int, p: int)
    requires Field(p) && 0 <= d < p && h == Half(d, p) && Cong(d, v2, p) && v2 == 2 * v
    ensures Cong(h, v, p)
  {
    HalfDoubled(d, h, p);
    CongZero(2, p);
    Cancel(p, 2, h, v);
  }

  lemma HalfDoubled(d: int, h: int, p: int)
    requires Field(p) && h == Half(d, p)
    ensures Cong(2 * h, d, p)
  {
    Odd(p);
    if d % 2 == 1 {
      ModShift(d, 1, p);
    }
  }

  /** X3 = s^2 w^2 - a - c and Y3 = (x w^2 - X3) s w - y w^3, for a chord or a tangent. */
  lemma LineThird(x: int, y: int, s: int, w: int, x2: int, t: int, t3: int, h: int, a: int, c: int,
                  X3: int, Y3: int, p: int)
    requires p > 0 && Cong(t, s * w, p) && Cong(t3, x * (w * w), p) && Cong(h, y * (w * w * w), p)
    requires Cong(a + c, (x + x2) * (w * w), p)
    requires X3 == MSub(MSub(MMul(t, t, p), a, p), c, p)
    requires Y3 == MSub(MMul(MSub(t3, X3, p), t, p), h, p)
    ensures var x3 := (s * s - x - x2) % p;
      Scaled(X3, Y3, x3, (s * (x - x3) - y) % p, w, p)
  {
    var w2 := w * w;
    var x3 := (s * s - x - x2) % p;
    var y3 := (s * (x - x3) - y) % p;
    Op(t, s * w, t, s * w, p);
    ThirdX(s, w, x, x2);
    Op(MMul(t, t, p), (s * s) * w2, a, a, p);
    Op(MSub(MMul(t, t, p), a, p), (s * s) * w2 - a, c, c, p);
    CongAdd((s * s) * w2, (s * s) * w2, a + c, (x + x2) * w2, p);
    CongMod(s * s - x - x2, p);
    CongMul(x3, s * s - x - x2, w2, w2, p);
    ThirdY(x, y, s, w, t, t3, h, x3, y3, X3, Y3, p);
  }

  lemma ThirdX(s: int, w: int, x: int, x2: int)
    ensures (s * w) * (s * w) == (s * s) * (w * w)
    ensures (s * s) * (w * w) - (x + x2) * (w * w) == (s * s - x - x2) * (w * w)
  {
    MinusFactor(s * s, x + x2, w * w);
  }

  lemma MinusFactor(x: int, y: int, z: int)
    ensures x * z - y * z == (x - y) * z
  {
  }

  lemma ThirdY(x: int, y: int, s: int, w: int, t: int, t3: int, h: int, x3: int, y3: int, X3: int, Y3: int, p: int)
    requires p > 0 && Cong(t, s * w, p) && Cong(t3, x * (w * w), p) && Cong(h, y * (w * w * w), p)
    requires Cong(X3, x3 * (w * w), p) && y3 == (s * (x - x3) - y) % p
    requires Y3 == MSub(MMul(MSub(t3, X3, p), t, p), h, p)
    ensures Cong(Y3, y3 * (w * w * w), p)
  {
    var w2, w3 := w * w, w * w * w;
    Op(t3, x * w2, X3, x3 * w2, p);
    Op(MSub(t3, X3, p), x * w2 - x3 * w2, t, s * w, p);
    var u := (x * w2 - x3 * w2) * (s * w);
    ThirdYFactor(x, x3, s, w);
    Op(MMul(MSub(t3, X3, p), t, p), u, h, y * w3, p);
    MinusFactor(s * (x - x3), y, w3);
    CongMod(s * (x - x3) - y, p);
    CongMul(y3, s * (x - x3) - y, w3, w3, p);
  }

  lemma ThirdYFactor(x: int, x3: int, s: int, w: int)
    ensures (x * (w * w) - x3 * (w * w)) * (s * w) == (s * (x - x3)) * (w * w * w)
  {
    var w2 := w * w;
    assert x * w2 - x3 * w2 == (x - x3) * w2;
    var d := x - x3;
    assert (d * w2) * (s * w) == (s * d) * (w2 * w);
  }

  // ------------------------------------------------------------ mixed addition

  ghost predicate InField(A: Point, p: int) {
    A.Affine? ==> 0 <= A.x < p && 0 <= A.y < p
  }

  /** What mixed addition computes for any pairs of coordinates, of the curve or not: the tangent is taken
      for equal pairs only, and the chord through points above each other ends at infinity. */
  ghost function MixedSum(A: Point, C: Point, p: int): Point
    requires p > 3
  {
    if A.Affine? && C.Affine? && A.x == C.x && A.y != C.y then Infinity else Add(A, C, p)
  }

  /** On the curve that is the group law. */
  lemma MixedOnCurve(A: Point, C: Point, p: int, b: int)
    requires Field(p) && OnCurve(A, p, b) && OnCurve(C, p, b)
    ensures MixedSum(A, C, p) == Add(A, C, p)
  {
    if A.Affine? && C.Affine? && A.x == C.x && A.y != C.y { SameX(A, C, p, b); }
  }

  /** The differences T1 and T2 compare the two points, and scale the chord. */
  lemma AddDifferences(A: Point, C: Point, X1: int, Y1: int, Z: int, z2: int, z3: int, t1: int, t2: int, p: int)
    requires Field(p) && Represents(Jac(X1, Y1, Z), A, p) && 0 < Z < p && C.Affine?
    requires z2 == MMul(Z, Z, p) && z3 == MMul(z2, Z, p)
    requires t1 == MSub(MMul(z2, C.x, p), X1, p) && t2 == MSub(MMul(z3, C.y, p), Y1, p)
    ensures Cong(t1, (C.x - A.x) * (Z * Z), p) && Cong(t2, (C.y - A.y) * (Z * Z * Z), p)
  {
    Op(Z, Z, Z, Z, p);
    Op(z2, Z * Z, Z, Z, p);
    Op(z2, Z * Z, C.x, C.x, p);
    Op(z3, Z * Z * Z, C.y, C.y, p);
    Op(MMul(z2, C.x, p), (Z * Z) * C.x, X1, A.x * (Z * Z), p);
    Op(MMul(z3, C.y, p), (Z * Z * Z) * C.y, Y1, A.y * (Z * Z * Z), p);
    MinusFactor(C.x, A.x, Z * Z);
    MinusFactor(C.y, A.y, Z * Z * Z);
  }

  /** A difference of reduced coordinates vanishes exactly when its scaled residue is zero. */
  lemma ZeroDifference(x: int, y: int, z: int, t: int, p: int)
    requires Prime(p) && !Cong(z, 0, p) && 0 <= x < p && 0 <= y < p && 0 <= t < p && Cong(t, (x - y) * z, p)
    ensures t == 0 <==> x == y
  {
    CongZero(t, p);
    if x == y {
      NoDifference(x, y, z);
    } else if t == 0 {
      Euclid(p, x - y, z);
      CongDifference(x, y, p);
    }
  }

  lemma NoDifference(x: int, y: int, z: int)
    requires x == y
    ensures (x - y) * z == 0
  {
  }

  /** The chord registers: with w = (x2 - x1) Z^3 they are w, x1 w^2, y1 w^3 and (x2 - x1) w^2. */
  lemma ChordRegisters(x: int, y: int, X1: int, Y1: int, Z: int, e: int, t1: int,
                       Z3: int, q: int, c: int, t3: int, h: int, p: int)
    requires p > 0 && Scaled(X1, Y1, x, y, Z, p) && Cong(t1, e * (Z * Z), p)
    requires Z3 == MMul(Z, t1, p) && q == MMul(t1, t1, p) && c == MMul(q, t1, p)
    requires t3 == MMul(q, X1, p) && h == MMul(c, Y1, p)
    ensures var w := e * (Z * Z * Z);
      Cong(Z3, w, p) && Cong(t3, x * (w * w), p) && Cong(h, y * (w * w * w), p) && Cong(c, e * (w * w), p)
  {
    var g, w := e * (Z * Z), e * (Z * Z * Z);
    Op(Z, Z, t1, g, p);
    Op(t1, g, t1, g, p);
    Op(q, g * g, t1, g, p);
    Op(q, g * g, X1, x * (Z * Z), p);
    Op(c, g * g * g, Y1, y * (Z * Z * Z), p);
    ChordMonomials(x, y, e, Z);
  }

  lemma ChordMonomials(x: int, y: int, e: int, Z: int)
    ensures var g := e * (Z * Z); var w := e * (Z * Z * Z);
      Z * g == w && (g * g) * (x * (Z * Z)) == x * (w * w) &&
      (g * g * g) * (y * (Z * Z * Z)) == y * (w * w * w) && g * g * g == e * (w * w)
  {
    var g := e * (Z * Z);
    var w := e * (Z * Z * Z);
    assert w == g * Z by { assert e * (Z * Z) * Z == e * (Z * Z * Z); }
    assert w * w == (g * g) * (Z * Z);
    assert (g * g) * (x * (Z * Z)) == x * ((g * g) * (Z * Z));
    CubeScale(g, Z, y);
    assert e * ((g * g) * (Z * Z)) == (g * g) * (e * (Z * Z));
  }

  lemma CubeScale(g: int, Z: int, y: int)
    ensures (g * g * g) * (y * (Z * Z * Z)) == y * ((g * Z) * (g * Z) * (g * Z))
  {
    var g3, z3 := g * g * g, Z * Z * Z;
    assert (g * Z) * (g * Z) == (g * g) * (Z * Z);
    assert (g * g) * (Z * Z) * (g * Z) == g3 * z3 by {
      var a, b := g * g, Z * Z;
      assert (a * b) * (g * Z) == (a * g) * (b * Z);
    }
    assert g3 * (y * z3) == y * (g3 * z3);
  }

  /** The register values of a mixed addition represent the third point of the chord. */
  lemma AddCorrect(A: Point, C: Point, X1: int, Y1: int, Z: int, t1: int, t2: int,
                   Z3: int, q: int, c: int, t3: int, h: int, X3: int, Y3: int, p: int)
    requires Field(p) && Represents(Jac(X1, Y1, Z), A, p) && 0 < Z < p
    requires InField(A, p) && InField(C, p) && C.Affine? && A.x != C.x
    requires Cong(t1, (C.x - A.x) * (Z * Z), p) && Cong(t2, (C.y - A.y) * (Z * Z * Z), p)
    requires Z3 == MMul(Z, t1, p) && q == MMul(t1, t1, p) && c == MMul(q, t1, p)
    requires t3 == MMul(q, X1, p) && h == MMul(c, Y1, p)
    requires X3 == MSub(MSub(MMul(t2, t2, p), MAdd(t3, t3, p), p), c, p)
    requires Y3 == MSub(MMul(MSub(t3, X3, p), t2, p), h, p)
    ensures Represents(Jac(X3, Y3, Z3), Add(A, C, p), p)
  {
    var x, y, e, s := A.x, A.y, C.x - A.x, Slope(A, C, p);
    var w := e * (Z * Z * Z);
    ChordSlope(A, C, Z, t2, w, p);
    ChordRegisters(x, y, X1, Y1, Z, e, t1, Z3, q, c, t3, h, p);
    ChordSum(x, C.x, w * w, t3, c, e, p);
    LineThird(x, y, s, w, C.x, t2, t3, h, MAdd(t3, t3, p), c, X3, Y3, p);
    Rescale(X3, Y3, Add(A, C, p).x, Add(A, C, p).y, w, Z3, p);
    ChordZ(A.x, C.x, Z, Z3, p);
  }

  lemma ChordSlope(A: Point, C: Point, Z: int, t2: int, w: int, p: int)
    requires Field(p) && A.Affine? && C.Affine? && InField(A, p) && InField(C, p) && A.x != C.x
    requires Cong(t2, (C.y - A.y) * (Z * Z * Z), p) && w == (C.x - A.x) * (Z * Z * Z)
    ensures Cong(t2, Slope(A, C, p) * w, p)
  {
    var s, e, z3 := Slope(A, C, p), C.x - A.x, Z * Z * Z;
    CongDifference(C.x, A.x, p);
    Quotient(C.y - A.y, e, s, p);
    CongMul(s * e, C.y - A.y, z3, z3, p);
    Regroup(s, e, z3);
  }

  lemma Regroup(x: int, y: int, z: int)
    ensures (x * y) * z == x * (y * z)
  {
  }

  lemma ChordSum(x: int, x2: int, w2: int, t3: int, c: int, e: int, p: int)
    requires p > 0 && Cong(t3, x * w2, p) && Cong(c, e * w2, p) && e == x2 - x
    ensures Cong(MAdd(t3, t3, p) + c, (x + x2) * w2, p)
  {
    Op(t3, x * w2, t3, x * w2, p);
    CongAdd(MAdd(t3, t3, p), x * w2 + x * w2, c, e * w2, p);
    Collect(x, x2, w2);
  }

  /** The new Z is not 0. */
  lemma ChordZ(x: int, x2: int, Z: int, Z3: int, p: int)
    requires Field(p) && 0 < Z < p && 0 <= x < p && 0 <= x2 < p && x != x2 && Cong(Z3, (x2 - x) * (Z * Z * Z), p)
    ensures Z3 != 0
  {
    CongDifference(x2, x, p);
    CongZero(Z, p);
    NonZeroFourth(Z, p);
    if Z3 == 0 { Euclid(p, x2 - x, Z * Z * Z); }
  }

  lemma Collect(x: int, x2: int, w: int)
    ensures x * w + x * w + (x2 - x) * w == (x + x2) * w
  {
  }

  // ------------------------------------------------------------ point objects

  class JacobianPoint {
    var X: int
    var Y: int
    var Z: int

    constructor (x: int, y: int, z: int)
      ensures X == x && Y == y && Z == z
    {
      X, Y, Z := x, y, z;
    }

    ghost function Value(): Jac
      reads this
    {
      Jac(X, Y, Z)
    }

    /** sm2_jacobian_point_copy. */
    method Copy(Q: JacobianPoint)
      modifies this
      ensures Value() == old(Q.Value())
    {
      X, Y, Z := Q.X, Q.Y, Q.Z;
    }

    /** sm2_jacobian_point_dbl, for any point that the coordinates represent; Q may be this. */
    method Dbl(Q: JacobianPoint, p: int, ghost A: Point)
      requires Field(p) && Reduced(Q.Value(), p) && Represents(Q.Value(), A, p)
      modifies this
      ensures Reduced(Value(), p) && Represents(Value(), Add(A, A, p), p)
    {
      var X1, Y1, Z1 := Q.X, Q.Y, Q.Z;
      if Z1 == 0 {
        Copy(Q);
        return;
      }
      var T1 := MMul(Z1, Z1, p);
      var T2 := MSub(X1, T1, p);
      ghost var t1, m := T1, T2;
      T1 := MAdd(X1, T1, p);
      ghost var n := T1;
      T2 := MMul(T2, T1, p);
      ghost var q := T2;
      T2 := MAdd(MAdd(T2, T2, p), T2, p);
      var Y3 := MAdd(Y1, Y1, p);
      ghost var d := Y3;
      var Z3 := MMul(Y3, Z1, p);
      Y3 := MMul(Y3, Y3, p);
      ghost var d2 := Y3;
      var T3 := MMul(Y3, X1, p);
      Y3 := MMul(Y3, Y3, p);
      ghost var d4 := Y3;
      Y3 := Half(Y3, p);
      ghost var h := Y3;
      var X3 := MMul(T2, T2, p);
      T1 := MAdd(T3, T3, p);
      X3 := MSub(X3, T1, p);
      T1 := MSub(T3, X3, p);
      T1 := MMul(T1, T2, p);
      Y3 := MSub(T1, Y3, p);
      DblCorrect(A, X1, Y1, Z1, t1, m, n, q, T2, d, Z3, d2, T3, d4, h, X3, Y3, p);
      X, Y, Z := X3, Y3, Z3;
    }

    /** sm2_jacobian_point_add: Q must be affine or infinite; Pt and Q may be this. */
    method AddMixed(Pt: JacobianPoint, Q: JacobianPoint, p: int, ghost A: Point, ghost C: Point, ghost b: int)
      requires Field(p) && Reduced(Pt.Value(), p) && Represents(Pt.Value(), A, p) && InField(A, p)
      requires Reduced(Q.Value(), p) && Represents(Q.Value(), C, p) && InField(C, p)
      requires Q.Z == 0 || Q.Z == 1
      modifies this
      ensures Reduced(Value(), p) && Represents(Value(), MixedSum(A, C, p), p)
      ensures OnCurve(A, p, b) && OnCurve(C, p, b) ==> Represents(Value(), Add(A, C, p), p)
    {
      if OnCurve(A, p, b) && OnCurve(C, p, b) { MixedOnCurve(A, C, p, b); }
      if Q.Z == 0 {
        Copy(Pt);
        return;
      }
      if Pt.Z == 0 {
        Copy(Q);
        return;
      }
      var X1, Y1, Z1, x2, y2 := Pt.X, Pt.Y, Pt.Z, Q.X, Q.Y;
      UnitScale(C, x2, y2, p);
      var T1 := MMul(Z1, Z1, p);
      var T2 := MMul(T1, Z1, p);
      ghost var z2, z3 := T1, T2;
      T1 := MMul(T1, x2, p);
      T2 := MMul(T2, y2, p);
      T1 := MSub(T1, X1, p);
      T2 := MSub(T2, Y1, p);
      AddDifferences(A, C, X1, Y1, Z1, z2, z3, T1, T2, p);
      AddCases(A, C, Z1, T1, T2, p);
      if T1 == 0 {
        if T2 == 0 {
          var D := new JacobianPoint(x2, y2, 1);
          Dbl(D, p, C);
          return;
        } else {
          X, Y, Z := 1, 1, 0;
          return;
        }
      }
      ghost var t1 := T1;
      var Z3 := MMul(Z1, T1, p);
      var T3 := MMul(T1, T1, p);
      ghost var q := T3;
      var T4 := MMul(T3, T1, p);
      ghost var c := T4;
      T3 := MMul(T3, X1, p);
      ghost var t3 := T3;
      T1 := MAdd(T3, T3, p);
      var X3 := MMul(T2, T2, p);
      X3 := MSub(X3, T1, p);
      X3 := MSub(X3, T4, p);
      T3 := MSub(T3, X3, p);
      T3 := MMul(T3, T2, p);
      T4 := MMul(T4, Y1, p);
      var Y3 := MSub(T3, T4, p);
      AddCorrect(A, C, X1, Y1, Z1, t1, T2, Z3, q, c, t3, T4, X3, Y3, p);
      X, Y, Z := X3, Y3, Z3;
    }
  }

  lemma UnitScale(C: Point, x: int, y: int, p: int)
    requires p > 1 && Represents(Jac(x, y, 1), C, p) && 0 <= x < p && 0 <= y < p
    requires C.Affine? ==> 0 <= C.x < p && 0 <= C.y < p
    ensures C == Affine(x, y)
  {
    CongEqual(x, C.x, p);
    CongEqual(y, C.y, p);
  }

  lemma AddCases(A: Point, C: Point, Z: int, t1: int, t2: int, p: int)
    requires Field(p) && 0 < Z < p && A.Affine? && C.Affine? && 0 <= t1 < p && 0 <= t2 < p
    requires 0 <= A.x < p && 0 <= A.y < p && 0 <= C.x < p && 0 <= C.y < p
    requires Cong(t1, (C.x - A.x) * (Z * Z), p) && Cong(t2, (C.y - A.y) * (Z * Z * Z), p)
    ensures (t1 == 0 <==> C.x == A.x) && (t2 == 0 <==> C.y == A.y)
  {
    CongZero(Z, p);
    NonZeroFourth(Z, p);
    ZeroDifference(C.x, A.x, Z * Z, t1, p);
    ZeroDifference(C.y, A.y, Z * Z * Z, t2, p);
  }

  /** The register values of a doubling represent the tangent point. */
  lemma DblCorrect(A: Point, X1: int, Y1: int, Z: int, t1: int, m: int, n: int, q: int, t2: int,
                   d: int, Z3: int, d2: int, t3: int, d4: int, h: int, X3: int, Y3: int, p: int)
    requires Field(p) && Represents(Jac(X1, Y1, Z), A, p) && 0 < Z < p
    requires t1 == MMul(Z, Z, p) && m == MSub(X1, t1, p) && n == MAdd(X1, t1, p)
    requires q == MMul(m, n, p) && t2 == MAdd(MAdd(q, q, p), q, p)
    requires d == MAdd(Y1, Y1, p) && Z3 == MMul(d, Z, p)
    requires d2 == MMul(d, d, p) && t3 == MMul(d2, X1, p) && d4 == MMul(d2, d2, p) && h == Half(d4, p)
    requires X3 == MSub(MMul(t2, t2, p), MAdd(t3, t3, p), p)
    requires Y3 == MSub(MMul(MSub(t3, X3, p), t2, p), h, p)
    ensures Represents(Jac(X3, Y3, Z3), Add(A, A, p), p)
  {
    var x, y := A.x, A.y;
    var w := 2 * y * (Z * Z * (Z * Z));
    DblZ(y, Y1, Z, d, Z3, p);
    DblZero(y, Z, Z3, p);
    if !Opposite(A, A, p) {
      var s := Slope(A, A, p);
      assert y + y == 2 * y;
      Quotient(3 * x * x - 3, 2 * y, s, p);
      DblSlope(x, y, s, X1, Z, t1, m, n, q, t2, p);
      DblPowers(x, y, X1, Z, d, d2, t3, d4, h, p);
      Op(t3, x * (w * w), t3, x * (w * w), p);
      var a := MAdd(t3, t3, p);
      assert x * (w * w) + x * (w * w) == (x + x) * (w * w);
      assert X3 == MSub(X3, 0, p) by { ModUnique(X3, 0, X3, p); }
      LineThird(x, y, s, w, x, t2, t3, h, a, 0, X3, Y3, p);
      Rescale(X3, Y3, Add(A, A, p).x, Add(A, A, p).y, w, Z3, p);
    }
  }

  /** The new Z vanishes exactly for a vertical tangent. */
  lemma DblZero(y: int, Z: int, Z3: int, p: int)
    requires Field(p) && 0 < Z < p && 0 <= Z3 < p && Cong(Z3, 2 * y * (Z * Z * (Z * Z)), p)
    ensures Z3 == 0 <==> Cong(y + y, 0, p)
  {
    var z4 := Z * Z * (Z * Z);
    CongZero(Z, p); CongZero(Z3, p);
    assert y + y == 2 * y;
    if Cong(2 * y, 0, p) {
      CongMul(2 * y, 0, z4, z4, p);
    }
    if Z3 == 0 {
      Euclid(p, 2 * y, z4);
      NonZeroFourth(Z, p);
    }
  }

  lemma NonZeroFourth(Z: int, p: int)
    requires Prime(p) && !Cong(Z, 0, p)
    ensures !Cong(Z * Z, 0, p) && !Cong(Z * Z * Z, 0, p) && !Cong(Z * Z * (Z * Z), 0, p)
  {
    if Cong(Z * Z, 0, p) { Euclid(p, Z, Z); }
    if Cong(Z * Z * Z, 0, p) { Euclid(p, Z * Z, Z); }
    if Cong(Z * Z * (Z * Z), 0, p) { Euclid(p, Z * Z, Z * Z); }
  }
}
