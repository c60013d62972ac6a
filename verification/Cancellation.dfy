/** Adding a point and taking it away again, on every curve without a singular point. */
module Cancellation {
  import opened Modular
  import opened Curve
  import opened Scalars
  import Sm2Field
  import RingSignature

  /** x^3 - 3 x + b and its derivative have no root in common. */
  ghost predicate Nonsingular(p: int, b: int)
    requires p > 0
  {
    !Cong(b * b, 4, p)
  }

  /** The slope s of the line through (x1, y1) and (x2, y2), and the third point reflected. */
  ghost predicate Line(s: int, x1: int, y1: int, x2: int, y2: int, x3: int, y3: int, p: int)
    requires p > 0
  {
    Cong(s * (x2 - x1), y2 - y1, p) && Cong(x3, s * s - x1 - x2, p) && Cong(y3, s * (x1 - x3) - y1, p)
  }

  /** The reflected point lies on the line through the reflected second one with slope -s. */
  lemma Through(s: int, x1: int, y1: int, x2: int, y2: int, x3: int, y3: int, p: int)
    requires p > 0 && Line(s, x1, y1, x2, y2, x3, y3, p)
    ensures Cong(s * (x2 - x3), y3 + y2, p)
  {
    CongAdd(s * (x2 - x1), y2 - y1, s * (x1 - x3) - y1, y3, p);
    assert s * (x2 - x1) + s * (x1 - x3) == s * (x2 - x3);
    CongAdd(s * (x2 - x3) - y1, y2 - y1 + y3, y1, y1, p);
  }

  /** From there the line with slope -s leads back. */
  lemma Back(s: int, t: int, x1: int, y1: int, x2: int, y2: int, x3: int, y3: int, p: int)
    requires p > 0 && Line(s, x1, y1, x2, y2, x3, y3, p) && Cong(t, -s, p)
    ensures Cong(t * t - x3 - x2, x1, p) && Cong(t * (x3 - x1) - y3, y1, p)
  {
    CongMul(t, -s, t, -s, p);
    assert (-s) * (-s) == s * s;
    CongAdd(t * t, s * s, x3, s * s - x1 - x2, p);
    CongAdd(t * t - x3, x1 + x2, x2, x2, p);
    CongMul(t, -s, x3 - x1, x3 - x1, p);
    assert (-s) * (x3 - x1) == s * (x1 - x3);
    CongAdd(t * (x3 - x1), s * (x1 - x3), y3, s * (x1 - x3) - y1, p);
  }

  /** So does the sum with the negative, if its slope is -s. */
  lemma SumBack(A: Point, C: Point, R: Point, N: Point, s: int, p: int)
    requires p > 3 && A.Affine? && C.Affine? && R.Affine? && N.Affine? && N.x == C.x && !Opposite(R, N, p)
    requires 0 <= A.x < p && 0 <= A.y < p && Line(s, A.x, A.y, C.x, C.y, R.x, R.y, p) && Cong(Slope(R, N, p), -s, p)
    ensures Add(R, N, p) == A
  {
    var t := Slope(R, N, p);
    Back(s, t, A.x, A.y, C.x, C.y, R.x, R.y, p);
    Same(t * t - R.x - N.x, A.x, p);
    Same(t * (R.x - A.x) - R.y, A.y, p);
  }

  lemma Same(x: int, r: int, p: int)
    requires p > 0 && Cong(x, r, p) && 0 <= r < p
    ensures x % p == r
  {
    ModUnique(r, 0, r, p);
  }

  /** The sum of two points and their line. */
  lemma SumLine(A: Point, C: Point, p: int, b: int)
    requires Field(p) && OnCurve(A, p, b) && OnCurve(C, p, b) && A.Affine? && C.Affine? && !Opposite(A, C, p)
    ensures
      var R := Add(A, C, p);
      R.Affine? && Line(Slope(A, C, p), A.x, A.y, C.x, C.y, R.x, R.y, p)
  {
    var R, s := Add(A, C, p), Slope(A, C, p);
    SlopeEquation(A, C, p, b);
    if A.x == C.x { assert s * (C.x - A.x) == 0; }
    CongMod(s * s - A.x - C.x, p);
    CongMod(s * (A.x - R.x) - A.y, p);
  }

  // ------------------------------------------------------------ the line meets the second point once

  lemma SlopeApart(A: Point, C: Point, R: Point, N: Point, s: int, p: int, b: int)
    requires Field(p) && OnCurve(R, p, b) && OnCurve(N, p, b) && A.Affine? && C.Affine? && R.Affine? && N.Affine?
    requires N.x == C.x && Cong(N.y, -C.y, p) && R.x != N.x && Line(s, A.x, A.y, C.x, C.y, R.x, R.y, p)
    ensures Cong(Slope(R, N, p), -s, p)
  {
    SlopeEquation(R, N, p, b);
    Through(s, A.x, A.y, C.x, C.y, R.x, R.y, p);
    ChordBack(s, Slope(R, N, p), C.x - R.x, C.y, R.y, N.y, p);
  }

  lemma ChordBack(s: int, t: int, d: int, y2: int, r: int, n: int, p: int)
    requires Prime(p) && !Cong(d, 0, p) && Cong(n, -y2, p) && Cong(s * d, r + y2, p) && Cong(t * d, n - r, p)
    ensures Cong(t, -s, p)
  {
    CongAdd(n, -y2, r, r, p);
    CongAdd(t * d, n - r, s * d, r + y2, p);
    CongAdd(n - r, -y2 - r, r + y2, r + y2, p);
    assert t * d + s * d == (t + s) * d;
    Opposites(t, s, d, p);
  }

  lemma Opposites(t: int, s: int, d: int, p: int)
    requires Prime(p) && Cong((t + s) * d, 0, p) && !Cong(d, 0, p)
    ensures Cong(t, -s, p)
  {
    Euclid(p, t + s, d);
    CongAdd(t + s, 0, s, s, p);
  }

  // ------------------------------------------------------------ the line is the tangent there

  lemma SlopeTangent(A: Point, C: Point, R: Point, s: int, p: int, b: int)
    requires Field(p) && OnCurve(R, p, b) && A.Affine? && C.Affine? && R.Affine? && R.x == C.x && Cong(R.y, -C.y, p)
    requires Cong(s * (2 * C.y), 3 * C.x * C.x - 3, p) && !Cong(2 * C.y, 0, p)
    ensures !Opposite(R, R, p) && Cong(Slope(R, R, p), -s, p)
  {
    DoubleApart(C.y, R.y, p);
    assert R.y + R.y == 2 * R.y;
    SlopeEquation(R, R, p, b);
    TangentBack(s, Slope(R, R, p), C.y, R.y, 3 * C.x * C.x - 3, p);
  }

  lemma DoubleApart(y2: int, r: int, p: int)
    requires p > 0 && Cong(r, -y2, p) && !Cong(2 * y2, 0, p)
    ensures !Cong(2 * r, 0, p)
  {
    CongMul(2, 2, r, -y2, p);
    CongAdd(0, 0, 2 * r, 2 * (-y2), p);
    if Cong(2 * r, 0, p) { CongAdd(0, 0, 2 * r, 0, p); }
  }

  lemma TangentBack(s: int, t: int, y2: int, r: int, w: int, p: int)
    requires Prime(p) && Cong(r, -y2, p) && !Cong(2 * r, 0, p) && Cong(s * (2 * y2), w, p) && Cong(t * (2 * r), w, p)
    ensures Cong(t, -s, p)
  {
    CongMul(2, 2, r, -y2, p);
    CongMul(s, s, 2 * r, 2 * (-y2), p);
    assert s * (2 * (-y2)) == -(s * (2 * y2));
    CongAdd(0, 0, s * (2 * y2), w, p);
    CongAdd(t * (2 * r), w, s * (2 * r), -w, p);
    assert t * (2 * r) + s * (2 * r) == (t + s) * (2 * r);
    Opposites(t, s, 2 * r, p);
  }

  /** A chord through the second point that meets it again is the tangent there. */
  lemma DoubleRoot(A: Point, C: Point, R: Point, s: int, p: int, b: int)
    requires Field(p) && OnCurve(A, p, b) && OnCurve(C, p, b) && A.Affine? && C.Affine? && R.Affine?
    requires A.x != C.x && R.x == C.x && Line(s, A.x, A.y, C.x, C.y, R.x, R.y, p)
    ensures Cong(s * (2 * C.y), 3 * C.x * C.x - 3, p)
  {
    var u, w := A.x - C.x, 3 * C.x * C.x - 3;
    CongDifference(A.x, C.x, p);
    CongAdd(0, 0, s * (C.x - A.x), C.y - A.y, p);
    assert 0 - s * (C.x - A.x) == s * u;
    ChordCoefficient(s, C.x, C.y, u, A.y, p, b);
    CongAdd(R.x, s * s - A.x - C.x, C.x, C.x, p);
    CongMul(u, u, s * s - A.x - C.x - C.x, 0, p);
    assert s * s - 3 * C.x - u == s * s - A.x - C.x - C.x;
    assert Linear(s, C.x, C.y) == w - s * (2 * C.y) by { assert 2 * s * C.y == s * (2 * C.y); }
    CongAdd(w - s * (2 * C.y), 0, s * (2 * C.y), s * (2 * C.y), p);
  }

  /** A root of the derivative is not on the axis. */
  lemma NotSingular(C: Point, p: int, b: int)
    requires Field(p) && Nonsingular(p, b) && OnCurve(C, p, b) && C.Affine? && Cong(3 * C.x * C.x - 3, 0, p)
    ensures !Cong(2 * C.y, 0, p)
  {
    if Cong(2 * C.y, 0, p) {
      Axis(C.y, p);
      UnitSquare(C.x, p);
      CongMul(C.y, 0, C.y, 0, p);
      SingularSquare(C.x, p, b);
    }
  }

  lemma Axis(y: int, p: int)
    requires Field(p) && Cong(2 * y, 0, p)
    ensures Cong(y, 0, p)
  {
    CongZero(2, p);
    Euclid(p, 2, y);
  }

  lemma UnitSquare(x: int, p: int)
    requires Field(p) && Cong(3 * x * x - 3, 0, p)
    ensures Cong(x * x, 1, p)
  {
    CongZero(3, p);
    assert 3 * (x * x - 1) == 3 * x * x - 3;
    Euclid(p, 3, x * x - 1);
    CongAdd(x * x - 1, 0, 1, 1, p);
  }

  lemma SingularSquare(x: int, p: int, b: int)
    requires p > 0 && Cong(x * x, 1, p) && Cong(Cubic(x, b), 0, p)
    ensures Cong(b * b, 4, p)
  {
    CongMul(x * x, 1, x, x, p);
    CongAdd(Cubic(x, b), 0, x * x * x, x, p);
    CongAdd(Cubic(x, b) - x * x * x, -x, 3 * x, 3 * x, p);
    assert Cubic(x, b) - x * x * x + 3 * x == b && -x + 3 * x == 2 * x;
    CongMul(b, 2 * x, b, 2 * x, p);
    assert (2 * x) * (2 * x) == 4 * (x * x);
    CongMul(4, 4, x * x, 1, p);
  }

  lemma TangentThere(A: Point, C: Point, R: Point, s: int, p: int, b: int)
    requires Field(p) && Nonsingular(p, b) && OnCurve(A, p, b) && OnCurve(C, p, b) && A.Affine? && C.Affine? && R.Affine?
    requires !Opposite(A, C, p) && s == Slope(A, C, p) && R.x == C.x && Line(s, A.x, A.y, C.x, C.y, R.x, R.y, p)
    ensures Cong(s * (2 * C.y), 3 * C.x * C.x - 3, p) && !Cong(2 * C.y, 0, p)
  {
    SlopeEquation(A, C, p, b);
    if A.x == C.x {
      assert C.y + C.y == 2 * C.y;
    } else {
      DoubleRoot(A, C, R, s, p, b);
      if Cong(2 * C.y, 0, p) {
        CongMul(s, s, 2 * C.y, 0, p);
        NotSingular(C, p, b);
      }
    }
  }

  // ------------------------------------------------------------ the law

  lemma CancelsFinite(A: Point, C: Point, p: int, b: int)
    requires Field(p) && Nonsingular(p, b) && OnCurve(A, p, b) && OnCurve(C, p, b)
    requires A.Affine? && C.Affine? && !Opposite(A, C, p)
    ensures Add(Add(A, C, p), Negative(C, p), p) == A
  {
    var R, N, s := Add(A, C, p), Negative(C, p), Slope(A, C, p);
    SumLine(A, C, p, b);
    Closed(A, C, p, b);
    NegativeOnCurve(C, p, b);
    CongMod(0 - C.y, p);
    if R.x != N.x {
      SlopeApart(A, C, R, N, s, p, b);
    } else {
      Through(s, A.x, A.y, C.x, C.y, R.x, R.y, p);
      assert s * (C.x - R.x) == 0;
      CongAdd(0, R.y + C.y, C.y, C.y, p);
      CongEqual(R.y, N.y, p);
      TangentThere(A, C, R, s, p, b);
      SlopeTangent(A, C, R, s, p, b);
    }
    SumBack(A, C, R, N, s, p);
  }

  lemma CancelsOpposite(A: Point, C: Point, p: int, b: int)
    requires Field(p) && OnCurve(A, p, b) && OnCurve(C, p, b) && A.Affine? && C.Affine? && Opposite(A, C, p)
    ensures Negative(C, p) == A
  {
    CongAdd(A.y + C.y, 0, C.y, C.y, p);
    Same(0 - C.y, A.y, p);
  }

  /** Taking a point away again, for all points of a curve without a singular point: no hypothesis on the group law. */
  lemma Cancels(A: Point, C: Point, p: int, b: int)
    requires Field(p) && Nonsingular(p, b) && OnCurve(A, p, b) && OnCurve(C, p, b)
    ensures Add(Add(A, C, p), Negative(C, p), p) == A
  {
    NegativeOnCurve(C, p, b);
    if A.Affine? && C.Affine? {
      if Opposite(A, C, p) { CancelsOpposite(A, C, p, b); } else { CancelsFinite(A, C, p, b); }
    }
  }

  // ------------------------------------------------------------ and only there

  /** The singular point of a singular curve, (1, 0) or (-1, 0), and the point of the curve two steps from it. */
  lemma SingularPoints(p: int, b: int) returns (x0: int, A: Point, C: Point)
    requires Field(p) && !Nonsingular(p, b)
    ensures (x0 == 1 || x0 == -1) && A.Affine? && C.Affine? && OnCurve(A, p, b) && OnCurve(C, p, b)
    ensures C == Affine(x0 % p, 0) && A == Affine((1 - 2 * x0) % p, (1 - 3 * x0) % p)
  {
    assert (b - 2) * (b + 2) == b * b - 4;
    CongAdd(b * b, 4, 4, 4, p);
    Euclid(p, b - 2, b + 2);
    x0 := if Cong(b - 2, 0, p) then 1 else -1;
    CongAdd(if x0 == 1 then b - 2 else b + 2, 0, 2 * x0, 2 * x0, p);
    C, A := Affine(x0 % p, 0), Affine((1 - 2 * x0) % p, (1 - 3 * x0) % p);
    OnSingular(x0, 0, x0, p, b);
    OnSingular(1 - 2 * x0, 1 - 3 * x0, x0, p, b);
    ModUnique(0, 0, 0, p);
  }

  lemma OnSingular(x: int, y: int, x0: int, p: int, b: int)
    requires p > 0 && (x0 == 1 || x0 == -1) && Cong(b, 2 * x0, p) && y * y == Cubic(x, 2 * x0)
    ensures OnCurve(Affine(x % p, y % p), p, b)
  {
    CongMod(x, p);
    CongMod(y, p);
    CongMul(y % p, y, y % p, y, p);
    CubicCong(x % p, x, p, b);
    CongAdd(x * x * x - 3 * x, x * x * x - 3 * x, b, 2 * x0, p);
  }

  /** Where the curve is singular the law fails. */
  lemma SingularFails(p: int, b: int) returns (A: Point, C: Point)
    requires Field(p) && !Nonsingular(p, b)
    ensures OnCurve(A, p, b) && OnCurve(C, p, b) && Add(Add(A, C, p), Negative(C, p), p) != A
  {
    var x0;
    x0, A, C := SingularPoints(p, b);
    SingularSum(x0, A, C, p, b);
    Same(0 - C.y, 0, p);
  }

  lemma SingularSum(x0: int, A: Point, C: Point, p: int, b: int)
    requires Field(p) && (x0 == 1 || x0 == -1) && OnCurve(A, p, b) && OnCurve(C, p, b)
    requires C == Affine(x0 % p, 0) && A == Affine((1 - 2 * x0) % p, (1 - 3 * x0) % p)
    ensures Add(A, C, p) == C && Opposite(C, C, p)
  {
    var s, d := Slope(A, C, p), 3 * x0 - 1;
    Apart(x0, p);
    CongMod(x0, p);
    CongMod(1 - 2 * x0, p);
    CongMod(1 - 3 * x0, p);
    CongAdd(C.x, x0, A.x, 1 - 2 * x0, p);
    SlopeEquation(A, C, p, b);
    CongMul(s, s, C.x - A.x, d, p);
    CongAdd(0, 0, A.y, 1 - 3 * x0, p);
    CongAdd(s * d, d, d, d, p);
    assert s * d - d == (s + -1) * d;
    Opposites(s, -1, d, p);
    UnitSlope(s, x0, A, C, p);
  }

  lemma Apart(x0: int, p: int)
    requires Field(p) && (x0 == 1 || x0 == -1)
    ensures !Cong(3 * x0 - 1, 0, p)
  {
    CongZero(2, p);
    if x0 == -1 && Cong(-4, 0, p) {
      CongAdd(0, 0, -4, 0, p);
      Axis(2, p);
    }
  }

  lemma UnitSlope(s: int, x0: int, A: Point, C: Point, p: int)
    requires p > 3 && (x0 == 1 || x0 == -1) && C == Affine(x0 % p, 0) && A == Affine((1 - 2 * x0) % p, (1 - 3 * x0) % p)
    requires s == Slope(A, C, p) && Cong(s, 1, p) && !Opposite(A, C, p)
    ensures Add(A, C, p) == C && Opposite(C, C, p)
  {
    CongMod(x0, p);
    CongMod(1 - 2 * x0, p);
    CongMod(1 - 3 * x0, p);
    CongMul(s, 1, s, 1, p);
    CongAdd(s * s, 1, A.x, 1 - 2 * x0, p);
    CongAdd(s * s - A.x, 2 * x0, C.x, x0, p);
    Same(s * s - A.x - C.x, C.x, p);
    CongAdd(A.x, 1 - 2 * x0, C.x, x0, p);
    CongMul(s, 1, A.x - C.x, 1 - 3 * x0, p);
    CongAdd(s * (A.x - C.x), 1 - 3 * x0, A.y, 1 - 3 * x0, p);
    Same(s * (A.x - C.x) - A.y, 0, p);
  }

  /** The curve of SM2 is not singular. */
  lemma Sm2Nonsingular()
    ensures Nonsingular(Sm2Field.P, RingSignature.B)
  {
  }
}
