/** The group of the curve y^2 = x^3 - 3x + b over the field of p elements, for any prime
    p > 3 and any b (the source fixes SM2_P and SM2_B): chord, tangent and closure. */
module Curve {
  import opened Modular

  datatype Point = Infinity | Affine(x: int, y: int)

  function Cubic(x: int, b: int): int { x * x * x - 3 * x + b }

  ghost predicate OnCurve(A: Point, p: int, b: int)
    requires p > 0
  {
    A.Affine? ==> 0 <= A.x < p && 0 <= A.y < p && Cong(A.y * A.y, Cubic(A.x, b), p)
  }

  ghost predicate Field(p: int) { Prime(p) && p > 3 }

  /** The inverse of a non-zero field element, by Fermat's exponent. */
  function Inverse(x: int, p: int): int
    requires p > 3
  {
    Power(x, p - 2) % p
  }

  /** The slope of the tangent at A (for equal x) or of the chord through A and C. */
  ghost function Slope(A: Point, C: Point, p: int): int
    requires A.Affine? && C.Affine? && p > 3
  {
    if A.x == C.x then MMul(3 * A.x * A.x - 3, Inverse(2 * A.y, p), p)
    else MMul(C.y - A.y, Inverse(C.x - A.x, p), p)
  }

  /** The two lines with no third intersection: through opposite points. */
  ghost predicate Opposite(A: Point, C: Point, p: int)
    requires A.Affine? && C.Affine? && p > 3
  {
    A.x == C.x && Cong(A.y + C.y, 0, p)
  }

  /** The group law. */
  ghost function Add(A: Point, C: Point, p: int): Point
    requires p > 3
  {
    if A.Infinity? then C
    else if C.Infinity? then A
    else if Opposite(A, C, p) then Infinity
    else
      var s := Slope(A, C, p);
      var x3 := (s * s - A.x - C.x) % p;
      Affine(x3, (s * (A.x - x3) - A.y) % p)
  }

  lemma InverseCancels(x: int, p: int)
    requires Field(p) && !Cong(x, 0, p)
    ensures Cong(x * Inverse(x, p), 1, p)
  {
    FermatInverse(x, p);
    CongMod(Power(x, p - 2), p);
    CongMul(x, x, Inverse(x, p), Power(x, p - 2), p);
  }

  lemma Quotient(num: int, den: int, q: int, p: int)
    requires Field(p) && !Cong(den, 0, p) && q == MMul(num, Inverse(den, p), p)
    ensures Cong(q * den, num, p)
  {
    var i := Inverse(den, p);
    InverseCancels(den, p);
    CongMod(num * i, p);
    CongMul(q, num * i, den, den, p);
    CongMul(num, num, den * i, 1, p);
    assert (num * i) * den == num * (den * i);
  }

  /** The equation that the slope of a tangent or chord satisfies. */
  lemma SlopeEquation(A: Point, C: Point, p: int, b: int)
    requires Field(p) && OnCurve(A, p, b) && OnCurve(C, p, b) && A.Affine? && C.Affine?
    requires !Opposite(A, C, p)
    ensures A.x == C.x ==> A == C && Cong(Slope(A, C, p) * (2 * A.y), 3 * A.x * A.x - 3, p)
    ensures A.x != C.x ==> !Cong(C.x - A.x, 0, p) && Cong(Slope(A, C, p) * (C.x - A.x), C.y - A.y, p)
  {
    if A.x == C.x {
      SameX(A, C, p, b);
      assert 2 * A.y == A.y + C.y;
      Quotient(3 * A.x * A.x - 3, 2 * A.y, Slope(A, C, p), p);
    } else {
      CongDifference(C.x, A.x, p);
      Quotient(C.y - A.y, C.x - A.x, Slope(A, C, p), p);
    }
  }

  /** Two points of the curve with the same x are equal or opposite. */
  lemma SameX(A: Point, C: Point, p: int, b: int)
    requires Field(p) && OnCurve(A, p, b) && OnCurve(C, p, b) && A.Affine? && C.Affine? && A.x == C.x
    ensures A == C || Opposite(A, C, p)
  {
    var k := Cubic(A.x, b);
    CongAdd(A.y * A.y, k, C.y * C.y, k, p);
    assert (A.y - C.y) * (A.y + C.y) == A.y * A.y - C.y * C.y;
    Euclid(p, A.y - C.y, A.y + C.y);
    CongDifference(A.y, C.y, p);
  }

  // ------------------------------------------------------------ closure

  /** The curve along the line of slope s through (x1, y1), u to the right of x1. */
  ghost function OnLine(s: int, x1: int, y1: int, b: int, u: int): int {
    Cubic(x1 + u, b) - (s * u + y1) * (s * u + y1)
  }

  /** The linear coefficient of that cubic in u, whose roots add up to s^2 - 3 x1. */
  ghost function Linear(s: int, x1: int, y1: int): int {
    3 * x1 * x1 - 3 - 2 * s * y1
  }

  lemma CubicInU(s: int, x1: int, y1: int, b: int, u: int)
    ensures OnLine(s, x1, y1, b, u)
         == u * (u * u + (3 * x1 - s * s) * u + Linear(s, x1, y1)) + (Cubic(x1, b) - y1 * y1)
  {
    CubicShift(x1, u, b);
    var v, w := u * u + 3 * x1 * u + 3 * x1 * x1 - 3, s * s * u + 2 * s * y1;
    assert u * u + (3 * x1 - s * s) * u + Linear(s, x1, y1) == v - w by {
      assert (3 * x1 - s * s) * u == 3 * x1 * u - s * s * u;
    }
    LineSquare(s, u, y1);
    assert u * (v - w) == u * v - u * w;
  }

  lemma LineSquare(s: int, u: int, y: int)
    ensures (s * u + y) * (s * u + y) == u * (s * s * u + 2 * s * y) + y * y
  {
    var t := s * u;
    assert (t + y) * (t + y) == t * t + 2 * (t * y) + y * y;
    assert t * t == u * (s * s * u);
    assert t * y == u * (s * y);
    assert u * (s * s * u + 2 * (s * y)) == u * (s * s * u) + 2 * (u * (s * y));
  }

  lemma CubicShift(x: int, u: int, b: int)
    ensures Cubic(x + u, b) == u * (u * u + 3 * x * u + 3 * x * x - 3) + Cubic(x, b)
  {
    var q := (x + u) * (x + u);
    assert q == x * x + 2 * x * u + u * u;
    assert q * (x + u) == x * x * x + u * (u * u + 3 * x * u + 3 * x * x);
  }

  /** When u2 is a root so is u3 = s^2 - 3 x1 - u2: the line meets the curve a third time. */
  lemma ThirdRoot(s: int, x1: int, y1: int, u2: int, u3: int, p: int, b: int)
    requires p > 0 && Cong(y1 * y1, Cubic(x1, b), p) && u3 == s * s - 3 * x1 - u2
    requires Cong(Linear(s, x1, y1), u2 * u3, p)
    ensures Cong(OnLine(s, x1, y1, b, u3), 0, p)
  {
    var c, w := Linear(s, x1, y1), u2 * u3;
    CubicInU(s, x1, y1, b, u3);
    assert u3 * u3 + (3 * x1 - s * s) * u3 + c == c - w by {
      assert 3 * x1 - s * s == -u2 - u3;
      assert (-u2 - u3) * u3 == -w - u3 * u3;
    }
    CongAdd(c, w, w, w, p);
    CongMul(u3, u3, c - w, 0, p);
    CongAdd(Cubic(x1, b), y1 * y1, y1 * y1, y1 * y1, p);
    CongAdd(u3 * (c - w), 0, Cubic(x1, b) - y1 * y1, 0, p);
  }

  /** For a chord the second intersection fixes the linear coefficient. */
  lemma ChordCoefficient(s: int, x1: int, y1: int, u2: int, y2: int, p: int, b: int)
    requires Prime(p) && !Cong(u2, 0, p) && Cong(s * u2, y2 - y1, p)
    requires Cong(y1 * y1, Cubic(x1, b), p) && Cong(y2 * y2, Cubic(x1 + u2, b), p)
    ensures Cong(Linear(s, x1, y1), u2 * (s * s - 3 * x1 - u2), p)
  {
    var c, f0 := Linear(s, x1, y1), Cubic(x1, b) - y1 * y1;
    var v := u2 * u2 + (3 * x1 - s * s) * u2 + c;
    CubicInU(s, x1, y1, b, u2);
    SecondPoint(s, x1, y1, u2, y2, p, b);
    CongAdd(Cubic(x1, b), y1 * y1, y1 * y1, y1 * y1, p);
    CongAdd(u2 * v + f0, 0, f0, 0, p);
    Euclid(p, u2, v);
    var w := u2 * (s * s - 3 * x1 - u2);
    assert v == c - w by {
      assert w == (s * s - 3 * x1) * u2 - u2 * u2;
    }
    CongAdd(v, 0, w, w, p);
  }

  lemma SecondPoint(s: int, x1: int, y1: int, u2: int, y2: int, p: int, b: int)
    requires p > 0 && Cong(s * u2, y2 - y1, p) && Cong(y2 * y2, Cubic(x1 + u2, b), p)
    ensures Cong(OnLine(s, x1, y1, b, u2), 0, p)
  {
    var t := s * u2 + y1;
    CongAdd(s * u2, y2 - y1, y1, y1, p);
    CongMul(t, y2, t, y2, p);
    CongAdd(Cubic(x1 + u2, b), y2 * y2, t * t, y2 * y2, p);
  }

  /** The third intersection, reflected in the x axis and reduced modulo p. */
  lemma Reflected(s: int, x1: int, y1: int, u3: int, x3: int, y3: int, p: int, b: int)
    requires p > 0 && Cong(OnLine(s, x1, y1, b, u3), 0, p)
    requires Cong(x3, x1 + u3, p) && Cong(y3, s * (x1 - x3) - y1, p)
    ensures Cong(y3 * y3, Cubic(x3, b), p)
  {
    var x, t := x1 + u3, s * u3 + y1;
    CubicCong(x3, x, p, b);
    CongAdd(x1, x1, x3, x, p);
    assert x1 - x == -u3;
    CongMul(s, s, x1 - x3, -u3, p);
    assert s * (-u3) - y1 == -t;
    CongAdd(s * (x1 - x3), s * (-u3), y1, y1, p);
    CongMul(y3, -t, y3, -t, p);
    assert (-t) * (-t) == t * t;
    CongAdd(OnLine(s, x1, y1, b, u3), 0, t * t, t * t, p);
  }

  lemma CubicCong(x: int, x': int, p: int, b: int)
    requires p > 0 && Cong(x, x', p)
    ensures Cong(Cubic(x, b), Cubic(x', b), p)
  {
    CongMul(x, x', x, x', p);
    CongMul(x * x, x' * x', x, x', p);
    CongMul(3, 3, x, x', p);
    CongAdd(x * x * x, x' * x' * x', 3 * x, 3 * x', p);
    CongAdd(x * x * x - 3 * x, x' * x' * x' - 3 * x', b, b, p);
  }

  /** The group law stays on the curve. */
  lemma Closed(A: Point, C: Point, p: int, b: int)
    requires Field(p) && OnCurve(A, p, b) && OnCurve(C, p, b)
    ensures OnCurve(Add(A, C, p), p, b)
  {
    if A.Affine? && C.Affine? && !Opposite(A, C, p) {
      var R, s, u2 := Add(A, C, p), Slope(A, C, p), C.x - A.x;
      SlopeEquation(A, C, p, b);
      var u3 := s * s - 3 * A.x - u2;
      if u2 == 0 {
        TangentCoefficient(s, A.x, A.y, u3, p);
      } else {
        ChordCoefficient(s, A.x, A.y, u2, C.y, p, b);
      }
      ThirdRoot(s, A.x, A.y, u2, u3, p, b);
      CongMod(s * s - A.x - C.x, p);
      CongMod(s * (A.x - R.x) - A.y, p);
      Reflected(s, A.x, A.y, u3, R.x, R.y, p, b);
    }
  }

  lemma TangentCoefficient(s: int, x1: int, y1: int, u3: int, p: int)
    requires p > 0 && Cong(s * (2 * y1), 3 * x1 * x1 - 3, p)
    ensures Cong(Linear(s, x1, y1), 0 * u3, p)
  {
    var t := 3 * x1 * x1 - 3;
    assert 2 * s * y1 == s * (2 * y1);
    CongAdd(t, s * (2 * y1), s * (2 * y1), s * (2 * y1), p);
  }
}
