/** Multiples of a generator of prime order: what the algorithms over the group of the curve use. */
module Scalars {
  import opened Modular
  import opened Curve
  import opened PointMul

  /** A curve and a point G on it of prime order n. */
  datatype Params = Params(p: int, b: int, n: int, G: Point)

  /** G has order n: its multiples vanish exactly at the multiples of n. */
  ghost predicate Good(c: Params) {
    Field(c.p) && Prime(c.n) && OnCurve(c.G, c.p, c.b) && Associative(c.p, c.b) &&
    forall k: nat :: VanishesAt(c, k)
  }

  ghost predicate VanishesAt(c: Params, k: nat)
    requires c.p > 3 && c.n > 1
  {
    Multiple(k, c.G, c.p) == Infinity <==> k % c.n == 0
  }

  /** k G */
  ghost function TimesG(c: Params, k: nat): Point
    requires Good(c)
  {
    Multiple(k, c.G, c.p)
  }

  lemma OnIt(c: Params, k: nat)
    requires Good(c)
    ensures OnCurve(TimesG(c, k), c.p, c.b)
  {
    MultipleOnCurve(k, c.G, c.p, c.b);
  }

  lemma Sum(c: Params, j: nat, k: nat)
    requires Good(c)
    ensures Add(TimesG(c, j), TimesG(c, k), c.p) == TimesG(c, j + k)
  {
    MultipleAdd(j, k, c.G, c.p, c.b);
  }

  lemma Vanishes(c: Params, k: nat)
    requires Good(c)
    ensures TimesG(c, k) == Infinity <==> k % c.n == 0
  {
    assert VanishesAt(c, k);
  }

  /** A multiple of a multiple. */
  lemma {:induction false} MultipleOfMultiple(c: Params, j: nat, k: nat)
    requires Good(c)
    ensures j * k >= 0 && Multiple(j, TimesG(c, k), c.p) == TimesG(c, j * k)
  {
    if j > 0 {
      MultipleOfMultiple(c, j - 1, k);
      Sum(c, (j - 1) * k, k);
      assert (j - 1) * k + k == j * k;
    }
  }

  /** Adding a multiple of n changes nothing. */
  lemma Periodic(c: Params, k: nat, q: nat)
    requires Good(c)
    ensures q * c.n >= 0 && TimesG(c, k + q * c.n) == TimesG(c, k)
  {
    ModShift(0, q, c.n);
    ModUnique(0, 0, 0, c.n);
    Vanishes(c, q * c.n);
    Sum(c, k, q * c.n);
  }

  lemma SameResidue(c: Params, j: nat, k: nat)
    requires Good(c) && Cong(j, k, c.n)
    ensures TimesG(c, j) == TimesG(c, k)
  {
    Reduce(c, j);
    Reduce(c, k);
  }

  lemma Reduce(c: Params, j: nat)
    requires Good(c)
    ensures TimesG(c, j) == TimesG(c, j % c.n)
  {
    Periodic(c, j % c.n, j / c.n);
    assert j == j % c.n + (j / c.n) * c.n;
  }

  /** The multiples of G have the same x coordinate exactly for equal and opposite scalars. */
  lemma SameAbscissa(c: Params, j: nat, k: nat)
    requires Good(c) && j % c.n != 0 && k % c.n != 0
    ensures TimesG(c, j).Affine? && TimesG(c, k).Affine?
    ensures TimesG(c, j).x == TimesG(c, k).x ==> TimesG(c, j) == TimesG(c, k) || (j + k) % c.n == 0
  {
    Vanishes(c, j);
    Vanishes(c, k);
    OnIt(c, j);
    OnIt(c, k);
    if TimesG(c, j).x == TimesG(c, k).x {
      SameX(TimesG(c, j), TimesG(c, k), c.p, c.b);
      Sum(c, j, k);
      Vanishes(c, j + k);
    }
  }

  lemma NonZeroProduct(t: int, d: int, n: int)
    requires Prime(n) && t % n != 0 && d % n != 0
    ensures (t * d) % n != 0
  {
    ModUnique(0, 0, 0, n);
    if Cong(t * d, 0, n) { Euclid(n, t, d); }
  }

  /** Scalars below n that give the same multiple are equal. */
  lemma Injective(c: Params, j: nat, k: nat)
    requires Good(c) && j <= k < c.n && TimesG(c, j) == TimesG(c, k)
    ensures j == k
  {
    var d := k - j;
    OnIt(c, j);
    Sum(c, c.n - j, j);
    Sum(c, c.n - j, k);
    ModUnique(c.n, 1, 0, c.n);
    Vanishes(c, c.n);
    Periodic(c, d, 1);
    Vanishes(c, d);
    ModUnique(d, 0, d, c.n);
    assert (c.n - j) + k == d + 1 * c.n && (c.n - j) + j == c.n;
  }

  /** sm2_jacobian_point_neg on affine coordinates. */
  ghost function Negative(A: Point, p: int): Point
    requires p > 3
  {
    if A.Infinity? then Infinity else Affine(A.x, MSub(0, A.y, p))
  }

  lemma NegativeOnCurve(A: Point, p: int, b: int)
    requires Field(p) && OnCurve(A, p, b)
    ensures OnCurve(Negative(A, p), p, b) && Add(A, Negative(A, p), p) == Infinity
  {
    if A.Affine? {
      var y := MSub(0, A.y, p);
      CongMod(0 - A.y, p);
      CongMul(y, -A.y, y, -A.y, p);
      assert (-A.y) * (-A.y) == A.y * A.y;
      CongAdd(A.y, A.y, y, -A.y, p);
    }
  }

  /** Taking a multiple away again. */
  lemma Subtract(c: Params, j: nat, k: nat)
    requires Good(c)
    ensures Add(TimesG(c, j + k), Negative(TimesG(c, k), c.p), c.p) == TimesG(c, j)
  {
    Sum(c, j, k);
    OnIt(c, j);
    OnIt(c, k);
    NegativeOnCurve(TimesG(c, k), c.p, c.b);
    assert Associates(TimesG(c, j), TimesG(c, k), Negative(TimesG(c, k), c.p), c.p);
  }
}
