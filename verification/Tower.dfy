/** The tower of sm9_alg.c over any commutative ring R: Fp2 = R[u] with u^2 = -2, Fp4 = Fp2[v]
    with v^2 = u and Fp12 = Fp4[w] with w^3 = v. */
module Tower {
  import opened Ring

  datatype Quad<T> = Quad(x0: T, x1: T)

  /** R[x] with x^2 = d; inv is the reciprocal that the extension comes with. */
  function QuadRing<T>(R: Ring<T>, d: T, inv: Quad<T> -> Quad<T>): Ring<Quad<T>> {
    Ring(
      Group(Quad(R.Zero(), R.Zero()),
            (a: Quad<T>, b: Quad<T>) => Quad(R.Add(a.x0, b.x0), R.Add(a.x1, b.x1)),
            (a: Quad<T>) => Quad(R.Neg(a.x0), R.Neg(a.x1))),
      Group(Quad(R.One(), R.Zero()), (a: Quad<T>, b: Quad<T>) => QuadMul(R, d, a, b), inv))
  }

  function QuadMul<T>(R: Ring<T>, d: T, a: Quad<T>, b: Quad<T>): Quad<T> {
    Quad(R.Add(R.Mul(a.x0, b.x0), R.Mul(d, R.Mul(a.x1, b.x1))), R.Add(R.Mul(a.x0, b.x1), R.Mul(a.x1, b.x0)))
  }

  /** A quadratic extension of a commutative ring is a commutative ring. */
  lemma QuadIsRing<T(!new)>(R: Ring<T>, d: T, inv: Quad<T> -> Quad<T>)
    requires IsRing(R)
    ensures IsRing(QuadRing(R, d, inv))
  {
    var Q := QuadRing(R, d, inv);
    forall a: Quad<T>, b: Quad<T>, c: Quad<T> ensures MonoidAt(Q.plus, a, b, c) {
      MonoidLaws(R.plus, a.x0, b.x0, c.x0);
      MonoidLaws(R.plus, a.x1, b.x1, c.x1);
    }
    forall a: Quad<T> ensures InverseAt(Q.plus, a) {
      assert InverseAt(R.plus, a.x0) && InverseAt(R.plus, a.x1);
    }
    forall a: Quad<T>, b: Quad<T>, c: Quad<T> ensures MonoidAt(Q.times, a, b, c) {
      QuadAssoc(R, d, a, b, c);
      QuadCommutes(R, d, a, b);
      QuadOne(R, d, a);
    }
    forall a: Quad<T>, b: Quad<T>, c: Quad<T> ensures DistributesAt(Q, a, b, c) {
      QuadDistributes(R, d, a, b, c);
    }
  }

  lemma QuadCommutes<T(!new)>(R: Ring<T>, d: T, a: Quad<T>, b: Quad<T>)
    requires IsRing(R)
    ensures QuadMul(R, d, a, b) == QuadMul(R, d, b, a)
  {
    Commutes(R, a.x0, b.x0); Commutes(R, a.x1, b.x1);
    Commutes(R, a.x0, b.x1); Commutes(R, a.x1, b.x0);
    MonoidLaws(R.plus, R.Mul(a.x0, b.x1), R.Mul(a.x1, b.x0), R.Zero());
  }

  lemma QuadOne<T(!new)>(R: Ring<T>, d: T, a: Quad<T>)
    requires IsRing(R)
    ensures QuadMul(R, d, a, Quad(R.One(), R.Zero())) == a
  {
    MulZero(R, a.x0); MulZero(R, a.x1); MulZero(R, d);
    MonoidLaws(R.times, a.x0, a.x0, a.x0);
    MonoidLaws(R.times, a.x1, a.x1, a.x1);
    SubSelf(R, a.x0); SubSelf(R, a.x1);
  }

  lemma QuadDistributes<T(!new)>(R: Ring<T>, d: T, a: Quad<T>, b: Quad<T>, c: Quad<T>)
    requires IsRing(R)
    ensures QuadMul(R, d, a, Quad(R.Add(b.x0, c.x0), R.Add(b.x1, c.x1)))
         == Quad(R.Add(QuadMul(R, d, a, b).x0, QuadMul(R, d, a, c).x0), R.Add(QuadMul(R, d, a, b).x1, QuadMul(R, d, a, c).x1))
  {
    Distributes(R, a.x0, b.x0, c.x0); Distributes(R, a.x1, b.x1, c.x1);
    Distributes(R, a.x0, b.x1, c.x1); Distributes(R, a.x1, b.x0, c.x0);
    Distributes(R, d, R.Mul(a.x1, b.x1), R.Mul(a.x1, c.x1));
    Interchange(R.plus, R.Mul(a.x0, b.x0), R.Mul(a.x0, c.x0), R.Mul(d, R.Mul(a.x1, b.x1)), R.Mul(d, R.Mul(a.x1, c.x1)));
    Interchange(R.plus, R.Mul(a.x0, b.x1), R.Mul(a.x0, c.x1), R.Mul(a.x1, b.x0), R.Mul(a.x1, c.x0));
  }

  /** Both components of a (b c) are sums of four products. */
  lemma QuadAssoc<T(!new)>(R: Ring<T>, d: T, a: Quad<T>, b: Quad<T>, c: Quad<T>)
    requires IsRing(R)
    ensures QuadMul(R, d, QuadMul(R, d, a, b), c) == QuadMul(R, d, a, QuadMul(R, d, b, c))
  {
    QuadTriple(R, d, a, b, c);
    QuadCommutes(R, d, QuadMul(R, d, a, b), c);
    QuadTriple(R, d, c, a, b);
    var f := (x: T, y: T, z: T) => R.Mul(x, R.Mul(y, z));
    Rotate(R, c.x0, a.x0, b.x0); Rotate(R, c.x0, a.x1, b.x1); Rotate(R, c.x1, a.x0, b.x1); Rotate(R, c.x1, a.x1, b.x0);
    Rotate(R, c.x0, a.x0, b.x1); Rotate(R, c.x0, a.x1, b.x0); Rotate(R, c.x1, a.x0, b.x0); Rotate(R, c.x1, a.x1, b.x1);
    Identity(R.plus,
      [f(a.x0, b.x0, c.x0), R.Mul(d, f(a.x0, b.x1, c.x1)), R.Mul(d, f(a.x1, b.x0, c.x1)), R.Mul(d, f(a.x1, b.x1, c.x0))],
      Op(Op(Leaf(0), Leaf(3)), Op(Leaf(1), Leaf(2))), Op(Op(Leaf(0), Leaf(1)), Op(Leaf(2), Leaf(3))));
    Identity(R.plus,
      [f(a.x0, b.x0, c.x1), f(a.x0, b.x1, c.x0), f(a.x1, b.x0, c.x0), R.Mul(d, f(a.x1, b.x1, c.x1))],
      Op(Op(Leaf(1), Leaf(2)), Op(Leaf(0), Leaf(3))), Op(Op(Leaf(0), Leaf(1)), Op(Leaf(2), Leaf(3))));
  }

  /** z (x y) = x (y z). */
  lemma Rotate<T(!new)>(R: Ring<T>, z: T, x: T, y: T)
    requires IsRing(R)
    ensures R.Mul(z, R.Mul(x, y)) == R.Mul(x, R.Mul(y, z))
  {
    Identity(R.times, [x, y, z], Op(Leaf(2), Op(Leaf(0), Leaf(1))), Op(Leaf(0), Op(Leaf(1), Leaf(2))));
  }

  lemma QuadTriple<T(!new)>(R: Ring<T>, d: T, a: Quad<T>, b: Quad<T>, c: Quad<T>)
    requires IsRing(R)
    ensures var f := (x: T, y: T, z: T) => R.Mul(x, R.Mul(y, z));
      QuadMul(R, d, a, QuadMul(R, d, b, c)) == Quad(
        R.Add(R.Add(f(a.x0, b.x0, c.x0), R.Mul(d, f(a.x0, b.x1, c.x1))),
              R.Add(R.Mul(d, f(a.x1, b.x0, c.x1)), R.Mul(d, f(a.x1, b.x1, c.x0)))),
        R.Add(R.Add(f(a.x0, b.x0, c.x1), f(a.x0, b.x1, c.x0)),
              R.Add(f(a.x1, b.x0, c.x0), R.Mul(d, f(a.x1, b.x1, c.x1)))))
  {
    var p, q := R.Mul(b.x1, c.x1), R.Mul(d, R.Mul(b.x1, c.x1));
    Distributes(R, a.x0, R.Mul(b.x0, c.x0), q);
    MulSwap(R, a.x0, d, p);
    Distributes(R, a.x1, R.Mul(b.x0, c.x1), R.Mul(b.x1, c.x0));
    Distributes(R, d, R.Mul(a.x1, R.Mul(b.x0, c.x1)), R.Mul(a.x1, R.Mul(b.x1, c.x0)));
    Distributes(R, a.x0, R.Mul(b.x0, c.x1), R.Mul(b.x1, c.x0));
    Distributes(R, a.x1, R.Mul(b.x0, c.x0), q);
    MulSwap(R, a.x1, d, p);
  }

  // ------------------------------------------------------------ Fp2

  ghost predicate IsField<T(!new)>(R: Ring<T>) {
    IsRing(R) && R.One() != R.Zero() && forall x :: x != R.Zero() ==> InverseAt(R.times, x)
  }

  lemma NoZeroDivisors<T(!new)>(R: Ring<T>, x: T, y: T)
    requires IsField(R) && R.Mul(x, y) == R.Zero() && x != R.Zero()
    ensures y == R.Zero()
  {
    assert InverseAt(R.times, x);
    var i := R.Recip(x);
    Identity(R.times, [x, y, i], Op(Leaf(1), Op(Leaf(0), Leaf(2))), Op(Op(Leaf(0), Leaf(1)), Leaf(2)));
    MonoidLaws(R.times, y, y, y);
    MulZero(R, i);
  }

  function MinusTwo<T>(R: Ring<T>): T { R.Neg(R.Dbl(R.One())) }

  function Fp2Mul<T>(R: Ring<T>, a: Quad<T>, b: Quad<T>): Quad<T> {
    var r0 := R.Sub(R.Mul(a.x0, b.x0), R.Dbl(R.Mul(a.x1, b.x1)));
    var r1 := R.Add(R.Mul(a.x0, b.x1), R.Mul(a.x1, b.x0));
    Quad(r0, r1)
  }

  function Fp2MulU<T>(R: Ring<T>, a: Quad<T>, b: Quad<T>): Quad<T> {
    var r0 := R.Neg(R.Dbl(R.Add(R.Mul(a.x0, b.x1), R.Mul(a.x1, b.x0))));
    var r1 := R.Sub(R.Mul(a.x0, b.x0), R.Dbl(R.Mul(a.x1, b.x1)));
    Quad(r0, r1)
  }

  function Fp2Sqr<T>(R: Ring<T>, a: Quad<T>): Quad<T> {
    var r0 := R.Sub(R.Mul(a.x0, a.x0), R.Dbl(R.Mul(a.x1, a.x1)));
    var r1 := R.Dbl(R.Mul(a.x0, a.x1));
    Quad(r0, r1)
  }

  function Fp2SqrU<T>(R: Ring<T>, a: Quad<T>): Quad<T> {
    var r0 := R.Neg(R.Dbl(R.Dbl(R.Mul(a.x0, a.x1))));
    var r1 := R.Sub(R.Mul(a.x0, a.x0), R.Dbl(R.Mul(a.x1, a.x1)));
    Quad(r0, r1)
  }

  /** sm9_fp2_a_mul_u: multiplication by u. */
  function Fp2TimesU<T>(R: Ring<T>, a: Quad<T>): Quad<T> {
    Quad(R.Neg(R.Dbl(a.x1)), a.x0)
  }

  function Fp2Inv<T(==)>(R: Ring<T>, a: Quad<T>): Quad<T> {
    if a.x0 == R.Zero() then
      Quad(R.Zero(), R.Neg(R.Recip(R.Dbl(a.x1))))
    else if a.x1 == R.Zero() then
      Quad(R.Recip(a.x0), R.Zero())
    else
      var k := R.Recip(R.Add(R.Mul(a.x0, a.x0), R.Dbl(R.Mul(a.x1, a.x1))));
      Quad(R.Mul(a.x0, k), R.Neg(R.Mul(a.x1, k)))
  }

  function Fp2Ring<T(==)>(R: Ring<T>): Ring<Quad<T>> {
    QuadRing(R, MinusTwo(R), (a: Quad<T>) => Fp2Inv(R, a))
  }

  function U<T>(R: Ring<T>): Quad<T> { Quad(R.Zero(), R.One()) }

  lemma TimesMinusTwo<T(!new)>(R: Ring<T>, x: T)
    requires IsRing(R)
    ensures R.Mul(MinusTwo(R), x) == R.Neg(R.Dbl(x))
  {
    MulNeg(R, x, R.Dbl(R.One()));
    MulDbl(R, x, R.One());
    MonoidLaws(R.times, x, x, x);
  }

  /** The code's products are those of R[u] with u^2 = -2. */
  lemma Fp2Products<T(!new)>(R: Ring<T>, a: Quad<T>, b: Quad<T>)
    requires IsRing(R)
    ensures var S := Fp2Ring(R);
      IsRing(S) &&
      Fp2Mul(R, a, b) == S.Mul(a, b) && Fp2MulU(R, a, b) == S.Mul(U(R), S.Mul(a, b)) &&
      Fp2Sqr(R, a) == S.Mul(a, a) && Fp2SqrU(R, a) == S.Mul(U(R), S.Mul(a, a)) &&
      Fp2TimesU(R, a) == S.Mul(U(R), a)
  {
    QuadIsRing(R, MinusTwo(R), (a: Quad<T>) => Fp2Inv(R, a));
    TimesMinusTwo(R, R.Mul(a.x1, b.x1));
    TimesMinusTwo(R, R.Mul(a.x1, a.x1));
    Commutes(R, a.x0, a.x1);
    TimesUIs(R, a);
    TimesUIs(R, Fp2Mul(R, a, b));
    TimesUIs(R, Fp2Mul(R, a, a));
  }

  lemma TimesUIs<T(!new)>(R: Ring<T>, a: Quad<T>)
    requires IsRing(R)
    ensures Fp2TimesU(R, a) == Fp2Ring(R).Mul(U(R), a)
  {
    MulZero(R, a.x0); MulZero(R, a.x1);
    MonoidLaws(R.times, a.x0, R.One(), R.One());
    MonoidLaws(R.times, a.x1, R.One(), R.One());
    Commutes(R, R.One(), a.x0); Commutes(R, R.One(), a.x1);
    TimesMinusTwo(R, a.x1);
    SubSelf(R, R.Neg(R.Dbl(a.x1)));
    SubSelf(R, a.x0);
  }

  function Norm2<T>(R: Ring<T>, a: Quad<T>): T {
    R.Add(R.Mul(a.x0, a.x0), R.Dbl(R.Mul(a.x1, a.x1)))
  }

  /** sm9_fp2_inv: all three branches invert, whenever the norm is not zero. */
  lemma Fp2Inverse<T(!new)>(R: Ring<T>, a: Quad<T>)
    requires IsField(R) && Norm2(R, a) != R.Zero()
    ensures InverseAt(Fp2Ring(R).times, a)
  {
    var z, r := R.Zero(), Fp2Inv(R, a);
    Fp2Products(R, a, r);
    MulZero(R, a.x0); MulZero(R, a.x1); MulZero(R, r.x0); MulZero(R, r.x1);
    SubSelf(R, z);
    if a.x0 == z {
      var d := R.Dbl(a.x1);
      MulDbl(R, a.x1, a.x1);
      SubSelf(R, R.Mul(a.x1, d));
      assert InverseAt(R.times, d);
      var i := R.Recip(d);
      MulNeg(R, a.x1, i);
      Commutes(R, i, d); Commutes(R, i, a.x1);
      MulDbl(R, i, a.x1);
      NegDblNeg(R, R.Mul(a.x1, i));
    } else if a.x1 == z {
      SubSelf(R, R.Mul(a.x0, a.x0));
      assert InverseAt(R.times, a.x0);
      SubSelf(R, R.Mul(a.x0, R.Recip(a.x0)));
    } else {
      assert InverseAt(R.times, Norm2(R, a));
      NormTimes(R, a, R.Recip(Norm2(R, a)));
    }
  }

  /** 0 - 2 (-x) = x + x. */
  lemma NegDblNeg<T(!new)>(R: Ring<T>, x: T)
    requires IsRing(R)
    ensures R.Sub(R.Zero(), R.Dbl(R.Neg(x))) == R.Dbl(x)
  {
    Identity(R.plus, [x], Inv(Op(Inv(Leaf(0)), Inv(Leaf(0)))), Op(Leaf(0), Leaf(0)));
    SubSelf(R, R.Neg(R.Dbl(R.Neg(x))));
  }

  /** (a0 + a1 u) (a0 k - a1 k u) = (a0^2 + 2 a1^2) k. */
  lemma NormTimes<T(!new)>(R: Ring<T>, a: Quad<T>, k: T)
    requires IsRing(R)
    ensures Fp2Mul(R, a, Quad(R.Mul(a.x0, k), R.Neg(R.Mul(a.x1, k)))) == Quad(R.Mul(Norm2(R, a), k), R.Zero())
  {
    var s, t := R.Mul(a.x0, a.x0), R.Mul(a.x1, a.x1);
    MulNeg(R, a.x1, R.Mul(a.x1, k));
    MulNeg(R, a.x0, R.Mul(a.x1, k));
    MonoidLaws(R.times, a.x0, a.x0, k);
    MonoidLaws(R.times, a.x1, a.x1, k);
    MulSwap(R, a.x0, a.x1, k);
    Distributes(R, k, s, R.Dbl(t));
    MulDbl(R, k, t);
    Commutes(R, k, s); Commutes(R, k, t); Commutes(R, k, Norm2(R, a));
    var p, q, m := R.Mul(s, k), R.Mul(t, k), R.Mul(a.x1, R.Mul(a.x0, k));
    Identity(R.plus, [p, q],
      Op(Leaf(0), Inv(Op(Inv(Leaf(1)), Inv(Leaf(1))))), Op(Leaf(0), Op(Leaf(1), Leaf(1))));
    SubSelf(R, m);
    MonoidLaws(R.plus, m, R.Neg(m), m);
  }

  /** Only elements of non-zero norm have an inverse. */
  lemma InvertibleNorm<T(!new)>(R: Ring<T>, a: Quad<T>, b: Quad<T>)
    requires IsField(R) && Fp2Ring(R).Mul(a, b) == Fp2Ring(R).One()
    ensures Norm2(R, a) != R.Zero()
  {
    var S := Fp2Ring(R);
    var c := Quad(R.Mul(a.x0, R.One()), R.Neg(R.Mul(a.x1, R.One())));
    Fp2Products(R, a, c);
    NormTimes(R, a, R.One());
    MulZero(R, R.One());
    if Norm2(R, a) == R.Zero() {
      Commutes(S, a, c);
      MonoidLaws(S.times, c, a, b);
      MulZero(S, b);
      MonoidLaws(R.times, a.x0, a.x0, a.x0);
      MonoidLaws(R.times, a.x1, a.x1, a.x1);
      assert InverseAt(R.plus, a.x1);
      SubSelf(R, a.x1);
    }
  }

  // ------------------------------------------------------------ Fp4

  function Fp4Mul<T(==)>(R: Ring<T>, a: Quad<Quad<T>>, b: Quad<Quad<T>>): Quad<Quad<T>> {
    var S := Fp2Ring(R);
    var r0 := S.Add(Fp2Mul(R, a.x0, b.x0), Fp2MulU(R, a.x1, b.x1));
    var r1 := S.Add(Fp2Mul(R, a.x0, b.x1), Fp2Mul(R, a.x1, b.x0));
    Quad(r0, r1)
  }

  function Fp4MulV<T(==)>(R: Ring<T>, a: Quad<Quad<T>>, b: Quad<Quad<T>>): Quad<Quad<T>> {
    var S := Fp2Ring(R);
    var r0 := S.Add(Fp2MulU(R, a.x0, b.x1), Fp2MulU(R, a.x1, b.x0));
    var r1 := S.Add(Fp2Mul(R, a.x0, b.x0), Fp2MulU(R, a.x1, b.x1));
    Quad(r0, r1)
  }

  function Fp4Sqr<T(==)>(R: Ring<T>, a: Quad<Quad<T>>): Quad<Quad<T>> {
    var S := Fp2Ring(R);
    var r0 := S.Add(Fp2Sqr(R, a.x0), Fp2SqrU(R, a.x1));
    var r1 := S.Dbl(Fp2Mul(R, a.x0, a.x1));
    Quad(r0, r1)
  }

  function Fp4SqrV<T(==)>(R: Ring<T>, a: Quad<Quad<T>>): Quad<Quad<T>> {
    var S := Fp2Ring(R);
    var r0 := S.Dbl(Fp2MulU(R, a.x0, a.x1));
    var r1 := S.Add(Fp2Sqr(R, a.x0), Fp2SqrU(R, a.x1));
    Quad(r0, r1)
  }

  /** sm9_fp4_a_mul_v: multiplication by v. */
  function Fp4TimesV<T>(R: Ring<T>, a: Quad<Quad<T>>): Quad<Quad<T>> {
    Quad(Fp2TimesU(R, a.x1), a.x0)
  }

  /** sm9_fp4_div2, from a halving of R. */
  function Fp4Half<T>(half: T -> T, a: Quad<Quad<T>>): Quad<Quad<T>> {
    Quad(Quad(half(a.x0.x0), half(a.x0.x1)), Quad(half(a.x1.x0), half(a.x1.x1)))
  }

  function Norm4<T(==)>(R: Ring<T>, a: Quad<Quad<T>>): Quad<T> {
    Fp2Ring(R).Sub(Fp2SqrU(R, a.x1), Fp2Sqr(R, a.x0))
  }

  function Fp4Inv<T(==)>(R: Ring<T>, a: Quad<Quad<T>>): Quad<Quad<T>> {
    var S := Fp2Ring(R);
    var k := Fp2Inv(R, Norm4(R, a));
    Quad(S.Neg(Fp2Mul(R, a.x0, k)), Fp2Mul(R, a.x1, k))
  }

  function Fp4Ring<T(==)>(R: Ring<T>): Ring<Quad<Quad<T>>> {
    QuadRing(Fp2Ring(R), U(R), (a: Quad<Quad<T>>) => Fp4Inv(R, a))
  }

  function V<T(==)>(R: Ring<T>): Quad<Quad<T>> { Quad(Fp2Ring(R).Zero(), Fp2Ring(R).One()) }

  /** The code's products are those of Fp2[v] with v^2 = u. */
  lemma Fp4Products<T(!new)>(R: Ring<T>, a: Quad<Quad<T>>, b: Quad<Quad<T>>)
    requires IsRing(R)
    ensures var Q := Fp4Ring(R);
      IsRing(Q) &&
      Fp4Mul(R, a, b) == Q.Mul(a, b) && Fp4MulV(R, a, b) == Q.Mul(V(R), Q.Mul(a, b)) &&
      Fp4Sqr(R, a) == Q.Mul(a, a) && Fp4SqrV(R, a) == Q.Mul(V(R), Q.Mul(a, a)) &&
      Fp4TimesV(R, a) == Q.Mul(V(R), a)
  {
    var S := Fp2Ring(R);
    Fp4MulIs(R, a, b);
    Fp4MulIs(R, a, a);
    Fp2Products(R, a.x0, a.x1);
    Fp2Products(R, a.x1, a.x0);
    Commutes(S, a.x0, a.x1);
    QuadIsRing(S, U(R), (a: Quad<Quad<T>>) => Fp4Inv(R, a));
    TimesVIs(R, a);
    TimesVIs(R, Fp4Mul(R, a, b));
    TimesVIs(R, Fp4Mul(R, a, a));
    Fp2Products(R, a.x0, b.x1);
    Fp2Products(R, a.x1, b.x0);
    Distributes(S, U(R), S.Mul(a.x0, b.x1), S.Mul(a.x1, b.x0));
    MulDbl(S, U(R), S.Mul(a.x0, a.x1));
    Fp2Products(R, Fp4Mul(R, a, b).x1, a.x0);
    Fp2Products(R, Fp4Mul(R, a, a).x1, a.x0);
  }

  lemma Fp4MulIs<T(!new)>(R: Ring<T>, a: Quad<Quad<T>>, b: Quad<Quad<T>>)
    requires IsRing(R)
    ensures Fp4Mul(R, a, b) == Fp4Ring(R).Mul(a, b)
  {
    Fp2Products(R, a.x0, b.x0);
    Fp2Products(R, a.x1, b.x1);
    Fp2Products(R, a.x0, b.x1);
    Fp2Products(R, a.x1, b.x0);
  }

  lemma TimesVIs<T(!new)>(R: Ring<T>, a: Quad<Quad<T>>)
    requires IsRing(R)
    ensures Fp4TimesV(R, a) == Fp4Ring(R).Mul(V(R), a)
  {
    var S := Fp2Ring(R);
    Fp2Products(R, a.x1, a.x1);
    MulZero(S, a.x0); MulZero(S, a.x1);
    Commutes(S, S.One(), a.x0); Commutes(S, S.One(), a.x1);
    MonoidLaws(S.times, a.x0, a.x0, a.x0);
    MonoidLaws(S.times, a.x1, a.x1, a.x1);
    SubSelf(S, a.x0);
    SubSelf(S, Fp2TimesU(R, a.x1));
  }

  /** sm9_fp4_inv inverts whenever the norm u a1^2 - a0^2 is invertible in Fp2. */
  lemma Fp4Inverse<T(!new)>(R: Ring<T>, a: Quad<Quad<T>>)
    requires IsRing(R) && InverseAt(Fp2Ring(R).times, Norm4(R, a))
    ensures InverseAt(Fp4Ring(R).times, a)
  {
    var S, n := Fp2Ring(R), Norm4(R, a);
    var k := S.Recip(n);
    Fp2Products(R, a.x0, k);
    Fp2Products(R, a.x1, k);
    Fp2Products(R, a.x0, a.x0);
    Fp2Products(R, a.x1, a.x1);
    var s, t, m := S.Mul(a.x0, a.x0), S.Mul(U(R), S.Mul(a.x1, a.x1)), S.Mul(a.x0, S.Mul(a.x1, k));
    MulNeg(S, a.x0, S.Mul(a.x0, k));
    MulNeg(S, a.x1, S.Mul(a.x0, k));
    MonoidLaws(S.times, a.x0, a.x0, k);
    MonoidLaws(S.times, a.x1, a.x1, k);
    MonoidLaws(S.times, U(R), S.Mul(a.x1, a.x1), k);
    MulSub(S, k, t, s);
    Commutes(S, k, t); Commutes(S, k, s); Commutes(S, k, n);
    MonoidLaws(S.plus, S.Neg(S.Mul(s, k)), S.Mul(t, k), m);
    MulSwap(S, a.x1, a.x0, k);
    SubSelf(S, m);
  }
}

/** The cubic layer: Fp12 = Fp4[w] with w^3 = v. */
module Fp12 {
  import opened Ring
  import opened Tower

  datatype Cubic<X> = Cubic(x0: X, x1: X, x2: X)

  /** Multiply the polynomials in w, then replace w^3 by v and w^4 by v w. */
  ghost function CubicMul<X>(Q: Ring<X>, v: X, a: Cubic<X>, b: Cubic<X>): Cubic<X> {
    var w0 := Q.Mul(a.x0, b.x0);
    var w1 := Q.Add(Q.Mul(a.x0, b.x1), Q.Mul(a.x1, b.x0));
    var w2 := Q.Add(Q.Add(Q.Mul(a.x0, b.x2), Q.Mul(a.x1, b.x1)), Q.Mul(a.x2, b.x0));
    var w3 := Q.Add(Q.Mul(a.x1, b.x2), Q.Mul(a.x2, b.x1));
    var w4 := Q.Mul(a.x2, b.x2);
    Cubic(Q.Add(w0, Q.Mul(v, w3)), Q.Add(w1, Q.Mul(v, w4)), w2)
  }

  ghost function One<X>(Q: Ring<X>): Cubic<X> { Cubic(Q.One(), Q.Zero(), Q.Zero()) }

  ghost function Zero12<X>(Q: Ring<X>): Cubic<X> { Cubic(Q.Zero(), Q.Zero(), Q.Zero()) }

  // ------------------------------------------------------------ the three-square formula

  /** (x + y + z)^2 and (x + y - z)^2 in terms of the six products. */
  lemma SquareTrinomials<X(!new)>(Q: Ring<X>, x: X, y: X, z: X)
    requires IsRing(Q)
    ensures var s := Q.Add(Q.Add(Q.Mul(x, x), Q.Dbl(Q.Mul(x, y))), Q.Mul(y, y));
      var t := Q.Dbl(Q.Add(Q.Mul(x, z), Q.Mul(y, z)));
      var p, m := Q.Add(Q.Add(x, y), z), Q.Sub(Q.Add(x, y), z);
      Q.Mul(p, p) == Q.Add(Q.Add(s, t), Q.Mul(z, z)) && Q.Mul(m, m) == Q.Add(Q.Sub(s, t), Q.Mul(z, z))
  {
    SquareSum(Q, Q.Add(x, y), z);
    SquareSum(Q, x, y);
    Distributes(Q, z, x, y);
    Commutes(Q, z, x); Commutes(Q, z, y); Commutes(Q, z, Q.Add(x, y));
  }

  /** From half the sum of the two squares, the three coefficients of the square of
      a0 + a1 w + a2 w^2. */
  lemma ThreeSquares<X(!new)>(Q: Ring<X>, v: X, h: X, a: Cubic<X>, s0: X, s1: X, s2: X, s3: X)
    requires IsRing(Q) && Q.Dbl(h) == Q.One()
    requires var s := Q.Add(a.x2, a.x0); var p, m := Q.Add(s, a.x1), Q.Sub(s, a.x1);
      s0 == Q.Mul(p, p) && s1 == Q.Mul(m, m)
    requires s2 == Q.Dbl(Q.Mul(a.x1, a.x2)) && Q.Dbl(s3) == Q.Add(s0, s1)
    ensures var h0, h1 := Q.Mul(a.x0, a.x0), Q.Mul(a.x2, a.x2);
      CubicMul(Q, v, a, a) == Cubic(
        Q.Add(h0, Q.Mul(v, s2)),
        Q.Sub(Q.Sub(Q.Add(Q.Mul(v, h1), s0), s2), s3),
        Q.Sub(Q.Sub(s3, h1), h0))
  {
    var a0, a1, a2 := a.x0, a.x1, a.x2;
    SquareTrinomials(Q, a2, a0, a1);
    Commutes(Q, a0, a1); Commutes(Q, a0, a2); Commutes(Q, a1, a2);
    var A, B, C, D, E, F := Q.Mul(a0, a0), Q.Mul(a1, a1), Q.Mul(a2, a2), Q.Mul(a0, a1), Q.Mul(a0, a2), Q.Mul(a1, a2);
    HalfSum(Q, h, A, B, C, D, E, F, s0, s1, s3);
    SquareParts(Q, A, B, C, D, E, F, Q.Mul(v, C));
  }

  lemma HalfSum<X(!new)>(Q: Ring<X>, h: X, A: X, B: X, C: X, D: X, E: X, F: X, s0: X, s1: X, s3: X)
    requires IsRing(Q) && Q.Dbl(h) == Q.One() && Q.Dbl(s3) == Q.Add(s0, s1)
    requires var s := Q.Add(Q.Add(C, Q.Dbl(E)), A); var t := Q.Dbl(Q.Add(F, D));
      s0 == Q.Add(Q.Add(s, t), B) && s1 == Q.Add(Q.Sub(s, t), B)
    ensures s3 == Q.Add(Q.Add(Q.Add(C, Q.Dbl(E)), A), B)
  {
    var s, t := Q.Add(Q.Add(C, Q.Dbl(E)), A), Q.Dbl(Q.Add(F, D));
    Identity(Q.plus, [s, t, B],
      Op(Op(Op(Leaf(0), Leaf(1)), Leaf(2)), Op(Op(Leaf(0), Inv(Leaf(1))), Leaf(2))),
      Op(Op(Leaf(0), Leaf(2)), Op(Leaf(0), Leaf(2))));
    CancelTwo(Q, h, s3, Q.Add(s, B));
  }

  lemma SquareParts<X(!new)>(Q: Ring<X>, A: X, B: X, C: X, D: X, E: X, F: X, G: X)
    requires IsRing(Q)
    ensures var s3 := Q.Add(Q.Add(Q.Add(C, Q.Dbl(E)), A), B);
      var s0 := Q.Add(Q.Add(Q.Add(Q.Add(C, Q.Dbl(E)), A), Q.Dbl(Q.Add(F, D))), B);
      Q.Sub(Q.Sub(s3, C), A) == Q.Add(Q.Add(E, B), E) &&
      Q.Sub(Q.Sub(Q.Add(G, s0), Q.Dbl(F)), s3) == Q.Add(Q.Add(D, D), G)
  {
    SquarePart2(Q, A, B, C, E);
    SquarePart1(Q, Q.Add(Q.Add(C, Q.Dbl(E)), A), B, D, F, G);
  }

  lemma SquarePart2<X(!new)>(Q: Ring<X>, A: X, B: X, C: X, E: X)
    requires IsRing(Q)
    ensures Q.Sub(Q.Sub(Q.Add(Q.Add(Q.Add(C, Q.Dbl(E)), A), B), C), A) == Q.Add(Q.Add(E, B), E)
  {
    Identity(Q.plus, [A, B, C, E],
      Op(Op(Op(Op(Op(Leaf(2), Op(Leaf(3), Leaf(3))), Leaf(0)), Leaf(1)), Inv(Leaf(2))), Inv(Leaf(0))),
      Op(Op(Leaf(3), Leaf(1)), Leaf(3)));
  }

  lemma SquarePart1<X(!new)>(Q: Ring<X>, s: X, B: X, D: X, F: X, G: X)
    requires IsRing(Q)
    ensures Q.Sub(Q.Sub(Q.Add(G, Q.Add(Q.Add(s, Q.Dbl(Q.Add(F, D))), B)), Q.Dbl(F)), Q.Add(s, B)) == Q.Add(Q.Add(D, D), G)
  {
    Identity(Q.plus, [s, B, D, F, G],
      Op(Op(Op(Leaf(4), Op(Op(Leaf(0), Op(Op(Leaf(3), Leaf(2)), Op(Leaf(3), Leaf(2)))), Leaf(1))), Inv(Op(Leaf(3), Leaf(3)))),
         Inv(Op(Leaf(0), Leaf(1)))),
      Op(Op(Leaf(2), Leaf(2)), Leaf(4)));
  }

  // ------------------------------------------------------------ the inverse

  /** The cofactors t0, t1, t2 that sm9_fp12_inv computes. */
  ghost function T0<X>(Q: Ring<X>, a: Cubic<X>): X { Q.Sub(Q.Mul(a.x1, a.x1), Q.Mul(a.x0, a.x2)) }
  ghost function T1<X>(Q: Ring<X>, v: X, a: Cubic<X>): X { Q.Sub(Q.Mul(a.x0, a.x1), Q.Mul(v, Q.Mul(a.x2, a.x2))) }
  ghost function T2<X>(Q: Ring<X>, v: X, a: Cubic<X>): X { Q.Sub(Q.Mul(a.x0, a.x0), Q.Mul(v, Q.Mul(a.x1, a.x2))) }

  /** a0 t2 + v (a1 t0 - a2 t1): the norm of a from Fp12 to Fp4. */
  ghost function Norm<X>(Q: Ring<X>, v: X, a: Cubic<X>): X {
    Q.Add(Q.Mul(a.x0, T2(Q, v, a)), Q.Mul(v, Q.Sub(Q.Mul(a.x1, T0(Q, a)), Q.Mul(a.x2, T1(Q, v, a)))))
  }

  /** a times its adjoint (t2, -t1, t0) is the norm. */
  lemma Adjoint<X(!new)>(Q: Ring<X>, v: X, a: Cubic<X>)
    requires IsRing(Q)
    ensures CubicMul(Q, v, a, Cubic(T2(Q, v, a), Q.Neg(T1(Q, v, a)), T0(Q, a)))
         == Cubic(Norm(Q, v, a), Q.Zero(), Q.Zero())
  {
    var a0, a1, a2, t0, t1, t2 := a.x0, a.x1, a.x2, T0(Q, a), T1(Q, v, a), T2(Q, v, a);
    MulNeg(Q, a0, t1); MulNeg(Q, a1, t1); MulNeg(Q, a2, t1);
    // w^1: -a0 t1 + a1 t2 + v a2 t0
    MulSub(Q, a0, Q.Mul(a0, a1), Q.Mul(v, Q.Mul(a2, a2)));
    MulSub(Q, a1, Q.Mul(a0, a0), Q.Mul(v, Q.Mul(a1, a2)));
    MulSub(Q, a2, Q.Mul(a1, a1), Q.Mul(a0, a2));
    MulSub(Q, v, Q.Mul(a2, Q.Mul(a1, a1)), Q.Mul(a2, Q.Mul(a0, a2)));
    MulSwap(Q, a1, a0, a0); Commutes(Q, a1, a0);
    MulSwap(Q, a0, v, Q.Mul(a2, a2)); MulSwap(Q, a2, a0, a2);
    MulSwap(Q, a1, v, Q.Mul(a1, a2)); Rotate(Q, a2, a1, a1); Commutes(Q, a1, a2);
    var x, y, z := Q.Mul(a0, Q.Mul(a0, a1)), Q.Mul(v, Q.Mul(a0, Q.Mul(a2, a2))), Q.Mul(v, Q.Mul(a1, Q.Mul(a1, a2)));
    Vanish(Q, x, y, z);
    // w^2: a0 t0 - a1 t1 + a2 t2
    MulSub(Q, a0, Q.Mul(a1, a1), Q.Mul(a0, a2));
    MulSub(Q, a1, Q.Mul(a0, a1), Q.Mul(v, Q.Mul(a2, a2)));
    MulSub(Q, a2, Q.Mul(a0, a0), Q.Mul(v, Q.Mul(a1, a2)));
    MulSwap(Q, a1, a0, a1);
    Rotate(Q, a2, a0, a0);
    MulSwap(Q, a1, v, Q.Mul(a2, a2)); MulSwap(Q, a2, v, Q.Mul(a1, a2)); MulSwap(Q, a2, a1, a2);
    Vanish2(Q, Q.Mul(a0, Q.Mul(a1, a1)), Q.Mul(a0, Q.Mul(a0, a2)), Q.Mul(v, Q.Mul(a1, Q.Mul(a2, a2))));
  }

  lemma Vanish<X(!new)>(Q: Ring<X>, x: X, y: X, z: X)
    requires IsRing(Q)
    ensures Q.Add(Q.Add(Q.Neg(Q.Sub(x, y)), Q.Sub(x, z)), Q.Sub(z, y)) == Q.Zero()
  {
    SubSelf(Q, x);
    Identity(Q.plus, [x, y, z],
      Op(Op(Inv(Op(Leaf(0), Inv(Leaf(1)))), Op(Leaf(0), Inv(Leaf(2)))), Op(Leaf(2), Inv(Leaf(1)))),
      Op(Leaf(0), Inv(Leaf(0))));
  }

  lemma Vanish2<X(!new)>(Q: Ring<X>, x: X, y: X, z: X)
    requires IsRing(Q)
    ensures Q.Add(Q.Add(Q.Sub(x, y), Q.Neg(Q.Sub(x, z))), Q.Sub(y, z)) == Q.Zero()
  {
    SubSelf(Q, x);
    Identity(Q.plus, [x, y, z],
      Op(Op(Op(Leaf(0), Inv(Leaf(1))), Inv(Op(Leaf(0), Inv(Leaf(2))))), Op(Leaf(1), Inv(Leaf(2)))),
      Op(Leaf(0), Inv(Leaf(0))));
  }

  /** The quantity that the general branch inverts, t1^2 - t0 t2, is a2 times the norm. */
  lemma Denominator<X(!new)>(Q: Ring<X>, v: X, a: Cubic<X>)
    requires IsRing(Q)
    ensures Q.Sub(Q.Mul(T1(Q, v, a), T1(Q, v, a)), Q.Mul(T0(Q, a), T2(Q, v, a))) == Q.Mul(a.x2, Norm(Q, v, a))
  {
    var a0, a1, a2, t0, t1, t2 := a.x0, a.x1, a.x2, T0(Q, a), T1(Q, v, a), T2(Q, v, a);
    var x1, x2, y1, y2 := Q.Mul(a0, a1), Q.Mul(v, Q.Mul(a2, a2)), Q.Mul(a1, a1), Q.Mul(a0, a2);
    var z1, z2 := Q.Mul(a0, a0), Q.Mul(v, Q.Mul(a1, a2));
    MulSub(Q, t1, x1, x2); MulSub(Q, t2, y1, y2);
    Commutes(Q, t1, x1); Commutes(Q, t1, x2); Commutes(Q, t2, y1); Commutes(Q, t2, y2); Commutes(Q, t0, t2);
    MulSub(Q, x1, x1, x2); MulSub(Q, y1, z1, z2); MulSub(Q, z2, y1, y2);
    EqualMonomials(Q, v, a0, a1, a2);
    Commutes(Q, z2, y1);
    NormTimesA2(Q, v, a);
    Collapse(Q, Q.Mul(x1, x1), Q.Mul(x1, x2), Q.Mul(y1, z2), Q.Mul(x2, t1), Q.Mul(y2, t2));
  }

  lemma EqualMonomials<X(!new)>(Q: Ring<X>, v: X, a0: X, a1: X, a2: X)
    requires IsRing(Q)
    ensures Q.Mul(Q.Mul(a0, a1), Q.Mul(a0, a1)) == Q.Mul(Q.Mul(a1, a1), Q.Mul(a0, a0))
    ensures Q.Mul(Q.Mul(a0, a1), Q.Mul(v, Q.Mul(a2, a2))) == Q.Mul(Q.Mul(v, Q.Mul(a1, a2)), Q.Mul(a0, a2))
  {
    Identity(Q.times, [a0, a1], Op(Op(Leaf(0), Leaf(1)), Op(Leaf(0), Leaf(1))), Op(Op(Leaf(1), Leaf(1)), Op(Leaf(0), Leaf(0))));
    Identity(Q.times, [a0, a1, a2, v],
      Op(Op(Leaf(0), Leaf(1)), Op(Leaf(3), Op(Leaf(2), Leaf(2)))),
      Op(Op(Leaf(3), Op(Leaf(1), Leaf(2))), Op(Leaf(0), Leaf(2))));
  }

  /** x (y z) = (y x) z and v (x (y z)) = (v (y x)) z. */
  lemma Regroup<X(!new)>(Q: Ring<X>, v: X, x: X, y: X, z: X)
    requires IsRing(Q)
    ensures Q.Mul(x, Q.Mul(y, z)) == Q.Mul(Q.Mul(y, x), z)
    ensures Q.Mul(v, Q.Mul(x, Q.Mul(y, z))) == Q.Mul(Q.Mul(v, Q.Mul(y, x)), z)
  {
    Identity(Q.times, [x, y, z], Op(Leaf(0), Op(Leaf(1), Leaf(2))), Op(Op(Leaf(1), Leaf(0)), Leaf(2)));
    MonoidLaws(Q.times, v, Q.Mul(y, x), z);
  }

  lemma NormTimesA2<X(!new)>(Q: Ring<X>, v: X, a: Cubic<X>)
    requires IsRing(Q)
    ensures Q.Mul(a.x2, Norm(Q, v, a)) == Q.Add(Q.Mul(Q.Mul(a.x0, a.x2), T2(Q, v, a)),
      Q.Sub(Q.Mul(Q.Mul(v, Q.Mul(a.x1, a.x2)), T0(Q, a)), Q.Mul(Q.Mul(v, Q.Mul(a.x2, a.x2)), T1(Q, v, a))))
  {
    var a0, a1, a2, t0, t1, t2 := a.x0, a.x1, a.x2, T0(Q, a), T1(Q, v, a), T2(Q, v, a);
    var m := Q.Sub(Q.Mul(a1, t0), Q.Mul(a2, t1));
    Distributes(Q, a2, Q.Mul(a0, t2), Q.Mul(v, m));
    MulSwap(Q, a2, v, m);
    MulSub(Q, a2, Q.Mul(a1, t0), Q.Mul(a2, t1));
    MulSub(Q, v, Q.Mul(a2, Q.Mul(a1, t0)), Q.Mul(a2, Q.Mul(a2, t1)));
    Regroup(Q, v, a2, a0, t2);
    Regroup(Q, v, a2, a1, t0);
    Regroup(Q, v, a2, a2, t1);
  }

  lemma Collapse<X(!new)>(Q: Ring<X>, p: X, q: X, r: X, s: X, t: X)
    requires IsRing(Q)
    ensures Q.Sub(Q.Sub(Q.Sub(p, q), s), Q.Sub(Q.Sub(p, r), t)) == Q.Add(t, Q.Sub(Q.Sub(r, q), s))
  {
    Identity(Q.plus, [p, q, r, s, t],
      Op(Op(Op(Leaf(0), Inv(Leaf(1))), Inv(Leaf(3))), Inv(Op(Op(Leaf(0), Inv(Leaf(2))), Inv(Leaf(4))))),
      Op(Leaf(4), Op(Op(Leaf(2), Inv(Leaf(1))), Inv(Leaf(3)))));
  }

  ghost function Scale<X>(Q: Ring<X>, a: Cubic<X>, t: X): Cubic<X> {
    Cubic(Q.Mul(a.x0, t), Q.Mul(a.x1, t), Q.Mul(a.x2, t))
  }

  lemma ScaleProduct<X(!new)>(Q: Ring<X>, v: X, a: Cubic<X>, b: Cubic<X>, t: X)
    requires IsRing(Q)
    ensures CubicMul(Q, v, a, Scale(Q, b, t)) == Scale(Q, CubicMul(Q, v, a, b), t)
  {
    var p01, p10 := Q.Mul(a.x0, b.x1), Q.Mul(a.x1, b.x0);
    var p02, p11, p20 := Q.Mul(a.x0, b.x2), Q.Mul(a.x1, b.x1), Q.Mul(a.x2, b.x0);
    var p12, p21, p00, p22 := Q.Mul(a.x1, b.x2), Q.Mul(a.x2, b.x1), Q.Mul(a.x0, b.x0), Q.Mul(a.x2, b.x2);
    MonoidLaws(Q.times, a.x0, b.x0, t); MonoidLaws(Q.times, a.x0, b.x1, t); MonoidLaws(Q.times, a.x0, b.x2, t);
    MonoidLaws(Q.times, a.x1, b.x0, t); MonoidLaws(Q.times, a.x1, b.x1, t); MonoidLaws(Q.times, a.x1, b.x2, t);
    MonoidLaws(Q.times, a.x2, b.x0, t); MonoidLaws(Q.times, a.x2, b.x1, t); MonoidLaws(Q.times, a.x2, b.x2, t);
    RightDistributes(Q, p01, p10, t);
    RightDistributes(Q, p02, p11, t); RightDistributes(Q, Q.Add(p02, p11), p20, t);
    RightDistributes(Q, p12, p21, t);
    MonoidLaws(Q.times, v, Q.Add(p12, p21), t);
    MonoidLaws(Q.times, v, p22, t);
    RightDistributes(Q, p00, Q.Mul(v, Q.Add(p12, p21)), t);
    RightDistributes(Q, Q.Add(p01, p10), Q.Mul(v, p22), t);
  }

  lemma RightDistributes<X(!new)>(Q: Ring<X>, x: X, y: X, t: X)
    requires IsRing(Q)
    ensures Q.Mul(Q.Add(x, y), t) == Q.Add(Q.Mul(x, t), Q.Mul(y, t))
  {
    Distributes(Q, t, x, y);
    Commutes(Q, t, x); Commutes(Q, t, y); Commutes(Q, t, Q.Add(x, y));
  }

  /** Scaling the adjoint by t with norm * t = 1 gives the inverse. */
  lemma AdjointInverse<X(!new)>(Q: Ring<X>, v: X, a: Cubic<X>, t: X)
    requires IsRing(Q) && Q.Mul(Norm(Q, v, a), t) == Q.One()
    ensures CubicMul(Q, v, a, Cubic(Q.Mul(T2(Q, v, a), t), Q.Neg(Q.Mul(T1(Q, v, a), t)), Q.Mul(T0(Q, a), t))) == One(Q)
  {
    Adjoint(Q, v, a);
    ScaleProduct(Q, v, a, Cubic(T2(Q, v, a), Q.Neg(T1(Q, v, a)), T0(Q, a)), t);
    MulNeg(Q, t, T1(Q, v, a));
    Commutes(Q, t, T1(Q, v, a));
    MulZero(Q, t);
  }

  /** The case a2 = 0: the norm is a0^3 + v a1^3, and the cofactors lose their second terms. */
  lemma NormWithoutW2<X(!new)>(Q: Ring<X>, v: X, a: Cubic<X>)
    requires IsRing(Q) && a.x2 == Q.Zero()
    ensures T0(Q, a) == Q.Mul(a.x1, a.x1) && T1(Q, v, a) == Q.Mul(a.x0, a.x1) && T2(Q, v, a) == Q.Mul(a.x0, a.x0)
    ensures Norm(Q, v, a) == Q.Add(Q.Mul(Q.Mul(a.x0, a.x0), a.x0), Q.Mul(Q.Mul(v, Q.Mul(a.x1, a.x1)), a.x1))
  {
    var a0, a1, z := a.x0, a.x1, Q.Zero();
    MulZero(Q, a0); MulZero(Q, a1); MulZero(Q, z); MulZero(Q, v);
    SubSelf(Q, Q.Mul(a1, a1)); SubSelf(Q, Q.Mul(a0, a1)); SubSelf(Q, Q.Mul(a0, a0));
    MulZero(Q, Q.Mul(a0, a1));
    SubSelf(Q, Q.Mul(a1, Q.Mul(a1, a1)));
    Commutes(Q, a0, Q.Mul(a0, a0));
    MonoidLaws(Q.times, v, Q.Mul(a1, a1), a1);
    Commutes(Q, a1, Q.Mul(a1, a1));
  }

  // ------------------------------------------------------------ Fp12 objects

  /** The functions of the layer below, as sm9_fp12_* call them. */
  datatype Operations<!X> = Operations(ring: Ring<X>, v: X,
    mul: (X, X) -> X, mulV: (X, X) -> X, sqr: X -> X, sqrV: X -> X, timesV: X -> X, div2: X -> X, inv: X -> X)

  /** Each of them computes what it is named for. */
  ghost predicate ImplementsAt<X(!new)>(f: Operations<X>, x: X, y: X) {
    var Q := f.ring;
    && f.mul(x, y) == Q.Mul(x, y) && f.mulV(x, y) == Q.Mul(f.v, Q.Mul(x, y))
    && f.sqr(x) == Q.Mul(x, x) && f.sqrV(x) == Q.Mul(f.v, Q.Mul(x, x)) && f.timesV(x) == Q.Mul(f.v, x)
    && Q.Dbl(f.div2(x)) == x && f.inv(x) == Q.Recip(x)
  }

  ghost predicate Implements<X(!new)>(f: Operations<X>) {
    IsRing(f.ring) && forall x, y :: ImplementsAt(f, x, y)
  }

  /** What sm9_fp12_inv inverts in Fp4: the norm, times a2 when that is not zero. */
  ghost function Inverted<X>(Q: Ring<X>, v: X, a: Cubic<X>): X {
    if a.x2 == Q.Zero() then Norm(Q, v, a) else Q.Mul(a.x2, Norm(Q, v, a))
  }

  /** Over a field a norm that is not 0 is all that sm9_fp12_inv needs. */
  lemma InvertedHasInverse<X(!new)>(Q: Ring<X>, v: X, a: Cubic<X>)
    requires IsField(Q) && Norm(Q, v, a) != Q.Zero()
    ensures InverseAt(Q.times, Inverted(Q, v, a))
  {
    if a.x2 != Q.Zero() && Q.Mul(a.x2, Norm(Q, v, a)) == Q.Zero() {
      NoZeroDivisors(Q, a.x2, Norm(Q, v, a));
    }
  }

  /** An sm9_fp12_t: the object that receives a result may be one of the operands. */
  class Element<X(==, !new)> {
    var c0: X
    var c1: X
    var c2: X

    constructor (a: Cubic<X>)
      ensures Value() == a
    {
      c0, c1, c2 := a.x0, a.x1, a.x2;
    }

    ghost function Value(): Cubic<X>
      reads this
    {
      Cubic(c0, c1, c2)
    }

    /** sm9_fp12_mul. */
    method Mul(f: Operations<X>, a: Element<X>, b: Element<X>)
      requires Implements(f)
      modifies this
      ensures Value() == CubicMul(f.ring, f.v, old(a.Value()), old(b.Value()))
    {
      ghost var x, y := a.Value(), b.Value();
      var r0 := f.mul(a.c0, b.c0);
      var t := f.mulV(a.c1, b.c2);
      r0 := f.ring.Add(r0, t);
      t := f.mulV(a.c2, b.c1);
      r0 := f.ring.Add(r0, t);
      var r1 := f.mul(a.c0, b.c1);
      t := f.mul(a.c1, b.c0);
      r1 := f.ring.Add(r1, t);
      t := f.mulV(a.c2, b.c2);
      r1 := f.ring.Add(r1, t);
      var r2 := f.mul(a.c0, b.c2);
      t := f.mul(a.c1, b.c1);
      r2 := f.ring.Add(r2, t);
      t := f.mul(a.c2, b.c0);
      r2 := f.ring.Add(r2, t);
      MulCorrect(f, x, y);
      c0, c1, c2 := r0, r1, r2;
    }

    /** sm9_fp12_sqr: the three-square formula equals multiplication by itself. */
    method Sqr(f: Operations<X>, a: Element<X>)
      requires Implements(f)
      modifies this
      ensures Value() == CubicMul(f.ring, f.v, old(a.Value()), old(a.Value()))
    {
      ghost var x := a.Value();
      var h0 := f.sqr(a.c0);
      var h1 := f.sqr(a.c2);
      var s0 := f.ring.Add(a.c2, a.c0);
      var t := f.ring.Sub(s0, a.c1);
      var s1 := f.sqr(t);
      t := f.ring.Add(s0, a.c1);
      s0 := f.sqr(t);
      var s2 := f.mul(a.c1, a.c2);
      s2 := f.ring.Dbl(s2);
      var s3 := f.ring.Add(s0, s1);
      s3 := f.div2(s3);
      t := f.ring.Sub(s3, h1);
      var h2 := f.ring.Sub(t, h0);
      h1 := f.timesV(h1);
      h1 := f.ring.Add(h1, s0);
      h1 := f.ring.Sub(h1, s2);
      h1 := f.ring.Sub(h1, s3);
      SqrCorrect(f, x, s0, s1, s2, s3);
      s2 := f.timesV(s2);
      h0 := f.ring.Add(h0, s2);
      c0, c1, c2 := h0, h1, h2;
    }

    /** sm9_fp12_inv: both branches invert, also when a is this object, whenever the quantity passed to
        sm9_fp4_inv has an inverse there; over a field, whenever the norm is not 0. Zero gives zero. */
    method Inv(f: Operations<X>, a: Element<X>)
      requires Implements(f)
      modifies this
      ensures InverseAt(f.ring.times, Inverted(f.ring, f.v, old(a.Value()))) ==>
        CubicMul(f.ring, f.v, old(a.Value()), Value()) == One(f.ring)
      ensures IsField(f.ring) && Norm(f.ring, f.v, old(a.Value())) != f.ring.Zero() ==>
        CubicMul(f.ring, f.v, old(a.Value()), Value()) == One(f.ring)
      ensures old(a.Value()) == Zero12(f.ring) ==> Value() == Zero12(f.ring)
    {
      FieldInverse(f, a.Value());
      if a.c2 == f.ring.Zero() {
        InvShort(f, a);
      } else {
        InvLong(f, a);
      }
    }

    method InvShort(f: Operations<X>, a: Element<X>)
      requires Implements(f) && a.c2 == f.ring.Zero()
      modifies this
      ensures Inverts(f, old(a.Value()), Value())
    {
      ghost var x := a.Value();
      var k := f.sqr(a.c0);
      k := f.mul(k, a.c0);
      var t := f.sqrV(a.c1);
      t := f.mul(t, a.c1);
      k := f.ring.Add(k, t);
      k := f.inv(k);
      c2 := f.sqr(a.c1);
      c2 := f.mul(c2, k);
      c1 := f.mul(a.c0, a.c1);
      c1 := f.mul(c1, k);
      c1 := f.ring.Neg(c1);
      c0 := f.sqr(a.c0);
      c0 := f.mul(c0, k);
      ShortInverse(f, x, k);
    }

    method InvLong(f: Operations<X>, a: Element<X>)
      requires Implements(f) && a.c2 != f.ring.Zero()
      modifies this
      ensures Inverts(f, old(a.Value()), Value())
    {
      ghost var x := a.Value();
      var t0 := f.sqr(a.c1);
      var t1 := f.mul(a.c0, a.c2);
      t0 := f.ring.Sub(t0, t1);
      t1 := f.mul(a.c0, a.c1);
      var t2 := f.sqrV(a.c2);
      t1 := f.ring.Sub(t1, t2);
      t2 := f.sqr(a.c0);
      var t3 := f.mulV(a.c1, a.c2);
      t2 := f.ring.Sub(t2, t3);
      Cofactors(f, x);
      t3 := f.sqr(t1);
      c0 := f.mul(t0, t2);
      t3 := f.ring.Sub(t3, c0);
      t3 := f.inv(t3);
      t3 := f.mul(a.c2, t3);
      LongInverse(f, x, t0, t1, t2, t3);
      c0 := f.mul(t2, t3);
      c1 := f.mul(t1, t3);
      c1 := f.ring.Neg(c1);
      c2 := f.mul(t0, t3);
    }
  }

  /** y inverts x if sm9_fp4_inv can; 0 gives 0. */
  ghost predicate Inverts<X(!new)>(f: Operations<X>, x: Cubic<X>, y: Cubic<X>) {
    && (InverseAt(f.ring.times, Inverted(f.ring, f.v, x)) ==> CubicMul(f.ring, f.v, x, y) == One(f.ring))
    && (x == Zero12(f.ring) ==> y == Zero12(f.ring))
  }

  lemma FieldInverse<X(!new)>(f: Operations<X>, x: Cubic<X>)
    ensures IsField(f.ring) && Norm(f.ring, f.v, x) != f.ring.Zero() ==> InverseAt(f.ring.times, Inverted(f.ring, f.v, x))
  {
    if IsField(f.ring) && Norm(f.ring, f.v, x) != f.ring.Zero() { InvertedHasInverse(f.ring, f.v, x); }
  }

  lemma MulCorrect<X(!new)>(f: Operations<X>, a: Cubic<X>, b: Cubic<X>)
    requires Implements(f)
    ensures CubicMul(f.ring, f.v, a, b) == Cubic(
      f.ring.Add(f.ring.Add(f.mul(a.x0, b.x0), f.mulV(a.x1, b.x2)), f.mulV(a.x2, b.x1)),
      f.ring.Add(f.ring.Add(f.mul(a.x0, b.x1), f.mul(a.x1, b.x0)), f.mulV(a.x2, b.x2)),
      f.ring.Add(f.ring.Add(f.mul(a.x0, b.x2), f.mul(a.x1, b.x1)), f.mul(a.x2, b.x0)))
  {
    var Q := f.ring;
    assert ImplementsAt(f, a.x0, b.x0) && ImplementsAt(f, a.x0, b.x1) && ImplementsAt(f, a.x0, b.x2);
    assert ImplementsAt(f, a.x1, b.x0) && ImplementsAt(f, a.x1, b.x1) && ImplementsAt(f, a.x1, b.x2);
    assert ImplementsAt(f, a.x2, b.x0) && ImplementsAt(f, a.x2, b.x1) && ImplementsAt(f, a.x2, b.x2);
    var p, q := Q.Mul(a.x1, b.x2), Q.Mul(a.x2, b.x1);
    Distributes(Q, f.v, p, q);
    MonoidLaws(Q.plus, Q.Mul(a.x0, b.x0), Q.Mul(f.v, p), Q.Mul(f.v, q));
  }

  lemma SqrCorrect<X(!new)>(f: Operations<X>, a: Cubic<X>, s0: X, s1: X, s2: X, s3: X)
    requires Implements(f)
    requires var s := f.ring.Add(a.x2, a.x0);
      s0 == f.sqr(f.ring.Add(s, a.x1)) && s1 == f.sqr(f.ring.Sub(s, a.x1)) &&
      s2 == f.ring.Dbl(f.mul(a.x1, a.x2)) && s3 == f.div2(f.ring.Add(s0, s1))
    ensures var Q, h0, h1 := f.ring, f.sqr(a.x0), f.sqr(a.x2);
      CubicMul(Q, f.v, a, a) == Cubic(
        Q.Add(h0, f.timesV(s2)),
        Q.Sub(Q.Sub(Q.Add(f.timesV(h1), s0), s2), s3),
        Q.Sub(Q.Sub(s3, h1), h0))
  {
    var Q := f.ring;
    var s := Q.Add(a.x2, a.x0);
    assert ImplementsAt(f, Q.Add(s, a.x1), s0) && ImplementsAt(f, Q.Sub(s, a.x1), s1);
    assert ImplementsAt(f, a.x1, a.x2) && ImplementsAt(f, Q.Add(s0, s1), s2) && ImplementsAt(f, Q.One(), s2);
    assert ImplementsAt(f, a.x0, a.x0) && ImplementsAt(f, a.x2, a.x2) && ImplementsAt(f, s2, s2);
    assert ImplementsAt(f, f.sqr(a.x2), s2);
    ThreeSquares(Q, f.v, f.div2(Q.One()), a, s0, s1, s2, s3);
  }

  /** The branch without a2. */
  lemma ShortInverse<X(!new)>(f: Operations<X>, a: Cubic<X>, k: X)
    requires Implements(f) && a.x2 == f.ring.Zero()
    requires k == f.inv(f.ring.Add(f.mul(f.sqr(a.x0), a.x0), f.mul(f.sqrV(a.x1), a.x1)))
    ensures Inverts(f, a, Cubic(f.mul(f.sqr(a.x0), k), f.ring.Neg(f.mul(f.mul(a.x0, a.x1), k)), f.mul(f.sqr(a.x1), k)))
  {
    if a == Zero12(f.ring) { ShortZero(f, k); }
    assert ImplementsAt(f, a.x0, a.x1) && ImplementsAt(f, a.x1, a.x1);
    assert ImplementsAt(f, f.sqr(a.x0), a.x0) && ImplementsAt(f, f.sqrV(a.x1), a.x1);
    NormWithoutW2(f.ring, f.v, a);
    assert ImplementsAt(f, Norm(f.ring, f.v, a), k);
    assert ImplementsAt(f, f.sqr(a.x0), k) && ImplementsAt(f, f.mul(a.x0, a.x1), k) && ImplementsAt(f, f.sqr(a.x1), k);
    if InverseAt(f.ring.times, Inverted(f.ring, f.v, a)) { AdjointInverse(f.ring, f.v, a, k); }
  }

  /** What the branch makes of 0, whatever sm9_fp4_inv makes of it. */
  lemma ShortZero<X(!new)>(f: Operations<X>, k: X)
    requires Implements(f)
    ensures var z := f.ring.Zero();
      Cubic(f.mul(f.sqr(z), k), f.ring.Neg(f.mul(f.mul(z, z), k)), f.mul(f.sqr(z), k)) == Zero12(f.ring)
  {
    var Q, z := f.ring, f.ring.Zero();
    assert ImplementsAt(f, z, z) && ImplementsAt(f, z, k);
    MulZero(Q, z);
    MulZero(Q, k);
    SubSelf(Q, z);
    InverseUnique(Q.plus, z, z);
  }

  lemma Cofactors<X(!new)>(f: Operations<X>, a: Cubic<X>)
    requires Implements(f)
    ensures f.ring.Sub(f.sqr(a.x1), f.mul(a.x0, a.x2)) == T0(f.ring, a)
    ensures f.ring.Sub(f.mul(a.x0, a.x1), f.sqrV(a.x2)) == T1(f.ring, f.v, a)
    ensures f.ring.Sub(f.sqr(a.x0), f.mulV(a.x1, a.x2)) == T2(f.ring, f.v, a)
  {
    assert ImplementsAt(f, a.x1, a.x2) && ImplementsAt(f, a.x0, a.x2);
    assert ImplementsAt(f, a.x0, a.x1) && ImplementsAt(f, a.x2, a.x2);
  }

  /** The general branch: t3 = a2 / (t1^2 - t0 t2) inverts the norm. */
  lemma LongInverse<X(!new)>(f: Operations<X>, a: Cubic<X>, t0: X, t1: X, t2: X, t3: X)
    requires Implements(f) && a.x2 != f.ring.Zero()
    requires t0 == T0(f.ring, a) && t1 == T1(f.ring, f.v, a) && t2 == T2(f.ring, f.v, a)
    requires t3 == f.mul(a.x2, f.inv(f.ring.Sub(f.sqr(t1), f.mul(t0, t2))))
    ensures Inverts(f, a, Cubic(f.mul(t2, t3), f.ring.Neg(f.mul(t1, t3)), f.mul(t0, t3)))
  {
    var Q, n := f.ring, Norm(f.ring, f.v, a);
    var d := Q.Mul(a.x2, n);
    assert ImplementsAt(f, t1, t3) && ImplementsAt(f, t0, t2) && ImplementsAt(f, t2, t3) && ImplementsAt(f, t0, t3);
    Denominator(Q, f.v, a);
    assert ImplementsAt(f, d, d) && ImplementsAt(f, a.x2, f.inv(d));
    Commutes(Q, n, a.x2);
    MonoidLaws(Q.times, n, a.x2, f.inv(d));
    if InverseAt(Q.times, Inverted(Q, f.v, a)) { AdjointInverse(Q, f.v, a, t3); }
  }

  // ------------------------------------------------------------ the operations of Fp4

  ghost predicate HalvesAt<T(!new)>(R: Ring<T>, half: T -> T, x: T) { R.Dbl(half(x)) == x }

  function Fp4Operations<T(==)>(R: Ring<T>, half: T -> T): Operations<Quad<Quad<T>>> {
    Operations(Fp4Ring(R), V(R),
      (a: Quad<Quad<T>>, b: Quad<Quad<T>>) => Fp4Mul(R, a, b),
      (a: Quad<Quad<T>>, b: Quad<Quad<T>>) => Fp4MulV(R, a, b),
      (a: Quad<Quad<T>>) => Fp4Sqr(R, a),
      (a: Quad<Quad<T>>) => Fp4SqrV(R, a),
      (a: Quad<Quad<T>>) => Fp4TimesV(R, a),
      (a: Quad<Quad<T>>) => Fp4Half(half, a),
      (a: Quad<Quad<T>>) => Fp4Inv(R, a))
  }

  /** sm9_fp4_mul, _mul_v, _sqr, _sqr_v, _a_mul_v, _div2 and _inv do so over every commutative
      ring in which 2 can be halved. */
  lemma Fp4Implements<T(!new)>(R: Ring<T>, half: T -> T)
    requires IsRing(R) && forall x :: HalvesAt(R, half, x)
    ensures Implements(Fp4Operations(R, half))
  {
    forall a: Quad<Quad<T>>, b: Quad<Quad<T>> ensures ImplementsAt(Fp4Operations(R, half), a, b) {
      Fp4ImplementsAt(R, half, a, b);
    }
    Fp4Products(R, V(R), V(R));
  }

  lemma Fp4ImplementsAt<T(!new)>(R: Ring<T>, half: T -> T, a: Quad<Quad<T>>, b: Quad<Quad<T>>)
    requires IsRing(R) && forall x :: HalvesAt(R, half, x)
    ensures ImplementsAt(Fp4Operations(R, half), a, b)
  {
    Fp4Products(R, a, b);
    assert HalvesAt(R, half, a.x0.x0) && HalvesAt(R, half, a.x0.x1);
    assert HalvesAt(R, half, a.x1.x0) && HalvesAt(R, half, a.x1.x1);
  }
}
