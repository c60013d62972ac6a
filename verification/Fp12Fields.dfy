/** Fp12 = Fp4[w] with w^3 = v as an algebra: multiplication is commutative and associative, the elements with
    an inverse are those whose norm is not 0, and over a field in which v has no cube root these are all
    elements but 0. */
module Fp12Fields {
  import opened Ring
  import opened Tower
  import opened Fp12
  import opened TowerFields

  // ------------------------------------------------------------ the ring laws

  ghost function Plus<X>(Q: Ring<X>, a: Cubic<X>, b: Cubic<X>): Cubic<X> {
    Cubic(Q.Add(a.x0, b.x0), Q.Add(a.x1, b.x1), Q.Add(a.x2, b.x2))
  }

  /** a times w. */
  ghost function TimesW<X>(Q: Ring<X>, v: X, a: Cubic<X>): Cubic<X> { Cubic(Q.Mul(v, a.x2), a.x0, a.x1) }

  lemma CubicCommutes<X(!new)>(Q: Ring<X>, v: X, a: Cubic<X>, b: Cubic<X>)
    requires IsRing(Q)
    ensures CubicMul(Q, v, a, b) == CubicMul(Q, v, b, a)
  {
    Commutes(Q, a.x0, b.x0); Commutes(Q, a.x0, b.x1); Commutes(Q, a.x0, b.x2);
    Commutes(Q, a.x1, b.x0); Commutes(Q, a.x1, b.x1); Commutes(Q, a.x1, b.x2);
    Commutes(Q, a.x2, b.x0); Commutes(Q, a.x2, b.x1); Commutes(Q, a.x2, b.x2);
    MonoidLaws(Q.plus, Q.Mul(a.x0, b.x1), Q.Mul(a.x1, b.x0), Q.Zero());
    MonoidLaws(Q.plus, Q.Mul(a.x1, b.x2), Q.Mul(a.x2, b.x1), Q.Zero());
    Identity(Q.plus, [Q.Mul(a.x0, b.x2), Q.Mul(a.x1, b.x1), Q.Mul(a.x2, b.x0)],
      Op(Op(Leaf(0), Leaf(1)), Leaf(2)), Op(Op(Leaf(2), Leaf(1)), Leaf(0)));
  }

  /** a b as a0 b + a1 w b + a2 w^2 b. */
  lemma Expand<X(!new)>(Q: Ring<X>, v: X, a: Cubic<X>, b: Cubic<X>)
    requires IsRing(Q)
    ensures var wb := TimesW(Q, v, b);
      CubicMul(Q, v, a, b) == Plus(Q, Plus(Q, Scale(Q, b, a.x0), Scale(Q, wb, a.x1)), Scale(Q, TimesW(Q, v, wb), a.x2))
  {
    Commutes(Q, a.x0, b.x0); Commutes(Q, a.x0, b.x1); Commutes(Q, a.x0, b.x2);
    Commutes(Q, a.x1, b.x0); Commutes(Q, a.x1, b.x1); Commutes(Q, a.x1, b.x2);
    Commutes(Q, a.x2, b.x0); Commutes(Q, a.x2, b.x1); Commutes(Q, a.x2, b.x2);
    var p, q := Q.Mul(b.x2, a.x1), Q.Mul(b.x1, a.x2);
    Distributes(Q, v, p, q);
    MonoidLaws(Q.times, v, b.x2, a.x1); MonoidLaws(Q.times, v, b.x1, a.x2); MonoidLaws(Q.times, v, b.x2, a.x2);
    MonoidLaws(Q.plus, Q.Mul(b.x0, a.x0), Q.Mul(v, p), Q.Mul(v, q));
  }

  lemma WMul<X(!new)>(Q: Ring<X>, v: X, a: Cubic<X>, b: Cubic<X>)
    requires IsRing(Q)
    ensures CubicMul(Q, v, TimesW(Q, v, a), b) == TimesW(Q, v, CubicMul(Q, v, a, b))
  {
    MonoidLaws(Q.times, v, a.x2, b.x0); MonoidLaws(Q.times, v, a.x2, b.x1); MonoidLaws(Q.times, v, a.x2, b.x2);
    var p02, p11, p20 := Q.Mul(a.x0, b.x2), Q.Mul(a.x1, b.x1), Q.Mul(a.x2, b.x0);
    Distributes(Q, v, p02, p11);
    Distributes(Q, v, Q.Add(p02, p11), p20);
    MonoidLaws(Q.plus, Q.Mul(v, p20), Q.Mul(v, Q.Add(p02, p11)), p20);
    var p12, p21 := Q.Mul(a.x1, b.x2), Q.Mul(a.x2, b.x1);
    Distributes(Q, v, p12, p21);
    Identity(Q.plus, [Q.Mul(v, p21), Q.Mul(a.x0, b.x0), Q.Mul(v, p12)],
      Op(Op(Leaf(0), Leaf(1)), Leaf(2)), Op(Leaf(1), Op(Leaf(2), Leaf(0))));
    Identity(Q.plus, [Q.Mul(v, Q.Mul(a.x2, b.x2)), Q.Mul(a.x0, b.x1), Q.Mul(a.x1, b.x0)],
      Op(Op(Leaf(0), Leaf(1)), Leaf(2)), Op(Op(Leaf(1), Leaf(2)), Leaf(0)));
  }

  lemma ScaleMul<X(!new)>(Q: Ring<X>, v: X, a: Cubic<X>, b: Cubic<X>, t: X)
    requires IsRing(Q)
    ensures CubicMul(Q, v, Scale(Q, a, t), b) == Scale(Q, CubicMul(Q, v, a, b), t)
  {
    CubicCommutes(Q, v, Scale(Q, a, t), b);
    ScaleProduct(Q, v, b, a, t);
    CubicCommutes(Q, v, b, a);
  }

  lemma PlusMul<X(!new)>(Q: Ring<X>, v: X, a: Cubic<X>, b: Cubic<X>, c: Cubic<X>)
    requires IsRing(Q)
    ensures CubicMul(Q, v, Plus(Q, a, b), c) == Plus(Q, CubicMul(Q, v, a, c), CubicMul(Q, v, b, c))
  {
    CubicCommutes(Q, v, Plus(Q, a, b), c);
    CubicCommutes(Q, v, a, c);
    CubicCommutes(Q, v, b, c);
    Expand(Q, v, c, Plus(Q, a, b));
    Expand(Q, v, c, a);
    Expand(Q, v, c, b);
    PlusW(Q, v, a, b);
    PlusW(Q, v, TimesW(Q, v, a), TimesW(Q, v, b));
    ScalePlus(Q, a, b, c.x0);
    ScalePlus(Q, TimesW(Q, v, a), TimesW(Q, v, b), c.x1);
    ScalePlus(Q, TimesW(Q, v, TimesW(Q, v, a)), TimesW(Q, v, TimesW(Q, v, b)), c.x2);
    PlusInterchange(Q, Scale(Q, a, c.x0), Scale(Q, b, c.x0), Scale(Q, TimesW(Q, v, a), c.x1), Scale(Q, TimesW(Q, v, b), c.x1));
    PlusInterchange(Q, Plus(Q, Scale(Q, a, c.x0), Scale(Q, TimesW(Q, v, a), c.x1)),
      Plus(Q, Scale(Q, b, c.x0), Scale(Q, TimesW(Q, v, b), c.x1)),
      Scale(Q, TimesW(Q, v, TimesW(Q, v, a)), c.x2), Scale(Q, TimesW(Q, v, TimesW(Q, v, b)), c.x2));
  }

  lemma PlusW<X(!new)>(Q: Ring<X>, v: X, a: Cubic<X>, b: Cubic<X>)
    requires IsRing(Q)
    ensures TimesW(Q, v, Plus(Q, a, b)) == Plus(Q, TimesW(Q, v, a), TimesW(Q, v, b))
  {
    Distributes(Q, v, a.x2, b.x2);
  }

  lemma ScalePlus<X(!new)>(Q: Ring<X>, a: Cubic<X>, b: Cubic<X>, t: X)
    requires IsRing(Q)
    ensures Scale(Q, Plus(Q, a, b), t) == Plus(Q, Scale(Q, a, t), Scale(Q, b, t))
  {
    RightDistributes(Q, a.x0, b.x0, t);
    RightDistributes(Q, a.x1, b.x1, t);
    RightDistributes(Q, a.x2, b.x2, t);
  }

  lemma PlusInterchange<X(!new)>(Q: Ring<X>, a: Cubic<X>, b: Cubic<X>, c: Cubic<X>, d: Cubic<X>)
    requires IsRing(Q)
    ensures Plus(Q, Plus(Q, a, b), Plus(Q, c, d)) == Plus(Q, Plus(Q, a, c), Plus(Q, b, d))
  {
    Interchange(Q.plus, a.x0, b.x0, c.x0, d.x0);
    Interchange(Q.plus, a.x1, b.x1, c.x1, d.x1);
    Interchange(Q.plus, a.x2, b.x2, c.x2, d.x2);
  }

  lemma CubicAssociates<X(!new)>(Q: Ring<X>, v: X, a: Cubic<X>, b: Cubic<X>, c: Cubic<X>)
    requires IsRing(Q)
    ensures CubicMul(Q, v, CubicMul(Q, v, a, b), c) == CubicMul(Q, v, a, CubicMul(Q, v, b, c))
  {
    var wb := TimesW(Q, v, b);
    var wwb := TimesW(Q, v, wb);
    Expand(Q, v, a, b);
    Expand(Q, v, a, CubicMul(Q, v, b, c));
    PlusMul(Q, v, Plus(Q, Scale(Q, b, a.x0), Scale(Q, wb, a.x1)), Scale(Q, wwb, a.x2), c);
    PlusMul(Q, v, Scale(Q, b, a.x0), Scale(Q, wb, a.x1), c);
    ScaleMul(Q, v, b, c, a.x0);
    ScaleMul(Q, v, wb, c, a.x1);
    ScaleMul(Q, v, wwb, c, a.x2);
    WMul(Q, v, b, c);
    WMul(Q, v, wb, c);
  }

  lemma CubicOne<X(!new)>(Q: Ring<X>, v: X, a: Cubic<X>)
    requires IsRing(Q)
    ensures CubicMul(Q, v, One(Q), a) == a && CubicMul(Q, v, Zero12(Q), a) == Zero12(Q)
  {
    Commutes(Q, Q.One(), a.x0); Commutes(Q, Q.One(), a.x1); Commutes(Q, Q.One(), a.x2);
    MonoidLaws(Q.times, a.x0, a.x0, a.x0); MonoidLaws(Q.times, a.x1, a.x1, a.x1); MonoidLaws(Q.times, a.x2, a.x2, a.x2);
    MulZero(Q, a.x0); MulZero(Q, a.x1); MulZero(Q, a.x2); MulZero(Q, v);
    SubSelf(Q, a.x0); SubSelf(Q, a.x1); SubSelf(Q, a.x2); SubSelf(Q, Q.Zero());
  }

  // ------------------------------------------------------------ inverses and the norm

  ghost predicate HasInverse<X(!new)>(Q: Ring<X>, v: X, a: Cubic<X>) {
    exists b :: CubicMul(Q, v, a, b) == One(Q)
  }

  /** Over a field the elements with an inverse are those whose norm is not 0. */
  lemma InvertibleExactly<X(!new)>(Q: Ring<X>, v: X, a: Cubic<X>)
    requires IsField(Q)
    ensures HasInverse(Q, v, a) <==> Norm(Q, v, a) != Q.Zero()
  {
    var n := Norm(Q, v, a);
    if n != Q.Zero() {
      assert InverseAt(Q.times, n);
      AdjointInverse(Q, v, a, Q.Recip(n));
    }
    if b :| CubicMul(Q, v, a, b) == One(Q) {
      InvertibleNorm12(Q, v, a, b);
    }
  }

  /** What an invertible element turns into 0 is 0. */
  lemma Annihilated<X(!new)>(Q: Ring<X>, v: X, a: Cubic<X>, b: Cubic<X>, c: Cubic<X>)
    requires IsRing(Q) && CubicMul(Q, v, a, b) == One(Q) && CubicMul(Q, v, a, c) == Zero12(Q)
    ensures c == Zero12(Q)
  {
    CubicCommutes(Q, v, a, b);
    CubicAssociates(Q, v, b, a, c);
    CubicOne(Q, v, c);
    CubicOne(Q, v, b);
    CubicCommutes(Q, v, b, Zero12(Q));
  }

  lemma InvertibleNorm12<X(!new)>(Q: Ring<X>, v: X, a: Cubic<X>, b: Cubic<X>)
    requires IsField(Q) && CubicMul(Q, v, a, b) == One(Q)
    ensures Norm(Q, v, a) != Q.Zero()
  {
    if Norm(Q, v, a) == Q.Zero() {
      Adjoint(Q, v, a);
      Annihilated(Q, v, a, b, Cubic(T2(Q, v, a), Q.Neg(T1(Q, v, a)), T0(Q, a)));
      NegZero(Q, T1(Q, v, a));
      Divisor(Q, v, a);
      Annihilated(Q, v, a, b, Cubic(a.x1, Q.Neg(a.x2), Q.Zero()));
      NegZero(Q, a.x2);
      OnlyFirst(Q, v, a);
      CubicOne(Q, v, b);
    }
  }

  /** (a1 - a2 w) a = t1 + t0 w. */
  lemma Divisor<X(!new)>(Q: Ring<X>, v: X, a: Cubic<X>)
    requires IsRing(Q)
    ensures CubicMul(Q, v, a, Cubic(a.x1, Q.Neg(a.x2), Q.Zero())) == Cubic(T1(Q, v, a), T0(Q, a), Q.Zero())
  {
    var a0, a1, a2, z := a.x0, a.x1, a.x2, Q.Zero();
    MulZero(Q, a0); MulZero(Q, a1); MulZero(Q, a2); MulZero(Q, v);
    MulNeg(Q, a0, a2); MulNeg(Q, a1, a2); MulNeg(Q, a2, a2);
    MulNeg(Q, v, Q.Mul(a2, a2));
    Commutes(Q, a2, a1);
    SubSelf(Q, Q.Neg(Q.Mul(a2, a2)));
    SubSelf(Q, Q.Add(Q.Neg(Q.Mul(a0, a2)), Q.Mul(a1, a1)));
    var m, n := Q.Mul(a1, a2), Q.Neg(Q.Mul(a1, a2));
    SubSelf(Q, m); SubSelf(Q, n);
    MonoidLaws(Q.plus, m, n, z);
    MonoidLaws(Q.plus, Q.Mul(a1, a1), Q.Neg(Q.Mul(a0, a2)), z);
  }

  lemma OnlyFirst<X(!new)>(Q: Ring<X>, v: X, a: Cubic<X>)
    requires IsField(Q) && a.x1 == Q.Zero() && T2(Q, v, a) == Q.Zero()
    ensures a.x0 == Q.Zero()
  {
    MulZero(Q, a.x2);
    MulZero(Q, v);
    SubSelf(Q, Q.Mul(a.x0, a.x0));
    if a.x0 != Q.Zero() { NoZeroDivisors(Q, a.x0, a.x0); }
  }

  // ------------------------------------------------------------ the norm vanishes only at 0

  /** Without a cube root of v only 0 has norm 0: otherwise a shares a root with w^3 - v. */
  lemma NormZero<X(!new)>(Q: Ring<X>, v: X, a: Cubic<X>)
    requires IsField(Q) && NonCube(Q, v)
    ensures Norm(Q, v, a) == Q.Zero() <==> a == Zero12(Q)
  {
    if a == Zero12(Q) {
      NormOfZero(Q, v);
    } else if Norm(Q, v, a) == Q.Zero() {
      if a.x2 == Q.Zero() {
        ShortRoot(Q, v, a);
      } else {
        Denominator(Q, v, a);
        MulZero(Q, a.x2);
        SubZero(Q, Q.Mul(T1(Q, v, a), T1(Q, v, a)), Q.Mul(T0(Q, a), T2(Q, v, a)));
        if T0(Q, a) == Q.Zero() { DoubleRoot(Q, v, a); } else { CommonRoot(Q, v, a); }
      }
    }
  }

  lemma NormOfZero<X(!new)>(Q: Ring<X>, v: X)
    requires IsRing(Q)
    ensures Norm(Q, v, Zero12(Q)) == Q.Zero()
  {
    NormWithoutW2(Q, v, Zero12(Q));
    MulZero(Q, Q.Zero());
    MulZero(Q, v);
    SubSelf(Q, Q.Zero());
  }

  /** a0^3 + v a1^3 = 0 */
  lemma ShortRoot<X(!new)>(Q: Ring<X>, v: X, a: Cubic<X>)
    requires IsField(Q) && a.x2 == Q.Zero() && Norm(Q, v, a) == Q.Zero() && a != Zero12(Q)
    ensures !NonCube(Q, v)
  {
    var p, q := Cube(Q, a.x0), Q.Mul(v, Cube(Q, a.x1));
    NormWithoutW2(Q, v, a);
    Commutes(Q, a.x0, Q.Mul(a.x0, a.x0));
    Commutes(Q, a.x1, Q.Mul(a.x1, a.x1));
    MonoidLaws(Q.times, v, Q.Mul(a.x1, a.x1), a.x1);
    InverseUnique(Q.plus, p, q);
    CubeOfNeg(Q, a.x0);
    if a.x1 == Q.Zero() {
      MulZero(Q, Q.Mul(a.x1, a.x1));
      MulZero(Q, v);
      NegZero(Q, p);
      if a.x0 != Q.Zero() {
        NoZeroDivisors(Q, a.x0, Q.Mul(a.x0, a.x0));
        NoZeroDivisors(Q, a.x0, a.x0);
      }
    } else {
      CubeQuotient(Q, v, Q.Neg(a.x0), a.x1);
    }
  }

  /** t0 = 0: then t1 = 0, and a1 / a2 is the root. */
  lemma DoubleRoot<X(!new)>(Q: Ring<X>, v: X, a: Cubic<X>)
    requires IsField(Q) && a.x2 != Q.Zero() && T0(Q, a) == Q.Zero()
    requires Q.Mul(T1(Q, v, a), T1(Q, v, a)) == Q.Mul(T0(Q, a), T2(Q, v, a))
    ensures !NonCube(Q, v)
  {
    var a0, a1, a2, t1 := a.x0, a.x1, a.x2, T1(Q, v, a);
    MulZero(Q, T2(Q, v, a));
    if t1 != Q.Zero() { NoZeroDivisors(Q, t1, t1); }
    SubZero(Q, Q.Mul(a1, a1), Q.Mul(a0, a2));
    SubZero(Q, Q.Mul(a0, a1), Q.Mul(v, Q.Mul(a2, a2)));
    Identity(Q.times, [a0, a1, a2], Op(Leaf(1), Op(Leaf(0), Leaf(2))), Op(Op(Leaf(0), Leaf(1)), Leaf(2)));
    MonoidLaws(Q.times, v, Q.Mul(a2, a2), a2);
    Commutes(Q, Q.Mul(a2, a2), a2);
    CubeQuotient(Q, v, a1, a2);
  }

  /** The coefficients of w and w^2 in a times its adjoint. */
  lemma AdjointTerms<X(!new)>(Q: Ring<X>, v: X, a: Cubic<X>)
    requires IsRing(Q)
    ensures var t0, t1, t2 := T0(Q, a), T1(Q, v, a), T2(Q, v, a);
      Q.Mul(a.x0, t1) == Q.Add(Q.Mul(a.x1, t2), Q.Mul(v, Q.Mul(a.x2, t0))) &&
      Q.Mul(a.x1, t1) == Q.Add(Q.Mul(a.x0, t0), Q.Mul(a.x2, t2))
  {
    var t0, t1, t2 := T0(Q, a), T1(Q, v, a), T2(Q, v, a);
    Adjoint(Q, v, a);
    MulNeg(Q, a.x0, t1);
    MulNeg(Q, a.x1, t1);
    var x, y, z := Q.Mul(a.x0, t1), Q.Mul(a.x1, t2), Q.Mul(v, Q.Mul(a.x2, t0));
    Identity(Q.plus, [x, y, z], Op(Op(Inv(Leaf(0)), Leaf(1)), Leaf(2)), Op(Op(Leaf(1), Leaf(2)), Inv(Leaf(0))));
    SubZero(Q, Q.Add(y, z), x);
    var r, s, t := Q.Mul(a.x0, t0), Q.Mul(a.x1, t1), Q.Mul(a.x2, t2);
    Identity(Q.plus, [r, s, t], Op(Op(Leaf(0), Inv(Leaf(1))), Leaf(2)), Op(Op(Leaf(0), Leaf(2)), Inv(Leaf(1))));
    SubZero(Q, Q.Add(r, t), s);
  }

  /** -t1 / t0 is a root of w^3 - v. */
  lemma CommonRoot<X(!new)>(Q: Ring<X>, v: X, a: Cubic<X>)
    requires IsField(Q) && a.x2 != Q.Zero() && T0(Q, a) != Q.Zero()
    requires Q.Mul(T1(Q, v, a), T1(Q, v, a)) == Q.Mul(T0(Q, a), T2(Q, v, a))
    ensures !NonCube(Q, v)
  {
    var t0, t1, t2 := T0(Q, a), T1(Q, v, a), T2(Q, v, a);
    AdjointTerms(Q, v, a);
    RootSum(Q, v, a.x0, a.x1, a.x2, t0, t1, t2);
    NoZeroDivisors(Q, a.x2, Q.Add(Q.Mul(t1, t2), Q.Mul(v, Q.Mul(t0, t0))));
    RootCube(Q, v, t0, t1, t2);
    CubeOfNeg(Q, t1);
    CubeQuotient(Q, v, Q.Neg(t1), t0);
  }

  lemma RootSum<X(!new)>(Q: Ring<X>, v: X, a0: X, a1: X, a2: X, t0: X, t1: X, t2: X)
    requires IsRing(Q) && Q.Mul(t1, t1) == Q.Mul(t0, t2)
    requires Q.Mul(a0, t1) == Q.Add(Q.Mul(a1, t2), Q.Mul(v, Q.Mul(a2, t0)))
    requires Q.Mul(a1, t1) == Q.Add(Q.Mul(a0, t0), Q.Mul(a2, t2))
    ensures Q.Mul(a2, Q.Add(Q.Mul(t1, t2), Q.Mul(v, Q.Mul(t0, t0)))) == Q.Zero()
  {
    var q, r, w := Q.Mul(a2, Q.Mul(v, Q.Mul(t0, t0))), Q.Mul(a2, Q.Mul(t1, t2)), Q.Mul(t0, Q.Mul(a0, t1));
    FirstSum(Q, v, a0, a1, a2, t0, t1, t2);
    SecondSum(Q, a0, a1, a2, t0, t1, t2);
    MonoidLaws(Q.plus, w, r, q);
    CancelSum(Q, w, Q.Add(r, q));
    Distributes(Q, a2, Q.Mul(t1, t2), Q.Mul(v, Q.Mul(t0, t0)));
  }

  lemma FirstSum<X(!new)>(Q: Ring<X>, v: X, a0: X, a1: X, a2: X, t0: X, t1: X, t2: X)
    requires IsRing(Q) && Q.Mul(a0, t1) == Q.Add(Q.Mul(a1, t2), Q.Mul(v, Q.Mul(a2, t0)))
    ensures Q.Mul(t0, Q.Mul(a0, t1)) == Q.Add(Q.Mul(t0, Q.Mul(a1, t2)), Q.Mul(a2, Q.Mul(v, Q.Mul(t0, t0))))
  {
    Distributes(Q, t0, Q.Mul(a1, t2), Q.Mul(v, Q.Mul(a2, t0)));
    Identity(Q.times, [t0, v, a2], Op(Leaf(0), Op(Leaf(1), Op(Leaf(2), Leaf(0)))), Op(Leaf(2), Op(Leaf(1), Op(Leaf(0), Leaf(0)))));
  }

  lemma SecondSum<X(!new)>(Q: Ring<X>, a0: X, a1: X, a2: X, t0: X, t1: X, t2: X)
    requires IsRing(Q) && Q.Mul(t1, t1) == Q.Mul(t0, t2) && Q.Mul(a1, t1) == Q.Add(Q.Mul(a0, t0), Q.Mul(a2, t2))
    ensures Q.Mul(t0, Q.Mul(a1, t2)) == Q.Add(Q.Mul(t0, Q.Mul(a0, t1)), Q.Mul(a2, Q.Mul(t1, t2)))
  {
    Distributes(Q, t1, Q.Mul(a0, t0), Q.Mul(a2, t2));
    MulSwap(Q, t1, a0, t0);
    Commutes(Q, t1, t0);
    MulSwap(Q, a0, t0, t1);
    MulSwap(Q, t1, a2, t2);
    MulSwap(Q, t1, a1, t1);
    MulSwap(Q, a1, t0, t2);
  }

  lemma CancelSum<X(!new)>(Q: Ring<X>, w: X, x: X)
    requires IsRing(Q) && Q.Add(w, x) == w
    ensures x == Q.Zero()
  {
    SubSelf(Q, w);
    Identity(Q.plus, [w, x], Op(Op(Leaf(0), Leaf(1)), Inv(Leaf(0))), Leaf(1));
  }

  lemma RootCube<X(!new)>(Q: Ring<X>, v: X, t0: X, t1: X, t2: X)
    requires IsRing(Q) && Q.Mul(t1, t1) == Q.Mul(t0, t2)
    requires Q.Add(Q.Mul(t1, t2), Q.Mul(v, Q.Mul(t0, t0))) == Q.Zero()
    ensures Q.Neg(Cube(Q, t1)) == Q.Mul(v, Cube(Q, t0))
  {
    Distributes(Q, t0, Q.Mul(t1, t2), Q.Mul(v, Q.Mul(t0, t0)));
    MulZero(Q, t0);
    MulSwap(Q, t0, t1, t2);
    MulSwap(Q, t0, v, Q.Mul(t0, t0));
    InverseUnique(Q.plus, Cube(Q, t1), Q.Mul(v, Cube(Q, t0)));
  }
}
