/** When the layers of the tower are fields: over a field without square roots of 2 and -2, Fp2 and Fp4
    are, and without a cube root of 2 no element of Fp12 but 0 has norm 0. */
module TowerFields {
  import opened Ring
  import opened Tower
  import opened Fp12

  // ------------------------------------------------------------ fields

  lemma NegNeg<T(!new)>(R: Ring<T>, x: T)
    requires IsRing(R)
    ensures R.Neg(R.Neg(x)) == x
  {
    Identity(R.plus, [x], Inv(Inv(Leaf(0))), Leaf(0));
  }

  lemma NegZero<T(!new)>(R: Ring<T>, x: T)
    requires IsRing(R)
    ensures R.Neg(x) == R.Zero() <==> x == R.Zero()
  {
    MonoidLaws(R.plus, R.Zero(), R.Zero(), x);
    InverseUnique(R.plus, R.Zero(), R.Zero());
    NegNeg(R, x);
  }

  /** Equal elements have difference zero, and no others. */
  lemma SubZero<T(!new)>(R: Ring<T>, x: T, y: T)
    requires IsRing(R)
    ensures R.Sub(x, y) == R.Zero() <==> x == y
  {
    SubSelf(R, x);
    SubSelf(R, y);
    Identity(R.plus, [x, y], Op(Op(Leaf(0), Inv(Leaf(1))), Leaf(1)), Leaf(0));
  }

  ghost function Cube<T>(R: Ring<T>, x: T): T { R.Mul(x, R.Mul(x, x)) }

  ghost predicate NonSquare<T(!new)>(R: Ring<T>, d: T) { forall x :: R.Mul(x, x) != d }

  ghost predicate NonCube<T(!new)>(R: Ring<T>, d: T) { forall x :: Cube(R, x) != d }

  /** x^2 = d y^2 makes d a square. */
  lemma SquareQuotient<T(!new)>(R: Ring<T>, d: T, x: T, y: T)
    requires IsField(R) && y != R.Zero() && R.Mul(x, x) == R.Mul(d, R.Mul(y, y))
    ensures !NonSquare(R, d)
  {
    assert InverseAt(R.times, y);
    var i := R.Recip(y);
    var q := R.Mul(x, i);
    Identity(R.times, [x, i], Op(Op(Leaf(0), Leaf(1)), Op(Leaf(0), Leaf(1))), Op(Op(Leaf(0), Leaf(0)), Op(Leaf(1), Leaf(1))));
    Identity(R.times, [d, y, i], Op(Op(Leaf(0), Op(Leaf(1), Leaf(1))), Op(Leaf(2), Leaf(2))),
      Op(Op(Leaf(0), Op(Leaf(1), Leaf(2))), Op(Leaf(1), Leaf(2))));
    MonoidLaws(R.times, d, d, d);
    assert R.Mul(q, q) == d;
  }

  /** x^3 = v y^3 makes v a cube. */
  lemma CubeQuotient<T(!new)>(R: Ring<T>, v: T, x: T, y: T)
    requires IsField(R) && y != R.Zero() && Cube(R, x) == R.Mul(v, Cube(R, y))
    ensures !NonCube(R, v)
  {
    assert InverseAt(R.times, y);
    var i := R.Recip(y);
    CubeOfProduct(R, x, i);
    CubeOfProduct(R, y, i);
    MonoidLaws(R.times, v, Cube(R, y), Cube(R, i));
    MonoidLaws(R.times, R.One(), R.One(), R.One());
    MonoidLaws(R.times, v, v, v);
    assert Cube(R, R.Mul(x, i)) == v;
  }

  lemma CubeOfProduct<T(!new)>(R: Ring<T>, x: T, y: T)
    requires IsRing(R)
    ensures Cube(R, R.Mul(x, y)) == R.Mul(Cube(R, x), Cube(R, y))
  {
    Identity(R.times, [x, y], Op(Op(Leaf(0), Leaf(1)), Op(Op(Leaf(0), Leaf(1)), Op(Leaf(0), Leaf(1)))),
      Op(Op(Leaf(0), Op(Leaf(0), Leaf(0))), Op(Leaf(1), Op(Leaf(1), Leaf(1)))));
  }

  lemma CubeOfNeg<T(!new)>(R: Ring<T>, x: T)
    requires IsRing(R)
    ensures Cube(R, R.Neg(x)) == R.Neg(Cube(R, x))
  {
    MulNeg(R, R.Neg(x), x);
    MulNeg(R, x, x);
    NegNeg(R, R.Mul(x, x));
    MulNeg(R, R.Mul(x, x), x);
    Commutes(R, R.Mul(x, x), x);
  }

  // ------------------------------------------------------------ the norm of a quadratic extension

  ghost function Conjugate<T>(R: Ring<T>, a: Quad<T>): Quad<T> { Quad(a.x0, R.Neg(a.x1)) }

  ghost function QuadNorm<T>(R: Ring<T>, d: T, a: Quad<T>): T {
    R.Sub(R.Mul(a.x0, a.x0), R.Mul(d, R.Mul(a.x1, a.x1)))
  }

  lemma TimesConjugate<T(!new)>(R: Ring<T>, d: T, a: Quad<T>)
    requires IsRing(R)
    ensures QuadMul(R, d, a, Conjugate(R, a)) == Quad(QuadNorm(R, d, a), R.Zero())
  {
    MulNeg(R, a.x1, a.x1);
    MulNeg(R, d, R.Mul(a.x1, a.x1));
    MulNeg(R, a.x0, a.x1);
    Commutes(R, a.x1, a.x0);
    var m := R.Mul(a.x0, a.x1);
    SubSelf(R, m);
    MonoidLaws(R.plus, m, R.Neg(m), m);
  }

  lemma ConjugateMul<T(!new)>(R: Ring<T>, d: T, a: Quad<T>, b: Quad<T>)
    requires IsRing(R)
    ensures QuadMul(R, d, Conjugate(R, a), Conjugate(R, b)) == Conjugate(R, QuadMul(R, d, a, b))
  {
    MulNeg(R, R.Neg(a.x1), b.x1);
    MulNeg(R, b.x1, a.x1);
    Commutes(R, a.x1, b.x1);
    NegNeg(R, R.Mul(a.x1, b.x1));
    MulNeg(R, a.x0, b.x1);
    MulNeg(R, b.x0, a.x1);
    Commutes(R, a.x1, b.x0);
    Identity(R.plus, [R.Mul(a.x0, b.x1), R.Mul(a.x1, b.x0)], Op(Inv(Leaf(0)), Inv(Leaf(1))), Inv(Op(Leaf(0), Leaf(1))));
  }

  /** The norm is multiplicative. */
  lemma QuadNormMul<T(!new)>(R: Ring<T>, d: T, a: Quad<T>, b: Quad<T>)
    requires IsRing(R)
    ensures QuadNorm(R, d, QuadMul(R, d, a, b)) == R.Mul(QuadNorm(R, d, a), QuadNorm(R, d, b))
  {
    var S := QuadRing(R, d, (x: Quad<T>) => x);
    QuadIsRing(R, d, (x: Quad<T>) => x);
    TimesConjugate(R, d, a);
    TimesConjugate(R, d, b);
    TimesConjugate(R, d, QuadMul(R, d, a, b));
    ConjugateMul(R, d, a, b);
    Interchange(S.times, a, b, Conjugate(R, a), Conjugate(R, b));
    var n := R.Mul(QuadNorm(R, d, a), QuadNorm(R, d, b));
    MulZero(R, R.Zero());
    MulZero(R, d);
    SubSelf(R, n);
  }

  /** Without a root of d only zero has norm zero. */
  lemma QuadNormZero<T(!new)>(R: Ring<T>, d: T, a: Quad<T>)
    requires IsField(R) && NonSquare(R, d) && QuadNorm(R, d, a) == R.Zero()
    ensures a == Quad(R.Zero(), R.Zero())
  {
    SubZero(R, R.Mul(a.x0, a.x0), R.Mul(d, R.Mul(a.x1, a.x1)));
    if a.x1 != R.Zero() { SquareQuotient(R, d, a.x0, a.x1); }
    MulZero(R, a.x1);
    MulZero(R, d);
    if a.x0 != R.Zero() { NoZeroDivisors(R, a.x0, a.x0); }
  }

  // ------------------------------------------------------------ Fp2 and Fp4

  lemma Norm2IsNorm<T(!new)>(R: Ring<T>, a: Quad<T>)
    requires IsRing(R)
    ensures Norm2(R, a) == QuadNorm(R, MinusTwo(R), a)
  {
    var t := R.Mul(a.x1, a.x1);
    TimesMinusTwo(R, t);
    NegNeg(R, R.Dbl(t));
  }

  lemma Norm4IsNorm<T(!new)>(R: Ring<T>, a: Quad<Quad<T>>)
    requires IsRing(R)
    ensures Norm4(R, a) == Fp2Ring(R).Neg(QuadNorm(Fp2Ring(R), U(R), a))
  {
    var S := Fp2Ring(R);
    Fp2Products(R, a.x0, a.x0);
    Fp2Products(R, a.x1, a.x1);
    Identity(S.plus, [S.Mul(U(R), S.Mul(a.x1, a.x1)), S.Mul(a.x0, a.x0)], Op(Leaf(0), Inv(Leaf(1))), Inv(Op(Leaf(1), Inv(Leaf(0)))));
  }

  /** Fp2 is a field if -2 has no square root. */
  lemma Fp2IsField<T(!new)>(R: Ring<T>)
    requires IsField(R) && NonSquare(R, MinusTwo(R))
    ensures IsField(Fp2Ring(R))
  {
    var S := Fp2Ring(R);
    QuadIsRing(R, MinusTwo(R), (a: Quad<T>) => Fp2Inv(R, a));
    forall a: Quad<T> | a != S.Zero() ensures InverseAt(S.times, a) {
      Norm2IsNorm(R, a);
      if Norm2(R, a) == R.Zero() { QuadNormZero(R, MinusTwo(R), a); }
      Fp2Inverse(R, a);
    }
  }

  /** Fp4 is a field if Fp2 is one and u has no square root in it. */
  lemma Fp4IsField<T(!new)>(R: Ring<T>)
    requires IsRing(R) && IsField(Fp2Ring(R)) && NonSquare(Fp2Ring(R), U(R))
    ensures IsField(Fp4Ring(R))
  {
    var S, Q := Fp2Ring(R), Fp4Ring(R);
    QuadIsRing(S, U(R), (a: Quad<Quad<T>>) => Fp4Inv(R, a));
    forall a: Quad<Quad<T>> | a != Q.Zero() ensures InverseAt(Q.times, a) {
      Norm4NotZero(R, a);
      assert InverseAt(S.times, Norm4(R, a));
      Fp4Inverse(R, a);
    }
  }

  lemma Norm4NotZero<T(!new)>(R: Ring<T>, a: Quad<Quad<T>>)
    requires IsRing(R) && IsField(Fp2Ring(R)) && NonSquare(Fp2Ring(R), U(R)) && a != Fp4Ring(R).Zero()
    ensures Norm4(R, a) != Fp2Ring(R).Zero()
  {
    var S := Fp2Ring(R);
    Norm4IsNorm(R, a);
    NegZero(S, QuadNorm(S, U(R), a));
    if QuadNorm(S, U(R), a) == S.Zero() { QuadNormZero(S, U(R), a); }
  }

  /** Only elements whose norm is not zero have an inverse in Fp4. */
  lemma InvertibleNorm4<T(!new)>(R: Ring<T>, a: Quad<Quad<T>>, b: Quad<Quad<T>>)
    requires IsField(Fp2Ring(R)) && IsRing(R) && Fp4Ring(R).Mul(a, b) == Fp4Ring(R).One()
    ensures Norm4(R, a) != Fp2Ring(R).Zero()
  {
    var S := Fp2Ring(R);
    Norm4IsNorm(R, a);
    NegZero(S, QuadNorm(S, U(R), a));
    UnitNorm(S, U(R), a, b);
  }

  lemma UnitNorm<T(!new)>(R: Ring<T>, d: T, a: Quad<T>, b: Quad<T>)
    requires IsRing(R) && R.One() != R.Zero() && QuadMul(R, d, a, b) == Quad(R.One(), R.Zero())
    ensures QuadNorm(R, d, a) != R.Zero()
  {
    QuadNormMul(R, d, a, b);
    NormOfOne(R, d);
    MulZero(R, QuadNorm(R, d, b));
  }

  lemma NormOfOne<T(!new)>(R: Ring<T>, d: T)
    requires IsRing(R)
    ensures QuadNorm(R, d, Quad(R.One(), R.Zero())) == R.One()
  {
    MonoidLaws(R.times, R.One(), R.One(), R.One());
    MulZero(R, R.Zero());
    MulZero(R, d);
    SubSelf(R, R.One());
  }

  /** 0 + y x has norm -d y^2. */
  lemma NormOfRoot<T(!new)>(R: Ring<T>, d: T, y: T)
    requires IsRing(R)
    ensures QuadNorm(R, d, Quad(R.Zero(), y)) == R.Neg(R.Mul(d, R.Mul(y, y)))
  {
    MulZero(R, R.Zero());
    SubSelf(R, R.Neg(R.Mul(d, R.Mul(y, y))));
  }

  /** u and -u have norm 2. */
  lemma NormOfU<T(!new)>(R: Ring<T>)
    requires IsRing(R)
    ensures QuadNorm(R, MinusTwo(R), U(R)) == R.Dbl(R.One()) == QuadNorm(R, MinusTwo(R), Fp2Ring(R).Neg(U(R)))
  {
    var one := R.One();
    NegZero(R, R.Zero());
    NormOfRoot(R, MinusTwo(R), one);
    NormOfRoot(R, MinusTwo(R), R.Neg(one));
    MulNeg(R, R.Neg(one), one);
    MulNeg(R, one, one);
    MonoidLaws(R.times, one, one, one);
    MonoidLaws(R.times, MinusTwo(R), one, one);
    NegNeg(R, one);
    NegNeg(R, R.Dbl(one));
  }

  /** A square root of u would have a norm whose square is 2. */
  lemma UNotSquare<T(!new)>(R: Ring<T>)
    requires IsRing(R) && NonSquare(R, R.Dbl(R.One()))
    ensures NonSquare(Fp2Ring(R), U(R))
  {
    forall x: Quad<T> ensures Fp2Ring(R).Mul(x, x) != U(R) {
      QuadNormMul(R, MinusTwo(R), x, x);
      NormOfU(R);
      var n := QuadNorm(R, MinusTwo(R), x);
      assert R.Mul(n, n) != R.Dbl(R.One());
    }
  }

  /** A cube root of v would have a norm whose norm has the cube 2. */
  lemma VNotCube<T(!new)>(R: Ring<T>)
    requires IsRing(R) && NonCube(R, R.Dbl(R.One()))
    ensures NonCube(Fp4Ring(R), V(R))
  {
    var S := Fp2Ring(R);
    QuadIsRing(R, MinusTwo(R), (a: Quad<T>) => Fp2Inv(R, a));
    forall x: Quad<Quad<T>> ensures Cube(Fp4Ring(R), x) != V(R) {
      var n := QuadNorm(S, U(R), x);
      QuadNormMul(S, U(R), x, x);
      QuadNormMul(S, U(R), x, QuadMul(S, U(R), x, x));
      NormOfV(R);
      var m := QuadNorm(R, MinusTwo(R), n);
      QuadNormMul(R, MinusTwo(R), n, n);
      QuadNormMul(R, MinusTwo(R), n, S.Mul(n, n));
      NormOfU(R);
      assert Cube(R, m) != R.Dbl(R.One());
    }
  }

  lemma NormOfV<T(!new)>(R: Ring<T>)
    requires IsRing(R)
    ensures QuadNorm(Fp2Ring(R), U(R), V(R)) == Fp2Ring(R).Neg(U(R))
  {
    var S := Fp2Ring(R);
    QuadIsRing(R, MinusTwo(R), (a: Quad<T>) => Fp2Inv(R, a));
    NormOfRoot(S, U(R), S.One());
    MonoidLaws(S.times, S.One(), S.One(), S.One());
    MonoidLaws(S.times, U(R), U(R), U(R));
  }
}
