/** The tower over the SM9 prime: residues modulo P are a commutative ring with halves, and a
    field when P is prime, so the general results about Fp2, Fp4 and Fp12 apply. */
module Sm9Tower {
  import opened Modular
  import opened Ring
  import opened Tower
  import opened Fp12
  import opened TowerFields
  import opened Fp12Fields
  import Roots
  import Sm9Field

  type Fp = x: int | 0 <= x < Sm9Field.P

  function AddFp(x: Fp, y: Fp): Fp { MAdd(x, y, Sm9Field.P) }
  function NegFp(x: Fp): Fp { MSub(0, x, Sm9Field.P) }
  function MulFp(x: Fp, y: Fp): Fp { MMul(x, y, Sm9Field.P) }
  function RecipFp(x: Fp): Fp { Power(x, Sm9Field.P - 2) % Sm9Field.P }

  /** sm9_fp_div2. */
  function HalfFp(x: Fp): Fp {
    if x % 2 == 1 then (x + Sm9Field.P) / 2 else x / 2
  }

  function Residues(): Ring<Fp> {
    Ring(Group(0, AddFp, NegFp), Group(1, MulFp, RecipFp))
  }

  /** The ring laws modulo m. */
  lemma ResidueLaws(x: int, y: int, z: int, m: int)
    requires m > 1 && 0 <= x < m && 0 <= y < m && 0 <= z < m
    ensures MAdd(MAdd(x, y, m), z, m) == MAdd(x, MAdd(y, z, m), m) && MAdd(x, 0, m) == x
    ensures MAdd(x, MSub(0, x, m), m) == 0 && MAdd(x, y, m) == MAdd(y, x, m) && MMul(x, y, m) == MMul(y, x, m)
    ensures MMul(MMul(x, y, m), z, m) == MMul(x, MMul(y, z, m), m) && MMul(x, 1, m) == x
    ensures MMul(x, MAdd(y, z, m), m) == MAdd(MMul(x, y, m), MMul(x, z, m), m)
  {
    ModUnique(x, 0, x, m);
    CongMod(x + y, m); CongMod(y + z, m); CongMod(x * y, m); CongMod(y * z, m); CongMod(x * z, m); CongMod(0 - x, m);
    CongAdd(MAdd(x, y, m), x + y, z, z, m); CongAdd(x, x, MAdd(y, z, m), y + z, m);
    CongAdd(x, x, MSub(0, x, m), 0 - x, m); ModUnique(0, 0, 0, m);
    CongMul(MMul(x, y, m), x * y, z, z, m); CongMul(x, x, MMul(y, z, m), y * z, m);
    Products(x, y, z);
    CongMul(x, x, MAdd(y, z, m), y + z, m);
    CongAdd(MMul(x, y, m), x * y, MMul(x, z, m), x * z, m);
  }

  lemma Products(x: int, y: int, z: int)
    ensures (x * y) * z == x * (y * z) && x * (y + z) == x * y + x * z
  {
  }

  lemma ResiduesAt(x: Fp, y: Fp, z: Fp)
    ensures RingAt(Residues(), x, y, z)
  {
    ResidueLaws(x, y, z, Sm9Field.P);
  }

  lemma ResiduesRing()
    ensures IsRing(Residues())
  {
    forall x: Fp, y: Fp, z: Fp ensures RingAt(Residues(), x, y, z) {
      ResiduesAt(x, y, z);
    }
    FromLaws(Residues());
  }

  lemma ResiduesField()
    requires Prime(Sm9Field.P)
    ensures IsField(Residues())
  {
    var R, p := Residues(), Sm9Field.P;
    ResiduesRing();
    assert R.Zero() == 0 && R.One() == 1;
    forall x: Fp | x != 0 ensures InverseAt(R.times, x) {
      NonZeroInverse(x, p);
    }
  }

  lemma NonZeroInverse(x: int, p: int)
    requires Prime(p) && p > 2 && 0 < x < p
    ensures (x * (Power(x, p - 2) % p)) % p == 1
  {
    CongZero(x, p);
    FermatInverse(x, p);
    CongMod(Power(x, p - 2), p);
    CongMul(x, x, Power(x, p - 2) % p, Power(x, p - 2), p);
    ModUnique(1, 0, 1, p);
  }

  lemma HalfFpHalves(x: Fp)
    ensures HalvesAt(Residues(), HalfFp, x)
  {
    var h: int := HalfFp(x);
    ModUnique(h + h, if x % 2 == 1 then 1 else 0, x, Sm9Field.P);
  }

  /** So sm9_fp12_mul, _sqr and _inv act in Fp4[w] with w^3 = v, over the SM9 prime. */
  lemma Sm9Implements()
    ensures Implements(Fp4Operations(Residues(), HalfFp))
  {
    ResiduesRing();
    forall x: Fp ensures HalvesAt(Residues(), HalfFp, x) { HalfFpHalves(x); }
    Fp4Implements(Residues(), HalfFp);
  }

  // ------------------------------------------------------------ what has no root modulo P

  const P: int := Sm9Field.P

  /** A square root of -1. */
  const I: int := 0x49db721a269967c4e0a8debc0783182f82555233139e9d63efbd7b54092c756c

  /** A cube root of 1, and a cube root of twice it. */
  const OMEGA: int := 0xb640000002a3a6f0e303ab4ff2eb2052a9f02115caef75e70f738991676af249
  const C: int := 0x70ba866d2ad8a4c31c1be089765621f7bf1a40bb7dfa3b4a8f69267ac7aa8020

  lemma Certificates()
    ensures P - 1 == 2 * ((P - 1) / 2) && ((P - 1) / 2) % 4 == 2 && P - 1 == 3 * ((P - 1) / 3) && ((P - 1) / 3) % 3 == 1
    ensures Cong(I * I, -1, P) && Cong((1 + I) * (1 + I), 2 * I, P) && Cong((1 - I) * (1 - I), -2 * I, P)
    ensures Cong(OMEGA * (OMEGA * OMEGA), 1, P) && Cong(C * (C * C), 2 * OMEGA, P)
    ensures !Cong(2, 0, P) && !Cong(-2, 0, P) && !Cong(I, 0, P) && !Cong(OMEGA, 0, P) && !Cong(-1, 1, P) && !Cong(OMEGA, 1, P)
  {
  }

  lemma Powers(x: int)
    ensures Power(x, 1) == x && Power(x, 2) == x * x && Power(x, 3) == x * (x * x)
  {
    assert Power(x, 0) == 1;
    assert Power(x, 1) == x * Power(x, 0);
    assert Power(x, 2) == x * Power(x, 1);
    assert Power(x, 3) == x * Power(x, 2);
  }

  /** The power of i that an even power of a square root would have: -1. */
  lemma PowerOfI()
    ensures !Cong(Power(I, (P - 1) / 2), 1, P)
  {
    var h := (P - 1) / 2;
    Certificates();
    Powers(I);
    PowerAdd(I, 2, 2);
    CongMul(I * I, -1, I * I, -1, P);
    Roots.PowerPeriod(I, 4, h / 4, 2, P);
    assert 4 * (h / 4) + 2 == h;
  }

  lemma PowerOfOmega()
    ensures !Cong(Power(OMEGA, (P - 1) / 3), 1, P)
  {
    var h := (P - 1) / 3;
    Certificates();
    Powers(OMEGA);
    Roots.PowerPeriod(OMEGA, 3, h / 3, 1, P);
    assert 3 * (h / 3) + 1 == h;
  }

  /** Neither 2 nor -2 is a square and 2 is no cube modulo the SM9 prime. */
  lemma NoRoots(x: int)
    requires Prime(P)
    ensures !Cong(x * x, 2, P) && !Cong(x * x, -2, P) && !Cong(x * (x * x), 2, P)
  {
    Certificates();
    PowerOfI();
    PowerOfOmega();
    Powers(x);
    Powers(1 + I);
    Powers(1 - I);
    Powers(C);
    Roots.NoRoot(P, 2, (P - 1) / 2, 2, I, 1 + I, x);
    Roots.NoRoot(P, 2, (P - 1) / 2, -2, I, 1 - I, x);
    Roots.NoRoot(P, 3, (P - 1) / 3, 2, OMEGA, C, x);
  }

  lemma Two()
    ensures var R := Residues(); R.Dbl(R.One()) == 2 && MinusTwo(R) == P - 2
  {
  }

  lemma ResidueRoots()
    requires Prime(P)
    ensures var R := Residues(); NonSquare(R, R.Dbl(R.One())) && NonSquare(R, MinusTwo(R)) && NonCube(R, R.Dbl(R.One()))
  {
    var R := Residues();
    Two();
    forall x: Fp ensures R.Mul(x, x) != 2 && R.Mul(x, x) != P - 2 && Cube(R, x) != 2 {
      NoRoots(x);
      CongMod(x * x, P);
      CongMul(x, x, R.Mul(x, x), x * x, P);
      CongMod(x * R.Mul(x, x), P);
      ModUnique(-2, -1, P - 2, P);
      ModUnique(P - 2, 0, P - 2, P);
    }
  }

  // ------------------------------------------------------------ the fields

  function Fp4(): Ring<Quad<Quad<Fp>>> { Fp4Ring(Residues()) }

  /** Fp2 and Fp4 are fields, and v has no cube root in Fp4. */
  lemma Sm9Fields()
    requires Prime(P)
    ensures IsField(Fp2Ring(Residues())) && IsField(Fp4()) && NonCube(Fp4(), V(Residues()))
  {
    var R := Residues();
    ResiduesField();
    ResidueRoots();
    Fp2IsField(R);
    UNotSquare(R);
    Fp4IsField(R);
    VNotCube(R);
  }

  /** Fp12 is a field: every element but 0 has a norm that is not 0, and an inverse. */
  lemma Fp12IsField(a: Cubic<Quad<Quad<Fp>>>)
    requires Prime(P)
    ensures Norm(Fp4(), V(Residues()), a) != Fp4().Zero() <==> a != Zero12(Fp4())
    ensures HasInverse(Fp4(), V(Residues()), a) <==> a != Zero12(Fp4())
  {
    Sm9Fields();
    NormZero(Fp4(), V(Residues()), a);
    InvertibleExactly(Fp4(), V(Residues()), a);
  }

  /** sm9_fp12_inv over the SM9 prime: the inverse of every element but 0, and 0 for 0; r may be a. */
  method Inv12(r: Element<Quad<Quad<Fp>>>, a: Element<Quad<Quad<Fp>>>)
    requires Prime(P)
    modifies r
    ensures old(a.Value()) != Zero12(Fp4()) ==> CubicMul(Fp4(), V(Residues()), old(a.Value()), r.Value()) == One(Fp4())
    ensures old(a.Value()) == Zero12(Fp4()) ==> r.Value() == Zero12(Fp4())
  {
    Sm9Implements();
    Sm9Fields();
    Fp12IsField(a.Value());
    r.Inv(Fp4Operations(Residues(), HalfFp), a);
  }
}
