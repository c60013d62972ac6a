/** Scalar multiplication: sm2_jacobian_point_mul and the affine conversion it needs. */
module PointMul {
  import opened Limbs
  import opened Modular
  import opened Curve
  import opened Jacobian
  import opened Sm2Order

  // ------------------------------------------------------------ the scalar's bits

  /** The number that a string of bits spells, most significant first. */
  ghost function BitsValue(s: seq<char>): nat {
    if s == [] then 0 else 2 * BitsValue(s[..|s| - 1]) + Bit(s[|s| - 1])
  }

  ghost function Bit(c: char): nat { if c == '1' then 1 else 0 }

  /** sm2_bn_to_bits. */
  method ToBits(a: array<u64>, bits: array<char>)
    requires a.Length == 8 && bits.Length >= 256 && Norm(a[..])
    modifies bits
    ensures BitsValue(bits[..256]) == Val(a[..])
  {
    var i, at := 7, 0;
    ghost var sa: seq<int> := a[..];
    ghost var done := bits[..at];
    while i >= 0
      invariant -1 <= i <= 7 && at == 32 * (7 - i) && a[..] == sa && done == bits[..at]
      invariant Spelled(done, sa, i + 1)
    {
      WordBits(bits, at, a[i]);
      WordSpelled(done, bits[..at + 32], sa, i);
      i, at := i - 1, at + 32;
      done := bits[..at];
    }
    assert sa[0..] == sa && done == bits[..256];
  }

  /** The limbs from i on are written. */
  ghost predicate Spelled(s: seq<char>, a: seq<int>, i: nat) {
    i <= |a| && BitsValue(s) == Val(a[i..])
  }

  lemma WordSpelled(s: seq<char>, t: seq<char>, a: seq<int>, i: nat)
    requires i < |a| && Spelled(s, a, i + 1) && BitsValue(t) == BitsValue(s) * 0x1_0000_0000 + a[i]
    ensures Spelled(t, a, i)
  {
    WordValue(a, i);
  }

  /** The inner loop of sm2_bn_to_bits: the 64-bit w also keeps the bits shifted above bit 31. */
  method WordBits(bits: array<char>, at: nat, word: u64)
    requires at + 32 <= bits.Length && word < 0x1_0000_0000
    modifies bits
    ensures bits[..at] == old(bits[..at])
    ensures BitsValue(bits[..at + 32]) == BitsValue(bits[..at]) * 0x1_0000_0000 + word
  {
    ghost var before := bits[..at];
    ghost var h, done := 0, before;
    var w: u64, j := word, 0;
    while j < 32
      invariant 0 <= j <= 32 && |before| == at && before <= done && done == bits[..at + j]
      invariant BitsState(done, BitsValue(before), word, j, h, w)
    {
      bits[at + j] := if (w / 0x8000_0000) % 2 == 1 then '1' else '0';
      BitsStep(done, bits[at + j], BitsValue(before), word, j, h, w);
      done := done + [bits[at + j]];
      h, w, j := 2 * h + Bit(bits[at + j]), Wrap(w * 2), j + 1;
      assert done == bits[..at + j];
    }
    assert done[..at] == bits[..at];
    BitsDone(done, BitsValue(before), word, h, w);
  }

  lemma BitsDone(s: seq<char>, g: int, word: int, h: int, w: int)
    requires BitsState(s, g, word, 32, h, w)
    ensures BitsValue(s) == g * 0x1_0000_0000 + word
  {
    WordDone(word, h, w % 0x1_0000_0000);
    Pow2Word();
  }

  /** The bits s of a number g and of the first j bits, h, of a word are written. */
  ghost predicate BitsState(s: seq<char>, g: int, word: int, j: nat, h: int, w: int) {
    h >= 0 && WordState(word, j, h, w % 0x1_0000_0000) && BitsValue(s) == g * Pow2(j) + h
  }

  lemma BitsStep(s: seq<char>, c: char, g: int, word: int, j: nat, h: int, w: int)
    requires BitsState(s, g, word, j, h, w) && 0 <= w
    requires c == if (w / 0x8000_0000) % 2 == 1 then '1' else '0'
    ensures BitsState(s + [c], g, word, j + 1, 2 * h + Bit(c), Wrap(w * 2))
  {
    TopBit(w);
    WordStep(word, j, h, w % 0x1_0000_0000, Bit(c), Wrap(w * 2) % 0x1_0000_0000);
    DoubleExponent(g, j, h, Bit(c), g * Pow2(j) + h);
    assert (s + [c])[..|s|] == s;
  }

  /** Bit 31 and the shift only see the low half of the word. */
  lemma TopBit(w: int)
    requires 0 <= w
    ensures (w / 0x8000_0000) % 2 == 1 <==> w % 0x1_0000_0000 >= 0x8000_0000
    ensures Wrap(w * 2) % 0x1_0000_0000 == ((w % 0x1_0000_0000) * 2) % 0x1_0000_0000
  {
    var q, l, k := w / 0x1_0000_0000, w % 0x1_0000_0000, (w * 2) / 0x1_0000_0000_0000_0000;
    var c := if l >= 0x8000_0000 then 1 else 0;
    DivUnique(w, 2 * q + c, l - c * 0x8000_0000, 0x8000_0000);
    ModUnique(2 * q + c, q, c, 2);
    assert Wrap(w * 2) == w * 2 - k * 0x1_0000_0000_0000_0000;
    ModUnique(Wrap(w * 2), 2 * q + c - k * 0x1_0000_0000, 2 * l - c * 0x1_0000_0000, 0x1_0000_0000);
    ModUnique(2 * l, c, 2 * l - c * 0x1_0000_0000, 0x1_0000_0000);
  }

  // ------------------------------------------------------------ affine coordinates

  /** sm2_jacobian_point_get_xy; for the point at infinity both coordinates come out as 0. */
  method GetXy(Q: JacobianPoint, p: int, ghost A: Point) returns (x: int, y: int)
    requires Field(p) && Reduced(Q.Value(), p) && Represents(Q.Value(), A, p)
    requires A.Affine? ==> 0 <= A.x < p && 0 <= A.y < p
    ensures if A.Affine? then A == Affine(x, y) else x == y == 0
  {
    if Q.Z == 1 {
      x, y := Q.X, Q.Y;
      UnitScale(A, x, y, p);
    } else {
      var zInv := Inverse(Q.Z, p);
      ghost var i := zInv;
      y := MMul(Q.Y, zInv, p);
      zInv := MMul(zInv, zInv, p);
      x := MMul(Q.X, zInv, p);
      y := MMul(y, zInv, p);
      if Q.Z == 0 {
        NoScale(Q.X, Q.Y, i, zInv, x, y, p);
      } else {
        Unscale(A, Q.X, Q.Y, Q.Z, i, zInv, x, y, p);
      }
    }
  }

  /** The exponentiation turns 0 into 0. */
  lemma NoScale(X: int, Y: int, i: int, i2: int, x: int, y: int, p: int)
    requires p > 3 && i == Inverse(0, p) && i2 == MMul(i, i, p)
    requires x == MMul(X, i2, p) && y == MMul(MMul(Y, i, p), i2, p)
    ensures x == y == 0
  {
    assert Power(0, p - 2) == 0 * Power(0, p - 3);
    ZeroProduct(X, Y, p);
  }

  lemma ZeroProduct(X: int, Y: int, p: int)
    requires p > 0
    ensures 0 % p == 0 && MMul(0, 0, p) == 0 && MMul(X, 0, p) == 0 && MMul(MMul(Y, 0, p), 0, p) == 0
  {
    ModUnique(0, 0, 0, p);
  }

  lemma Unscale(A: Point, X: int, Y: int, Z: int, i: int, i2: int, x: int, y: int, p: int)
    requires Field(p) && A.Affine? && Scaled(X, Y, A.x, A.y, Z, p) && 0 < Z < p
    requires 0 <= A.x < p && 0 <= A.y < p
    requires i == Inverse(Z, p) && i2 == MMul(i, i, p)
    requires x == MMul(X, i2, p) && y == MMul(MMul(Y, i, p), i2, p)
    ensures A == Affine(x, y)
  {
    CongZero(Z, p);
    InverseCancels(Z, p);
    var u := Z * i;
    Op(i, i, i, i, p);
    CongMul(u, 1, u, 1, p);
    CongMul(u * u, 1, u, 1, p);
    Op(X, A.x * (Z * Z), i2, i * i, p);
    Op(Y, A.y * (Z * Z * Z), i, i, p);
    Op(MMul(Y, i, p), A.y * (Z * Z * Z) * i, i2, i * i, p);
    CongMul(A.x, A.x, u * u, 1, p);
    CongMul(A.y, A.y, u * u * u, 1, p);
    UnscaleProducts(A.x, A.y, Z, i);
    CongEqual(x, A.x, p);
    CongEqual(y, A.y, p);
  }

  lemma UnscaleProducts(x: int, y: int, z: int, i: int)
    ensures x * (z * z) * (i * i) == x * ((z * i) * (z * i))
    ensures y * (z * z * z) * i * (i * i) == y * ((z * i) * (z * i) * (z * i))
  {
    assert (z * i) * (z * i) == (z * z) * (i * i);
    Pull(x, z * z, i * i);
    Cubes(z, i);
    Pull(y, z * z * z, i * i * i);
    var t := y * (z * z * z);
    assert t * i * (i * i) == t * (i * i * i);
  }

  lemma Pull(x: int, a: int, b: int)
    ensures x * a * b == x * (a * b)
  {
  }

  lemma Cubes(z: int, i: int)
    ensures (z * z * z) * (i * i * i) == (z * i) * (z * i) * (z * i)
  {
    var a, b := z * z, i * i;
    assert (z * i) * (z * i) == a * b;
    assert (a * z) * (b * i) == (a * b) * (z * i);
  }

  /** sm2_jacobian_point_is_on_curve: both branches test the curve equation of the affine point, and
      Y^2 = X^3 for coordinates of the point at infinity, such as (1, 1, 0). */
  method IsOnCurve(Q: JacobianPoint, p: int, b: int, ghost A: Point) returns (ok: bool)
    requires Field(p) && Reduced(Q.Value(), p) && Represents(Q.Value(), A, p) && InField(A, p)
    ensures A.Affine? ==> (ok <==> OnCurve(A, p, b))
    ensures A.Infinity? ==> (ok <==> Cong(Q.Y * Q.Y, Q.X * Q.X * Q.X, p))
  {
    var t0, t1: int;
    ghost var z2, z4, u, c := 0, 0, Q.X, b;
    if Q.Z == 1 {
      t0 := MMul(Q.Y, Q.Y, p);
      t0 := MAdd(MAdd(MAdd(t0, Q.X, p), Q.X, p), Q.X, p);
      t1 := MMul(Q.X, Q.X, p);
      t1 := MMul(t1, Q.X, p);
      t1 := MAdd(t1, b, p);
    } else {
      t0 := MMul(Q.Y, Q.Y, p);
      t1 := MMul(Q.Z, Q.Z, p);
      var t2 := MMul(t1, t1, p);
      z2, z4 := t1, t2;
      t1 := MMul(t1, t2, p);
      t1 := MMul(t1, b, p);
      t2 := MMul(t2, Q.X, p);
      u, c := t2, t1;
      t0 := MAdd(MAdd(MAdd(t0, t2, p), t2, p), t2, p);
      t2 := MMul(Q.X, Q.X, p);
      t2 := MMul(t2, Q.X, p);
      t1 := MAdd(t1, t2, p);
    }
    ok := t0 == t1;
    if Q.Z == 0 {
      InfiniteSides(Q.X, Q.Y, z2, z4, t0, t1, p, b);
    } else {
      SideTerms(A.x, Q.X, Q.Z, z2, z4, u, c, p, b);
      CurveSides(A, Q.X, Q.Y, Q.Z, u, c, t0, t1, p, b);
    }
  }

  /** Without a Z the coefficients vanish from both sides. */
  lemma InfiniteSides(X: int, Y: int, z2: int, z4: int, t0: int, t1: int, p: int, b: int)
    requires p > 0 && z2 == MMul(0, 0, p) && z4 == MMul(z2, z2, p)
    requires var u := MMul(z4, X, p); t0 == MAdd(MAdd(MAdd(MMul(Y, Y, p), u, p), u, p), u, p)
    requires t1 == MAdd(MMul(MMul(z2, z4, p), b, p), MMul(MMul(X, X, p), X, p), p)
    ensures t0 == t1 <==> Cong(Y * Y, X * X * X, p)
  {
    var u, c := MMul(z4, X, p), MMul(MMul(z2, z4, p), b, p);
    ZeroFactors(X, b, p);
    CongMod(Y * Y, p);
    Triple(MMul(Y, Y, p), Y * Y, u, 0, p);
    Op(X, X, X, X, p);
    Op(MMul(X, X, p), X * X, X, X, p);
    Op(c, 0, MMul(MMul(X, X, p), X, p), X * X * X, p);
    if Cong(t0, t1, p) { CongEqual(t0, t1, p); }
  }

  lemma ZeroFactors(X: int, b: int, p: int)
    requires p > 0
    ensures MMul(0, 0, p) == 0 && MMul(0, X, p) == 0 && MMul(0, b, p) == 0
  {
    ModUnique(0, 0, 0, p);
  }

  /** The coefficients of the two sides: x and b, both scaled by Z^6. */
  lemma SideTerms(x: int, X: int, Z: int, z2: int, z4: int, u: int, c: int, p: int, b: int)
    requires p > 0 && Cong(X, x * (Z * Z), p)
    requires Z == 1 ==> u == X && c == b
    requires Z != 1 ==> z2 == MMul(Z, Z, p) && z4 == MMul(z2, z2, p)
    requires Z != 1 ==> u == MMul(z4, X, p) && c == MMul(MMul(z2, z4, p), b, p)
    ensures var w := (Z * Z * Z) * (Z * Z * Z); Cong(u, x * w, p) && Cong(c, b * w, p)
  {
    if Z != 1 {
      var e := Z * Z;
      SixthPowers(x, 0, Z, b);
      Op(Z, Z, Z, Z, p);
      Op(z2, e, z2, e, p);
      Op(z4, e * e, X, x * e, p);
      Op(z2, e, z4, e * e, p);
      Op(MMul(z2, z4, p), e * (e * e), b, b, p);
    }
  }

  /** Both sides of the curve equation carry the factor Z^6. */
  lemma CurveSides(A: Point, X: int, Y: int, Z: int, u: int, c: int, t0: int, t1: int, p: int, b: int)
    requires Field(p) && A.Affine? && Scaled(X, Y, A.x, A.y, Z, p) && 0 < Z < p
    requires 0 <= A.x < p && 0 <= A.y < p
    requires var w := (Z * Z * Z) * (Z * Z * Z); Cong(u, A.x * w, p) && Cong(c, b * w, p)
    requires t0 == MAdd(MAdd(MAdd(MMul(Y, Y, p), u, p), u, p), u, p)
    requires t1 == MAdd(MMul(MMul(X, X, p), X, p), c, p) || t1 == MAdd(c, MMul(MMul(X, X, p), X, p), p)
    ensures t0 == t1 <==> OnCurve(A, p, b)
  {
    var z3, vx := Z * Z * Z, A.x * (Z * Z);
    var w, l, r := z3 * z3, A.y * A.y + 3 * A.x, A.x * A.x * A.x + b;
    var x3 := MMul(MMul(X, X, p), X, p);
    SixthPowers(A.x, A.y, Z, b);
    Op(Y, A.y * z3, Y, A.y * z3, p);
    Triple(MMul(Y, Y, p), (A.y * A.y) * w, u, A.x * w, p);
    Op(X, vx, X, vx, p);
    Op(MMul(X, X, p), vx * vx, X, vx, p);
    Op(x3, (A.x * A.x * A.x) * w, c, b * w, p);
    Op(c, b * w, x3, (A.x * A.x * A.x) * w, p);
    Gather(A.x * A.x * A.x, b, w);
    assert Cong(t1, r * w, p);
    NonZeroSixth(Z, p);
    CompareSides(t0, t1, l, r, w, p);
    Transpose(A.x, A.y, p, b);
    if Cong(t0, t1, p) { CongEqual(t0, t1, p); }
  }

  lemma NonZeroSixth(Z: int, p: int)
    requires Prime(p) && 0 < Z < p
    ensures !Cong((Z * Z * Z) * (Z * Z * Z), 0, p)
  {
    CongZero(Z, p);
    NonZeroFourth(Z, p);
    if Cong((Z * Z * Z) * (Z * Z * Z), 0, p) { Euclid(p, Z * Z * Z, Z * Z * Z); }
  }

  lemma Gather(x: int, y: int, w: int)
    ensures x * w + y * w == (x + y) * w
  {
  }

  lemma Triple(y: int, y': int, u: int, u': int, p: int)
    requires p > 0 && Cong(y, y', p) && Cong(u, u', p)
    ensures Cong(MAdd(MAdd(MAdd(y, u, p), u, p), u, p), y' + 3 * u', p)
  {
    Op(y, y', u, u', p);
    Op(MAdd(y, u, p), y' + u', u, u', p);
    Op(MAdd(MAdd(y, u, p), u, p), y' + u' + u', u, u', p);
  }

  lemma SixthPowers(x: int, y: int, Z: int, b: int)
    ensures var z2, z3 := Z * Z, Z * Z * Z; var w := z3 * z3; var vx := x * z2;
      (y * z3) * (y * z3) == (y * y) * w && vx * vx * vx == (x * x * x) * w &&
      (z2 * z2) * vx == x * w && (z2 * (z2 * z2)) * b == b * w &&
      (y * y) * w + 3 * (x * w) == (y * y + 3 * x) * w &&
      (Z == 1 ==> w == 1)
  {
    var z2, z3 := Z * Z, Z * Z * Z;
    var w := z3 * z3;
    assert z2 * (z2 * z2) == w by { Pull(z2, Z, Z * z2); assert z3 == Z * z2; assert z2 * z2 == Z * (Z * z2); Pull(z2 * Z, Z, z2); }
    Cubes(x, z2);
    assert (x * x * x) * (z2 * z2 * z2) == (x * z2) * (x * z2) * (x * z2);
    assert (z2 * z2) * (x * z2) == x * (z2 * (z2 * z2));
    assert (y * z3) * (y * z3) == (y * y) * (z3 * z3);
  }

  lemma CompareSides(t0: int, t1: int, l: int, r: int, w: int, p: int)
    requires Prime(p) && !Cong(w, 0, p) && Cong(t0, l * w, p) && Cong(t1, r * w, p)
    ensures Cong(t0, t1, p) <==> Cong(l, r, p)
  {
    if Cong(t0, t1, p) {
      assert l * w == w * l && r * w == w * r;
      Cancel(p, w, l, r);
    }
    if Cong(l, r, p) {
      CongMul(l, r, w, w, p);
    }
  }

  lemma Transpose(x: int, y: int, p: int, b: int)
    requires p > 0
    ensures Cong(y * y + 3 * x, x * x * x + b, p) <==> Cong(y * y, Cubic(x, b), p)
  {
    if Cong(y * y + 3 * x, x * x * x + b, p) {
      CongAdd(y * y + 3 * x, x * x * x + b, 3 * x, 3 * x, p);
    }
    if Cong(y * y, Cubic(x, b), p) {
      CongAdd(y * y, Cubic(x, b), 3 * x, 3 * x, p);
    }
  }

  // ------------------------------------------------------------ multiples

  /** k-fold addition: the multiple that scalar multiplication is for. */
  ghost function Multiple(k: nat, A: Point, p: int): Point
    requires p > 3
  {
    if k == 0 then Infinity else Add(Multiple(k - 1, A, p), A, p)
  }

  /** Associativity of the group law on the curve: the one fact about it taken as a hypothesis. */
  ghost predicate Associative(p: int, b: int)
    requires p > 3
  {
    forall A, C, D {:trigger Associates(A, C, D, p)} ::
      OnCurve(A, p, b) && OnCurve(C, p, b) && OnCurve(D, p, b) ==> Associates(A, C, D, p)
  }

  ghost predicate Associates(A: Point, C: Point, D: Point, p: int)
    requires p > 3
  {
    Add(Add(A, C, p), D, p) == Add(A, Add(C, D, p), p)
  }

  /** What double-and-add computes from a bit string, without associativity. */
  ghost function DoubleAndAdd(bits: seq<char>, A: Point, p: int): Point
    requires p > 3
  {
    if bits == [] then Infinity
    else
      var Q := DoubleAndAdd(bits[..|bits| - 1], A, p);
      if bits[|bits| - 1] == '1' then Add(Add(Q, Q, p), A, p) else Add(Q, Q, p)
  }

  lemma {:induction false} MultipleOnCurve(k: nat, A: Point, p: int, b: int)
    requires Field(p) && OnCurve(A, p, b)
    ensures OnCurve(Multiple(k, A, p), p, b)
  {
    if k > 0 {
      MultipleOnCurve(k - 1, A, p, b);
      Closed(Multiple(k - 1, A, p), A, p, b);
    }
  }

  lemma {:induction false} MultipleAdd(j: nat, k: nat, A: Point, p: int, b: int)
    requires Field(p) && OnCurve(A, p, b) && Associative(p, b)
    ensures Add(Multiple(j, A, p), Multiple(k, A, p), p) == Multiple(j + k, A, p)
  {
    if k > 0 {
      MultipleAdd(j, k - 1, A, p, b);
      MultipleOnCurve(j, A, p, b);
      MultipleOnCurve(k - 1, A, p, b);
      assert Associates(Multiple(j, A, p), Multiple(k - 1, A, p), A, p);
    }
  }

  /** Double-and-add computes the k-fold sum. */
  lemma {:induction false} DoubleAndAddIsMultiple(bits: seq<char>, A: Point, p: int, b: int)
    requires Field(p) && OnCurve(A, p, b) && Associative(p, b)
    ensures DoubleAndAdd(bits, A, p) == Multiple(BitsValue(bits), A, p)
  {
    if bits != [] {
      var k := BitsValue(bits[..|bits| - 1]);
      DoubleAndAddIsMultiple(bits[..|bits| - 1], A, p, b);
      MultipleAdd(k, k, A, p, b);
    }
  }

  lemma {:induction false} DoubleAndAddOnCurve(bits: seq<char>, A: Point, p: int, b: int)
    requires Field(p) && OnCurve(A, p, b)
    ensures OnCurve(DoubleAndAdd(bits, A, p), p, b)
  {
    if bits != [] {
      var Q := DoubleAndAdd(bits[..|bits| - 1], A, p);
      DoubleAndAddOnCurve(bits[..|bits| - 1], A, p, b);
      Closed(Q, Q, p, b);
      Closed(Add(Q, Q, p), A, p, b);
    }
  }

  /** sm2_jacobian_point_mul on the 256-bit scalar k, for every finite point of the curve. */
  method Mul(k: array<u64>, Pt: JacobianPoint, p: int, ghost A: Point, ghost b: int) returns (R: JacobianPoint)
    requires Field(p) && Reduced(Pt.Value(), p) && Represents(Pt.Value(), A, p) && A.Affine? && OnCurve(A, p, b)
    requires k.Length == 8 && Norm(k[..])
    ensures Reduced(R.Value(), p)
    ensures Associative(p, b) ==> Val(k[..]) >= 0 && Represents(R.Value(), Multiple(Val(k[..]), A, p), p)
  {
    var bits := new char[257](_ => 0 as char);
    var x, y := GetXy(Pt, p, A);
    var T := new JacobianPoint(x, y, 1);
    var Q := new JacobianPoint(1, 1, 0);
    ToBits(k, bits);
    ghost var s := bits[..256];
    var i := 0;
    while i < 256
      invariant 0 <= i <= 256 && bits[..256] == s
      invariant T.Value() == Jac(x, y, 1) && Q != T && fresh(Q) && fresh(T)
      invariant Reduced(Q.Value(), p) && Represents(Q.Value(), DoubleAndAdd(s[..i], A, p), p)
    {
      ghost var D := DoubleAndAdd(s[..i], A, p);
      DoubleAndAddOnCurve(s[..i], A, p, b);
      Closed(D, D, p, b);
      assert s[..i + 1][..i] == s[..i] && bits[i] == s[i];
      Q.Dbl(Q, p, D);
      if bits[i] == '1' {
        Q.AddMixed(Q, T, p, Add(D, D, p), A, b);
      }
      i := i + 1;
    }
    assert s[..256] == s;
    R := new JacobianPoint(Q.X, Q.Y, Q.Z);
    if Associative(p, b) {
      DoubleAndAddIsMultiple(s, A, p, b);
    }
  }

  // ------------------------------------------------------------ sums of two multiples

  /** S plus the pair (0, 0), which stands for the point at infinity made affine. */
  ghost function PlusOrigin(S: Point, p: int): Point
    requires p > 3
  {
    MixedSum(S, Affine(0, 0), p)
  }

  /** The x coordinate of that: (b - 3 x) / x^2. */
  ghost function OriginX(x: int, p: int, b: int): int
    requires p > 3
  {
    MMul(b - 3 * x, Inverse(x * x, p), p)
  }

  lemma PlusOriginX(S: Point, p: int, b: int)
    requires Field(p) && OnCurve(S, p, b)
    ensures S.Infinity? ==> PlusOrigin(S, p) == Affine(0, 0)
    ensures S.Affine? && S.x == 0 ==> PlusOrigin(S, p) == Infinity
    ensures S.Affine? && S.x != 0 ==> PlusOrigin(S, p).Affine? && PlusOrigin(S, p).x == OriginX(S.x, p, b)
  {
    if S.Affine? && S.x != 0 {
      var x, s := S.x, Slope(S, Affine(0, 0), p);
      CongDifference(0, x, p);
      Quotient(0 - S.y, 0 - x, s, p);
      OriginChord(x, S.y, s, PlusOrigin(S, p).x, p, b);
    }
  }

  /** The third point of the chord through (x, y) and (0, 0). */
  lemma OriginChord(x: int, y: int, s: int, x3: int, p: int, b: int)
    requires Field(p) && 0 < x < p && Cong(y * y, Cubic(x, b), p) && Cong(s * (0 - x), 0 - y, p)
    requires x3 == (s * s - x - 0) % p
    ensures x3 == OriginX(x, p, b)
  {
    CongMul(s * (0 - x), 0 - y, s * (0 - x), 0 - y, p);
    ChordSquares(x, y, s, b);
    CongAdd(y * y, Cubic(x, b), x * x * x, x * x * x, p);
    CongAdd((s * s) * (x * x), y * y, x * x * x, x * x * x, p);
    CongMod(s * s - x, p);
    CongMul(x3, s * s - x, x * x, x * x, p);
    CongZero(x, p);
    NonZeroFourth(x, p);
    Quotient(b - 3 * x, x * x, OriginX(x, p, b), p);
    assert x3 * (x * x) == (x * x) * x3 && OriginX(x, p, b) * (x * x) == (x * x) * OriginX(x, p, b);
    Cancel(p, x * x, x3, OriginX(x, p, b));
    CongEqual(x3, OriginX(x, p, b), p);
  }

  lemma ChordSquares(x: int, y: int, s: int, b: int)
    ensures (s * (0 - x)) * (s * (0 - x)) == (s * s) * (x * x) && (0 - y) * (0 - y) == y * y
    ensures (s * s - x) * (x * x) == (s * s) * (x * x) - x * x * x && Cubic(x, b) - x * x * x == b - 3 * x
  {
  }

  /** t P + s G as sm2_jacobian_point_mul_sum computes it: when t P is the point at infinity, making it
      affine has turned it into the pair (0, 0). */
  ghost function MultiplesSum(T: Point, S: Point, p: int): Point
    requires p > 3
  {
    if T.Affine? then Add(S, T, p) else PlusOrigin(S, p)
  }

  /** sm2_jacobian_point_mul_sum. */
  method MulSum(t: array<u64>, Pt: JacobianPoint, s: array<u64>, G: JacobianPoint, p: int, ghost A: Point, ghost C: Point, ghost b: int)
    returns (R: JacobianPoint)
    requires Field(p) && Associative(p, b) && t.Length == s.Length == 8 && Norm(t[..]) && Norm(s[..])
    requires Reduced(Pt.Value(), p) && Represents(Pt.Value(), A, p) && A.Affine? && OnCurve(A, p, b)
    requires Reduced(G.Value(), p) && Represents(G.Value(), C, p) && C.Affine? && OnCurve(C, p, b)
    ensures Val(t[..]) >= 0 && Val(s[..]) >= 0 && Reduced(R.Value(), p)
    ensures Represents(R.Value(), MultiplesSum(Multiple(Val(t[..]), A, p), Multiple(Val(s[..]), C, p), p), p)
  {
    var sG := Mul(s, G, p, C, b);
    R := Mul(t, Pt, p, A, b);
    ghost var S, T := Multiple(Val(s[..]), C, p), Multiple(Val(t[..]), A, p);
    MultipleOnCurve(Val(s[..]), C, p, b);
    MultipleOnCurve(Val(t[..]), A, p, b);
    var x, y := GetXy(R, p, T);
    R := new JacobianPoint(x, y, 1);
    ghost var D := Affine(x, y);
    UnitRepresents(x, y, p);
    R.AddMixed(sG, R, p, S, D, b);
  }

  lemma UnitRepresents(x: int, y: int, p: int)
    requires p > 0
    ensures Represents(Jac(x, y, 1), Affine(x, y), p)
  {
  }
}
