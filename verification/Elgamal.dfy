/** The discrete logarithm of sm2_elgamal.c: a table of baby steps indexed by the low bits of the x
    coordinate, and giant steps that look points up in it. */
module Elgamal {
  import Limbs
  import opened Modular
  import opened Curve
  import opened Jacobian
  import opened PointMul
  import opened Scalars

  const SIZE := 65536
  const MAX_OFFSETS := 6

  /** SM2_PRE_COMPUTE; the offset count is the length. */
  datatype Entry = Entry(offset: seq<nat>, x: int)

  /** What the program relies on about the order of the group. */
  ghost predicate Large(c: Params) { c.n > 0x1_0001_0000 }

  /** The x coordinate of (k + 1) G. */
  ghost function Abscissa(c: Params, k: nat): int
    requires Good(c)
  {
    var A := TimesG(c, k + 1);
    if A.Affine? then A.x else 0
  }

  /** The baby steps below n whose x coordinate ends in the bits of j, in order. */
  ghost function Bucket(c: Params, j: int, n: nat): seq<nat>
    requires Good(c)
  {
    if n == 0 then [] else Bucket(c, j, n - 1) + if Abscissa(c, n - 1) % SIZE == j then [n - 1] else []
  }

  /** The precondition of the assertion in the source: no bucket overflows. */
  ghost predicate Roomy(c: Params)
    requires Good(c)
  {
    forall j :: 0 <= j < SIZE ==> |Bucket(c, j, SIZE)| <= MAX_OFFSETS
  }

  /** The table after n baby steps. */
  ghost predicate Filled(c: Params, t: seq<Entry>, n: nat)
    requires Good(c)
  {
    n <= |t| == SIZE && (forall k :: 0 <= k < n ==> t[k].x == Abscissa(c, k)) &&
    (forall j :: 0 <= j < SIZE ==> t[j].offset == Bucket(c, j, n))
  }

  lemma {:induction false} BucketGrows(c: Params, j: int, m: nat, n: nat)
    requires Good(c) && m <= n
    ensures |Bucket(c, j, m)| <= |Bucket(c, j, n)|
  {
    if m < n { BucketGrows(c, j, m, n - 1); }
  }

  /** Membership in a bucket. */
  lemma {:induction false} BucketHas(c: Params, j: int, n: nat, k: nat)
    requires Good(c)
    ensures k in Bucket(c, j, n) <==> k < n && Abscissa(c, k) % SIZE == j
  {
    if n > 0 { BucketHas(c, j, n - 1, k); }
  }

  /** The baby steps are finite points, and their x coordinates are in range. */
  lemma BabyFinite(c: Params, k: nat)
    requires Good(c) && Large(c) && k < 0x1_0001_0000
    ensures k > 0 ==> TimesG(c, k).Affine? && 0 <= TimesG(c, k).x < c.p && 0 <= TimesG(c, k).y < c.p
    ensures k == 0 ==> TimesG(c, k) == Infinity
  {
    Vanishes(c, k);
    ModUnique(k, 0, k, c.n);
    OnIt(c, k);
  }

  ghost predicate IsGenerator(c: Params, G: JacobianPoint)
    reads G
  {
    c.G.Affine? && G.Value() == Jac(c.G.x, c.G.y, 1)
  }

  lemma GeneratorRepresents(c: Params, J: Jac)
    requires Good(c) && c.G.Affine? && J == Jac(c.G.x, c.G.y, 1)
    ensures Reduced(J, c.p) && Represents(J, c.G, c.p)
  {
  }

  /** memset of the table. */
  method Clear(table: array<Entry>)
    requires table.Length == SIZE
    modifies table
    ensures forall j :: 0 <= j < SIZE ==> table[..][j] == Entry([], 0)
  {
    forall k | 0 <= k < SIZE { table[k] := Entry([], 0); }
  }

  /** The new x coordinate, and the index of its point in the bucket of its low bits. */
  method Insert(c: Params, table: array<Entry>, i: nat, x: int)
    requires Good(c) && Roomy(c) && i < SIZE == table.Length && Filled(c, table[..], i) && x == Abscissa(c, i)
    modifies table
    ensures Filled(c, table[..], i + 1)
  {
    ghost var before := table[..];
    table[i] := table[i].(x := x);
    var j := x % 65536;
    FillStep(c, before, i, x, j);
    assert table[..] == before[i := before[i].(x := x)];
    table[j] := table[j].(offset := table[j].offset + [i]);
    assert table[..] == before[i := before[i].(x := x)][j := table[j]];
  }

  /** P = P + G, and its x coordinate. */
  method BabyStep(c: Params, P: JacobianPoint, G: JacobianPoint, ghost i: nat) returns (x: int)
    requires Good(c) && Large(c) && IsGenerator(c, G) && i < SIZE && P != G
    requires Reduced(P.Value(), c.p) && Represents(P.Value(), TimesG(c, i), c.p)
    modifies P
    ensures Reduced(P.Value(), c.p) && Represents(P.Value(), TimesG(c, i + 1), c.p) && x == Abscissa(c, i)
  {
    OnIt(c, i);
    GeneratorRepresents(c, G.Value());
    P.AddMixed(P, G, c.p, TimesG(c, i), c.G, c.b);
    BabyFinite(c, i + 1);
    var y;
    x, y := GetXy(P, c.p, TimesG(c, i + 1));
  }

  /** sm2_elgamal_decrypt_pre_compute. */
  method PreCompute(c: Params, G: JacobianPoint, table: array<Entry>)
    requires Good(c) && Large(c) && Roomy(c) && IsGenerator(c, G) && table.Length == SIZE
    modifies table
    ensures Filled(c, table[..], SIZE)
  {
    Clear(table);
    var P := new JacobianPoint(1, 1, 0);
    var i := 0;
    while i < SIZE
      invariant 0 <= i <= SIZE && P != G && Filled(c, table[..], i)
      invariant fresh(P) && Reduced(P.Value(), c.p) && Represents(P.Value(), TimesG(c, i), c.p)
    {
      var x := BabyStep(c, P, G, i);
      Insert(c, table, i, x);
      i := i + 1;
    }
  }

  /** The bucket of a new point has room for it. */
  lemma FillStep(c: Params, t: seq<Entry>, i: nat, x: int, j: int)
    requires Good(c) && Roomy(c) && i < SIZE && Filled(c, t, i) && x == Abscissa(c, i) && j == x % SIZE
    ensures var u := t[i := t[i].(x := x)];
      |u[j].offset| < MAX_OFFSETS && Filled(c, u[j := u[j].(offset := u[j].offset + [i])], i + 1)
  {
    BucketGrows(c, j, i + 1, SIZE);
  }

  /** Every entry is found in the bucket that its x coordinate selects. */
  ghost predicate Indexed(t: seq<Entry>) {
    |t| == SIZE && (forall k, o :: 0 <= k < SIZE && o in t[k].offset ==> o < SIZE) &&
    (forall k :: 0 <= k < SIZE ==> k in t[t[k].x % SIZE].offset)
  }

  lemma FilledIndexed(c: Params, t: seq<Entry>)
    requires Good(c) && Filled(c, t, SIZE)
    ensures Indexed(t)
  {
    forall k, o: nat | 0 <= k < SIZE && o in t[k].offset ensures o < SIZE { BucketHas(c, k, SIZE, o); }
    forall k: nat | 0 <= k < SIZE ensures k in t[t[k].x % SIZE].offset { BucketHas(c, t[k].x % SIZE, SIZE, k); }
  }

  /** sm2_pre_compute_get_offset: looking in one bucket finds what a search of the whole table finds. */
  method GetOffset(table: array<Entry>, x: int) returns (ret: int, offset: nat)
    requires Indexed(table[..])
    ensures ret == 1 <==> exists k :: 0 <= k < SIZE && table[..][k].x == x
    ensures ret == 1 ==> offset < SIZE && table[..][offset].x == x
  {
    ghost var t := table[..];
    var i := x % 65536;
    var w := 0;
    offset := 0;
    assert t[i] == table[i];
    while w < |table[i].offset|
      invariant 0 <= w <= |t[i].offset|
      invariant forall v :: 0 <= v < w ==> t[i].offset[v] < SIZE && t[t[i].offset[v]].x != x
    {
      var j := table[i].offset[w];
      assert j in t[i].offset;
      if table[j].x == x {
        return 1, j;
      }
      w := w + 1;
    }
    ret := 0;
    NoneFound(t, i, x);
  }

  lemma NoneFound(t: seq<Entry>, i: int, x: int)
    requires Indexed(t) && i == x % SIZE
    requires forall v :: 0 <= v < |t[i].offset| ==> t[i].offset[v] < SIZE && t[t[i].offset[v]].x != x
    ensures forall k :: 0 <= k < SIZE ==> t[k].x != x
  {
    forall k | 0 <= k < SIZE ensures t[k].x != x { assert k in t[t[k].x % SIZE].offset; }
  }

  // ------------------------------------------------------------ giant steps

  lemma NegativeRepresents(J: Jac, A: Point, p: int)
    requires Field(p) && Reduced(J, p) && Represents(J, A, p)
    ensures var R := Jac(J.X, MSub(0, J.Y, p), J.Z);
      Reduced(R, p) && Represents(R, Negative(A, p), p)
  {
    if J.Z != 0 {
      var z3, y := J.Z * J.Z * J.Z, A.y * (J.Z * J.Z * J.Z);
      Op(0, 0, J.Y, y, p);
      CongMod(0 - A.y, p);
      CongMul(MSub(0, A.y, p), -A.y, z3, z3, p);
      assert (-A.y) * z3 == -y;
    }
  }

  /** sm2_bn_set_word. */
  method StepWord() returns (k: array<Limbs.u64>)
    ensures fresh(k) && k.Length == 8 && Limbs.Norm(k[..]) && Limbs.Val(k[..]) == SIZE
  {
    k := Limbs.FromLimbs([65536, 0, 0, 0, 0, 0, 0, 0]);
    Limbs.Val8(k[..]);
    assert k[..][..8] == k[..];
  }

  /** Q = -2^16 G in affine form. */
  method GiantStep(c: Params, G: JacobianPoint) returns (Q: JacobianPoint)
    requires Good(c) && Large(c) && IsGenerator(c, G)
    ensures fresh(Q) && Q.Z == 1 && Reduced(Q.Value(), c.p) && Represents(Q.Value(), Negative(TimesG(c, SIZE), c.p), c.p)
  {
    var k := StepWord();
    GeneratorRepresents(c, G.Value());
    var R := PointMul.Mul(k, G, c.p, c.G, c.b);
    NegativeRepresents(R.Value(), TimesG(c, SIZE), c.p);
    R := new JacobianPoint(R.X, MSub(0, R.Y, c.p), R.Z);
    ghost var A := Negative(TimesG(c, SIZE), c.p);
    BabyFinite(c, SIZE);
    var x, y := GetXy(R, c.p, A);
    Q := new JacobianPoint(x, y, 1);
  }

  /** The table holds the x coordinate of v G exactly for v up to its size. */
  lemma Lookup(c: Params, t: seq<Entry>, v: nat)
    requires Good(c) && Large(c) && Filled(c, t, SIZE) && 0 < v < 0x1_0000_0000 && TimesG(c, v).Affine?
    ensures forall k :: 0 <= k < SIZE && t[k].x == TimesG(c, v).x ==> v == k + 1
    ensures v <= SIZE <==> exists k :: 0 <= k < SIZE && t[k].x == TimesG(c, v).x
  {
    forall k | 0 <= k < SIZE && t[k].x == TimesG(c, v).x ensures v == k + 1 { LookupOne(c, k + 1, v); }
    if v <= SIZE { assert t[v - 1].x == TimesG(c, v).x; }
  }

  /** Equal x coordinates would also come from opposite scalars, but these are too small for that. */
  lemma LookupOne(c: Params, k: nat, v: nat)
    requires Good(c) && Large(c) && 0 < k <= SIZE && 0 < v < 0x1_0000_0000
    requires TimesG(c, v).Affine? && Abscissa(c, k - 1) == TimesG(c, v).x
    ensures v == k
  {
    ModUnique(k, 0, k, c.n);
    ModUnique(v, 0, v, c.n);
    SameAbscissa(c, k, v);
    ModUnique(k + v, 0, k + v, c.n);
    if k <= v { Injective(c, k, v); } else { Injective(c, v, k); }
  }

  /** The x coordinate of a finite P = v G, looked up. */
  method Probe(c: Params, table: array<Entry>, P: JacobianPoint, ghost v: nat) returns (found: int, j: nat)
    requires Good(c) && Large(c) && table.Length == SIZE && Filled(c, table[..], SIZE) && 0 < v < 0x1_0000_0000
    requires Reduced(P.Value(), c.p) && Represents(P.Value(), TimesG(c, v), c.p)
    ensures found == 1 ==> j + 1 == v
    ensures found != 1 ==> v > SIZE
  {
    BabyFinite(c, v);
    FilledIndexed(c, table[..]);
    ghost var t := table[..];
    var x, y := GetXy(P, c.p, TimesG(c, v));
    found, j := GetOffset(table, x);
    assert table[..] == t;
    Lookup(c, t, v);
  }

  /** P = P + Q takes 2^16 G away. */
  method Subtract65536(c: Params, P: JacobianPoint, Q: JacobianPoint, ghost v: nat)
    requires Good(c) && Large(c) && P != Q && v >= SIZE && Q.Z == 1
    requires Reduced(Q.Value(), c.p) && Represents(Q.Value(), Negative(TimesG(c, SIZE), c.p), c.p)
    requires Reduced(P.Value(), c.p) && Represents(P.Value(), TimesG(c, v), c.p)
    modifies P
    ensures Reduced(P.Value(), c.p) && Represents(P.Value(), TimesG(c, v - SIZE), c.p)
  {
    OnIt(c, v);
    OnIt(c, SIZE);
    NegativeOnCurve(TimesG(c, SIZE), c.p, c.b);
    Subtract(c, v - SIZE, SIZE);
    P.AddMixed(P, Q, c.p, TimesG(c, v), Negative(TimesG(c, SIZE), c.p), c.b);
  }

  /** sm2_elgamal_solve_ecdlp: on m G it returns m, for every m from 1 to 2^32 - 1. */
  method SolveEcdlp(c: Params, G: JacobianPoint, table: array<Entry>, x0: int, y0: int, ghost m: nat)
    returns (ret: int, private: int)
    requires Good(c) && Large(c) && IsGenerator(c, G) && table.Length == SIZE && Filled(c, table[..], SIZE)
    requires 1 <= m < 0x1_0000_0000 && TimesG(c, m) == Affine(x0, y0)
    ensures ret == 1 && private == m
  {
    var P := new JacobianPoint(x0, y0, 1);
    var Q := GiantStep(c, G);
    OnIt(c, m);
    ghost var v: nat := m;
    var i := 0;
    while i < 65536
      invariant 0 <= i <= 65536 && m == v + 65536 * i && fresh(P) && P != Q && Q.Z == 1
      invariant Reduced(Q.Value(), c.p) && Represents(Q.Value(), Negative(TimesG(c, SIZE), c.p), c.p)
      invariant Reduced(P.Value(), c.p) && Represents(P.Value(), TimesG(c, v), c.p)
    {
      BabyFinite(c, v);
      if P.Z == 0 {
        return 1, i * 65536;
      }
      var found, j := Probe(c, table, P, v);
      if found == 1 {
        return 1, i * 65536 + j + 1;
      }
      Subtract65536(c, P, Q, v);
      v, i := v - 65536, i + 1;
    }
    assert false;
  }

  // ------------------------------------------------------------ ciphertexts

  /** sm2_elgamal_do_encrypt for the public key d G: k G and m G + k d G. */
  ghost function Ciphertext(c: Params, d: nat, k: nat, m: nat): (Point, Point)
    requires Good(c)
  {
    (TimesG(c, k), Add(TimesG(c, m), Multiple(k, TimesG(c, d), c.p), c.p))
  }

  /** The point that decryption looks up is m G whatever the random k. */
  lemma DecryptedPoint(c: Params, d: nat, k: nat, m: nat)
    requires Good(c)
    ensures var (C1, C2) := Ciphertext(c, d, k, m);
      Multiple(d, C1, c.p) == TimesG(c, k * d) &&
      Add(C2, Negative(Multiple(d, C1, c.p), c.p), c.p) == TimesG(c, m)
  {
    MultipleOfMultiple(c, k, d);
    MultipleOfMultiple(c, d, k);
    assert k * d == d * k;
    Sum(c, m, k * d);
    Subtract(c, m, k * d);
  }

  /** sm2_elgamal_do_decrypt with the table filled: every ciphertext of m, for every m from 1 to 2^32 - 1 and
      every k, whose parts are finite points as the 64-byte form demands, decrypts to m. */
  method DoDecrypt(c: Params, G: JacobianPoint, table: array<Entry>, key: array<Limbs.u64>, C1: JacobianPoint, C2: JacobianPoint,
                   ghost d: nat, ghost k: nat, ghost m: nat) returns (ret: int, out: int)
    requires Good(c) && Large(c) && IsGenerator(c, G) && table.Length == SIZE && Filled(c, table[..], SIZE)
    requires key.Length == 8 && Limbs.Norm(key[..]) && Limbs.Val(key[..]) == d && d % c.n != 0 && 1 <= m < 0x1_0000_0000
    requires Reduced(C1.Value(), c.p) && C1.Z == 1 && Represents(C1.Value(), Ciphertext(c, d, k, m).0, c.p)
    requires Reduced(C2.Value(), c.p) && C2.Z == 1 && Represents(C2.Value(), Ciphertext(c, d, k, m).1, c.p)
    ensures ret == 1 && out == m
  {
    ghost var t := table[..];
    var M := Shared(c, key, C1, d, k);
    ghost var A := Multiple(d, TimesG(c, k), c.p);
    NegativeRepresents(M.Value(), A, c.p);
    M := new JacobianPoint(M.X, MSub(0, M.Y, c.p), M.Z);
    PartsOnCurve(c, d, k, m);
    NegativeOnCurve(A, c.p, c.b);
    M.AddMixed(C2, M, c.p, Ciphertext(c, d, k, m).1, Negative(A, c.p), c.b);
    DecryptedPoint(c, d, k, m);
    BabyFinite(c, m);
    var x, y := GetXy(M, c.p, TimesG(c, m));
    assert table[..] == t;
    ret, out := SolveEcdlp(c, G, table, x, y, m);
  }

  /** sm2_point_mul: d k G in affine form. */
  method Shared(c: Params, key: array<Limbs.u64>, C1: JacobianPoint, ghost d: nat, ghost k: nat) returns (M: JacobianPoint)
    requires Good(c) && key.Length == 8 && Limbs.Norm(key[..]) && Limbs.Val(key[..]) == d && d % c.n != 0
    requires Reduced(C1.Value(), c.p) && C1.Z == 1 && Represents(C1.Value(), TimesG(c, k), c.p)
    ensures fresh(M) && M.Z == 1 && Reduced(M.Value(), c.p) && Represents(M.Value(), Multiple(d, TimesG(c, k), c.p), c.p)
  {
    OnIt(c, k);
    var R := PointMul.Mul(key, C1, c.p, TimesG(c, k), c.b);
    ghost var A := Multiple(d, TimesG(c, k), c.p);
    MultipleOnCurve(d, TimesG(c, k), c.p, c.b);
    Vanishes(c, k);
    MultipleOfMultiple(c, d, k);
    NonZeroProduct(d, k, c.n);
    Vanishes(c, d * k);
    var x, y := GetXy(R, c.p, A);
    M := new JacobianPoint(x, y, 1);
  }

  lemma PartsOnCurve(c: Params, d: nat, k: nat, m: nat)
    requires Good(c)
    ensures OnCurve(Multiple(d, TimesG(c, k), c.p), c.p, c.b) && OnCurve(Ciphertext(c, d, k, m).1, c.p, c.b)
  {
    OnIt(c, k);
    OnIt(c, d);
    OnIt(c, m);
    MultipleOnCurve(d, TimesG(c, k), c.p, c.b);
    MultipleOnCurve(k, TimesG(c, d), c.p, c.b);
    Closed(TimesG(c, m), Multiple(k, TimesG(c, d), c.p), c.p, c.b);
  }

  /** sm2_elgamal_ciphertext_add with its own random l: the sum of two ciphertexts is a ciphertext of the sum. */
  lemma CiphertextsAdd(c: Params, d: nat, k: nat, m: nat, k': nat, m': nat, l: nat)
    requires Good(c)
    ensures var (A1, A2) := Ciphertext(c, d, k, m); var (B1, B2) := Ciphertext(c, d, k', m'); var P := TimesG(c, d);
      (Add(Add(A1, B1, c.p), TimesG(c, l), c.p), Add(Add(A2, B2, c.p), Multiple(l, P, c.p), c.p))
      == Ciphertext(c, d, k + k' + l, m + m')
  {
    CipherPart(c, d, k, m);
    CipherPart(c, d, k', m');
    CipherPart(c, d, k + k' + l, m + m');
    MultipleOfMultiple(c, l, d);
    Sum3(c, k, k', l);
    Sum3(c, m + k * d, m' + k' * d, l * d);
    Distribute(k, k', l, d);
  }

  lemma Sum3(c: Params, u: nat, v: nat, w: nat)
    requires Good(c)
    ensures Add(Add(TimesG(c, u), TimesG(c, v), c.p), TimesG(c, w), c.p) == TimesG(c, u + v + w)
  {
    Sum(c, u, v);
    Sum(c, u + v, w);
  }

  /** The second part is the multiple by m + k d. */
  lemma CipherPart(c: Params, d: nat, k: nat, m: nat)
    requires Good(c)
    ensures k * d >= 0 && Ciphertext(c, d, k, m) == (TimesG(c, k), TimesG(c, m + k * d))
  {
    MultipleOfMultiple(c, k, d);
    Sum(c, m, k * d);
  }

  lemma Distribute(k: int, k': int, l: int, d: int)
    ensures (k + k' + l) * d == k * d + k' * d + l * d
  {
  }
}
