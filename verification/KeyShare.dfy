/** Shamir secret sharing of a private key: sm2_key_split and sm2_key_recover over the scalars
    modulo a prime n (the source fixes SM2_N). */
module KeyShare {
  import opened Modular
  import opened Curve

  const MAX_SHARES := 12

  type i32 = x: int | -0x8000_0000 <= x < 0x8000_0000

  datatype Share = Share(key: int, index: nat, totalCnt: nat)

  // ------------------------------------------------------------ polynomials

  /** c[0] + c[1] x + c[2] x^2 + ... */
  ghost function Poly(c: seq<int>, x: int): int {
    if c == [] then 0 else c[0] + x * Poly(c[1..], x)
  }

  ghost function Residue(c: seq<int>, x: int, n: int): int
    requires n > 0
  {
    Poly(c, x) % n
  }

  /** eval_univariate_poly: Horner's rule computes the polynomial. */
  method EvalPoly(coeffs: seq<int>, x: int, n: int) returns (y: int)
    requires n > 0
    ensures y == Residue(coeffs, x, n)
  {
    y := 0;
    var cnt := |coeffs|;
    ModUnique(0, 0, 0, n);
    while cnt > 0
      invariant 0 <= cnt <= |coeffs| && y == Poly(coeffs[cnt..], x) % n
    {
      cnt := cnt - 1;
      ghost var v := Poly(coeffs[cnt + 1..], x);
      assert coeffs[cnt..][1..] == coeffs[cnt + 1..];
      CongMod(v, n);
      Op(y, v, x, x, n);
      Op(MMul(y, x, n), v * x, coeffs[cnt], coeffs[cnt], n);
      y := MMul(y, x, n);
      y := MAdd(y, coeffs[cnt], n);
      ModUnique(y, 0, y, n);
      assert v * x + coeffs[cnt] == Poly(coeffs[cnt..], x);
    }
    assert coeffs[0..] == coeffs;
  }

  /** Dividing by x - m: c(x) = c(m) + (x - m) q(x), with q one coefficient shorter. */
  ghost function Divide(c: seq<int>, m: int): seq<int> {
    if |c| <= 1 then [] else [Poly(c[1..], m)] + Divide(c[1..], m)
  }

  lemma {:induction false} DivideLaw(c: seq<int>, m: int, x: int)
    requires |c| > 0
    ensures Poly(c, x) == Poly(c, m) + (x - m) * Poly(Divide(c, m), x)
    ensures |Divide(c, m)| == |c| - 1
  {
    if |c| > 1 {
      var d := c[1..];
      DivideLaw(d, m, x);
      var q := Divide(d, m);
      assert Divide(c, m)[1..] == q;
      DivideStep(x, m, Poly(d, x), Poly(d, m), Poly(q, x));
    }
  }

  lemma DivideStep(x: int, m: int, dx: int, dm: int, q: int)
    requires dx == dm + (x - m) * q
    ensures x * dx == m * dm + (x - m) * (dm + x * q)
  {
    assert x * ((x - m) * q) == (x - m) * (x * q);
  }

  // ------------------------------------------------------------ sums and products over nodes

  ghost function Sum(s: seq<int>): int {
    if s == [] then 0 else Sum(s[..|s| - 1]) + s[|s| - 1]
  }

  /** The product of the first t elements, leaving out position i. */
  ghost function Others(f: seq<int>, i: nat, t: nat): int
    requires t <= |f|
  {
    if t == 0 then 1 else Others(f, i, t - 1) * (if t - 1 == i then 1 else f[t - 1])
  }

  function Drop<T>(s: seq<T>, m: nat): (r: seq<T>)
    requires m < |s|
    ensures |r| == |s| - 1
  {
    s[..m] + s[m + 1..]
  }

  /** Where position i of a sequence goes when position m is dropped. */
  ghost function Moved(i: nat, m: nat): nat
    requires i != m
  {
    if i < m then i else i - 1
  }

  lemma {:induction false} SumDrop(s: seq<int>, m: nat)
    requires m < |s|
    ensures Sum(s) == s[m] + Sum(Drop(s, m))
  {
    var n := |s| - 1;
    if m < n {
      SumDrop(s[..n], m);
      assert Drop(s, m)[..n - 1] == Drop(s[..n], m);
    } else {
      assert Drop(s, m) == s[..n];
    }
  }

  lemma {:induction false} OthersSame(f: seq<int>, g: seq<int>, i: nat, j: nat, t: nat)
    requires t <= |f| && t <= |g| && f[..t] == g[..t] && (i == j || (i >= t && j >= t))
    ensures Others(f, i, t) == Others(g, j, t)
  {
    if t > 0 {
      assert f[..t - 1] == f[..t][..t - 1] && g[..t - 1] == g[..t][..t - 1];
      assert f[t - 1] == f[..t][t - 1] && g[t - 1] == g[..t][t - 1];
      OthersSame(f, g, i, j, t - 1);
    }
  }

  lemma {:induction false} OthersDrop(f: seq<int>, i: nat, m: nat, t: nat)
    requires m < t <= |f| && i != m
    ensures Others(f, i, t) == f[m] * Others(Drop(f, m), Moved(i, m), t - 1)
  {
    var g := Drop(f, m);
    if t - 1 == m {
      OthersSame(f, g, i, Moved(i, m), m);
    } else {
      OthersDrop(f, i, m, t - 1);
      var x, y := Others(g, Moved(i, m), t - 2), if t - 1 == i then 1 else f[t - 1];
      OthersFactor(f, i, m, t, x, y);
      Regroup(f[m], x, y);
    }
  }

  /** The last factor of both products. */
  lemma OthersFactor(f: seq<int>, i: nat, m: nat, t: nat, x: int, y: int)
    requires m + 1 < t <= |f| && i != m && y == if t - 1 == i then 1 else f[t - 1]
    requires x == Others(Drop(f, m), Moved(i, m), t - 2)
    ensures Others(f, i, t) == Others(f, i, t - 1) * y && Others(Drop(f, m), Moved(i, m), t - 1) == x * y
  {
    assert Drop(f, m)[t - 2] == f[t - 1];
  }

  lemma Regroup(x: int, y: int, z: int)
    ensures (x * y) * z == x * (y * z)
  {
  }

  // ------------------------------------------------------------ Lagrange weights at zero

  ghost function Negated(xs: seq<int>): seq<int> { seq(|xs|, j requires 0 <= j < |xs| => -xs[j]) }

  ghost function Minus(x: int, xs: seq<int>): seq<int> { seq(|xs|, j requires 0 <= j < |xs| => x - xs[j]) }

  ghost function Num(xs: seq<int>, i: nat): int { Others(Negated(xs), i, |xs|) }

  ghost function Den(xs: seq<int>, i: nat): int
    requires i < |xs|
  {
    Others(Minus(xs[i], xs), i, |xs|)
  }

  ghost predicate Distinct(xs: seq<int>, n: int)
    requires n > 0
  {
    forall i, j :: 0 <= i < j < |xs| ==> !Cong(xs[i] - xs[j], 0, n) && !Cong(xs[j] - xs[i], 0, n)
  }

  /** w is the weight of node i for interpolating at zero: w den = num. */
  ghost predicate IsWeight(w: int, xs: seq<int>, i: nat, n: int)
    requires i < |xs| && n > 0
  {
    Cong(w * Den(xs, i), Num(xs, i), n)
  }

  ghost predicate AreWeights(ws: seq<int>, xs: seq<int>, n: int)
    requires n > 0
  {
    |ws| == |xs| && forall i :: 0 <= i < |xs| ==> IsWeight(ws[i], xs, i, n)
  }

  lemma {:induction false} OthersNonZero(f: seq<int>, i: nat, t: nat, n: int)
    requires t <= |f| && Prime(n) && forall j :: 0 <= j < t && j != i ==> !Cong(f[j], 0, n)
    ensures !Cong(Others(f, i, t), 0, n)
  {
    if t == 0 {
      CongZero(1, n);
    } else {
      OthersNonZero(f, i, t - 1, n);
      if t - 1 != i && Cong(Others(f, i, t), 0, n) {
        Euclid(n, Others(f, i, t - 1), f[t - 1]);
      }
    }
  }

  lemma DenNonZero(xs: seq<int>, i: nat, n: int)
    requires i < |xs| && Prime(n) && Distinct(xs, n)
    ensures !Cong(Den(xs, i), 0, n)
  {
    OthersNonZero(Minus(xs[i], xs), i, |xs|, n);
  }

  /** Distinct nodes have weights. */
  lemma WeightsExist(xs: seq<int>, n: int) returns (ws: seq<int>)
    requires Field(n) && Distinct(xs, n)
    ensures AreWeights(ws, xs, n)
  {
    ws := seq(|xs|, i requires 0 <= i < |xs| => Num(xs, i) * Inverse(Den(xs, i), n));
    forall i | 0 <= i < |xs| ensures IsWeight(ws[i], xs, i, n) {
      DenNonZero(xs, i, n);
      WeightExists(Num(xs, i), Den(xs, i), n);
    }
  }

  lemma WeightExists(num: int, den: int, n: int)
    requires Field(n) && !Cong(den, 0, n)
    ensures Cong(num * Inverse(den, n) * den, num, n)
  {
    InverseCancels(den, n);
    CongMul(num, num, den * Inverse(den, n), 1, n);
    assert num * Inverse(den, n) * den == num * (den * Inverse(den, n));
  }

  lemma DropDistinct(xs: seq<int>, m: nat, n: int)
    requires m < |xs| && n > 0 && Distinct(xs, n)
    ensures Distinct(Drop(xs, m), n)
  {
  }

  lemma NumDrop(xs: seq<int>, i: nat, m: nat)
    requires i < |xs| && m < |xs| && i != m
    ensures Num(xs, i) == -xs[m] * Num(Drop(xs, m), Moved(i, m))
  {
    OthersDrop(Negated(xs), i, m, |xs|);
    assert Drop(Negated(xs), m) == Negated(Drop(xs, m));
  }

  lemma DenDrop(xs: seq<int>, i: nat, m: nat)
    requires i < |xs| && m < |xs| && i != m
    ensures Drop(xs, m)[Moved(i, m)] == xs[i]
    ensures Den(xs, i) == (xs[i] - xs[m]) * Den(Drop(xs, m), Moved(i, m))
  {
    OthersDrop(Minus(xs[i], xs), i, m, |xs|);
    assert Drop(Minus(xs[i], xs), m) == Minus(xs[i], Drop(xs, m));
  }

  /** Dropping node m: w_i (x_i - x_m) = -x_m w'_i. */
  lemma WeightDrop(w: int, w': int, xs: seq<int>, i: nat, m: nat, d: int, x: int, n: int)
    requires Field(n) && Distinct(xs, n) && i < |xs| && m < |xs| && i != m && d == xs[i] - xs[m] && x == xs[m]
    requires IsWeight(w, xs, i, n) && IsWeight(w', Drop(xs, m), Moved(i, m), n)
    ensures Cong(w * d, -(x * w'), n)
  {
    var ys, j := Drop(xs, m), Moved(i, m);
    var den, num := Den(ys, j), Num(ys, j);
    NumDrop(xs, i, m);
    DenDrop(xs, i, m);
    DropDistinct(xs, m, n);
    DenNonZero(ys, j, n);
    WeightAlgebra(w, w', d, -x, Den(xs, i), Num(xs, i), den, num, n);
    Negation(x, w');
  }

  lemma Negation(x: int, y: int)
    ensures (-x) * y == -(x * y)
  {
  }

  lemma WeightAlgebra(w: int, w': int, d: int, m: int, den0: int, num0: int, den: int, num: int, n: int)
    requires Prime(n) && !Cong(den, 0, n) && den0 == d * den && num0 == m * num
    requires Cong(w * den0, num0, n) && Cong(w' * den, num, n)
    ensures Cong(w * d, m * w', n)
  {
    CongMul(m, m, w' * den, num, n);
    assert den * (w * d) == w * (d * den) && den * (m * w') == m * (w' * den);
    Cancel(n, den, w * d, m * w');
  }

  // ------------------------------------------------------------ interpolation

  /** The weighted sum of the values of c at the nodes. */
  ghost function Terms(ws: seq<int>, c: seq<int>, xs: seq<int>): seq<int>
    requires |ws| == |xs|
  {
    seq(|xs|, i requires 0 <= i < |xs| => ws[i] * Poly(c, xs[i]))
  }

  ghost function Combined(ws: seq<int>, c: seq<int>, xs: seq<int>): int
    requires |ws| == |xs|
  {
    Sum(Terms(ws, c, xs))
  }

  /** t = a o - x s modulo n. */
  ghost predicate Splits(t: int, a: int, o: int, x: int, s: int, n: int)
    requires n > 0
  {
    Cong(t, a * o - x * s, n)
  }

  lemma {:induction false} SumLinear(s: seq<int>, t: seq<int>, u: seq<int>, a: int, b: int, n: int)
    requires n > 0 && |s| == |t| == |u| && forall i :: 0 <= i < |s| ==> Splits(s[i], a, t[i], b, u[i], n)
    ensures Splits(Sum(s), a, Sum(t), b, Sum(u), n)
  {
    if s != [] {
      var k := |s| - 1;
      SumLinear(s[..k], t[..k], u[..k], a, b, n);
      LinearStep(Sum(s[..k]), Sum(t[..k]), Sum(u[..k]), s[k], t[k], u[k], a, b, n);
    }
  }

  lemma LinearStep(s: int, t: int, u: int, s': int, t': int, u': int, a: int, b: int, n: int)
    requires n > 0 && Splits(s, a, t, b, u, n) && Splits(s', a, t', b, u', n)
    ensures Splits(s + s', a, t + t', b, u + u', n)
  {
    CongAdd(s, a * t - b * u, s', a * t' - b * u', n);
    assert a * t - b * u + (a * t' - b * u') == a * (t + t') - b * (u + u');
  }

  /** Node i of c = c(x_m) + (x - x_m) q, for x = x_m. */
  lemma SeparateAt(w: int, w': int, xs: seq<int>, c: seq<int>, i: nat, m: nat, x: int, n: int)
    requires Field(n) && Distinct(xs, n) && m < |xs| && i < |xs| && |c| > 0 && x == xs[m]
    requires i != m ==> IsWeight(w, xs, i, n) && IsWeight(w', Drop(xs, m), Moved(i, m), n)
    ensures Splits(w * Poly(c, xs[i]), Poly(c, x), w, x, if i == m then 0 else w' * Poly(Divide(c, x), xs[i]), n)
  {
    var q, d := Poly(Divide(c, x), xs[i]), xs[i] - x;
    DivideLaw(c, x, xs[i]);
    if i == m {
      SeparateSelf(w, Poly(c, x), d, q, x);
    } else {
      WeightDrop(w, w', xs, i, m, d, x, n);
      SeparateOther(w, w', Poly(c, x), d, q, x, n);
    }
  }

  /** r with a zero inserted at position m. */
  ghost function Spread(r: seq<int>, m: nat): (s: seq<int>)
    requires m <= |r|
    ensures |s| == |r| + 1
  {
    r[..m] + [0] + r[m..]
  }

  lemma SpreadAt(r: seq<int>, m: nat, i: nat)
    requires m <= |r| && i <= |r|
    ensures Spread(r, m)[i] == if i == m then 0 else r[Moved(i, m)]
  {
  }

  lemma SumSpread(r: seq<int>, m: nat)
    requires m <= |r|
    ensures Sum(Spread(r, m)) == Sum(r)
  {
    var s := Spread(r, m);
    SumDrop(s, m);
    SpreadAt(r, m, m);
    assert s[..m] == r[..m] && s[m + 1..] == r[m..];
    assert r == r[..m] + r[m..];
  }

  lemma TermAt(ws: seq<int>, c: seq<int>, xs: seq<int>, i: nat)
    requires |ws| == |xs| && i < |xs|
    ensures Terms(ws, c, xs)[i] == ws[i] * Poly(c, xs[i])
    ensures Terms(ws, [1], xs)[i] == ws[i]
  {
    PolyOne(xs[i]);
  }

  lemma SeparateTerm(ws: seq<int>, vs: seq<int>, xs: seq<int>, c: seq<int>, i: nat, m: nat, x: int, n: int)
    requires Field(n) && Distinct(xs, n) && m < |xs| && i < |xs| && |c| > 0 && x == xs[m]
    requires AreWeights(ws, xs, n) && AreWeights(vs, Drop(xs, m), n)
    ensures Splits(Terms(ws, c, xs)[i], Poly(c, x), Terms(ws, [1], xs)[i],
                   x, Spread(Terms(vs, Divide(c, x), Drop(xs, m)), m)[i], n)
  {
    var q, ys := Divide(c, x), Drop(xs, m);
    TermAt(ws, c, xs, i);
    SpreadAt(Terms(vs, q, ys), m, i);
    if i == m {
      SeparateAt(ws[i], 0, xs, c, i, m, x, n);
    } else {
      DenDrop(xs, i, m);
      TermAt(vs, q, ys, Moved(i, m));
      SeparateAt(ws[i], vs[Moved(i, m)], xs, c, i, m, x, n);
    }
  }

  /** Separating node m leaves the other nodes' sum for the quotient. */
  lemma Separate(ws: seq<int>, vs: seq<int>, xs: seq<int>, c: seq<int>, m: nat, x: int, n: int)
    requires Field(n) && Distinct(xs, n) && m < |xs| && |c| > 0 && x == xs[m]
    requires AreWeights(ws, xs, n) && AreWeights(vs, Drop(xs, m), n)
    ensures Splits(Combined(ws, c, xs), Poly(c, x), Combined(ws, [1], xs),
                   x, Combined(vs, Divide(c, x), Drop(xs, m)), n)
  {
    var t, one, r := Terms(ws, c, xs), Terms(ws, [1], xs), Terms(vs, Divide(c, x), Drop(xs, m));
    forall i | 0 <= i < |t| ensures Splits(t[i], Poly(c, x), one[i], x, Spread(r, m)[i], n) {
      SeparateTerm(ws, vs, xs, c, i, m, x, n);
    }
    SumLinear(t, one, Spread(r, m), Poly(c, x), x, n);
    SumSpread(r, m);
  }

  lemma PolyOne(x: int)
    ensures Poly([1], x) == 1
  {
    assert [1][1..] == [];
    assert x * Poly([], x) == 0;
  }

  lemma SeparateSelf(w: int, a: int, d: int, q: int, m: int)
    requires d == 0
    ensures w * (a + d * q) == a * w - m * 0
  {
    assert d * q == 0;
  }

  lemma SeparateOther(w: int, v: int, a: int, d: int, q: int, m: int, n: int)
    requires n > 0 && Cong(w * d, -(m * v), n)
    ensures Cong(w * (a + d * q), a * w - m * (v * q), n)
  {
    CongMul(w * d, -(m * v), q, q, n);
    CongAdd(a * w, a * w, w * d * q, -(m * v) * q, n);
    assert w * (a + d * q) == a * w + w * d * q by { assert w * (d * q) == w * d * q; }
    assert -(m * v) * q == -(m * (v * q)) by { assert (m * v) * q == m * (v * q); }
  }

  /** The weights of any non-empty set of distinct nodes add up to one. */
  lemma {:induction false} WeightsAddUp(ws: seq<int>, xs: seq<int>, n: int)
    requires Field(n) && Distinct(xs, n) && |xs| > 0 && AreWeights(ws, xs, n)
    ensures Cong(Combined(ws, [1], xs), 1, n)
    decreases |xs|
  {
    var l := Combined(ws, [1], xs);
    if |xs| == 1 {
      SingleWeight(ws, xs, n);
    } else {
      var a, b := xs[0], xs[1];
      var c := [-a, 1];
      TwoNodes(ws, xs, 0, c, n);
      TwoNodes(ws, xs, 1, c, n);
      LineValues(a, a); LineValues(a, b);
      assert Poly(c, a) == 0 && Poly(c, b) == b - a;
      CongAdd(Combined(ws, c, xs), 0 * l - a, (b - a) * l - b, (b - a) * l - b, n);
      CongAdd(Combined(ws, c, xs), (b - a) * l - b, 0, 0, n);
      CongAdd((b - a) * l - b, 0 * l - a, b, b, n);
      assert 0 * l - a + b == (b - a) * 1;
      Cancel(n, b - a, l, 1);
    }
  }

  lemma LineValues(a: int, x: int)
    ensures Poly([-a, 1], x) == x - a
  {
    assert [-a, 1][1..] == [1];
    PolyOne(x);
  }

  lemma SingleWeight(ws: seq<int>, xs: seq<int>, n: int)
    requires n > 0 && |xs| == 1 && AreWeights(ws, xs, n)
    ensures Cong(Combined(ws, [1], xs), 1, n)
  {
    assert IsWeight(ws[0], xs, 0, n);
    assert Others(Negated(xs), 0, 0) == 1 && Others(Minus(xs[0], xs), 0, 0) == 1;
    PolyOne(xs[0]);
    var t := Terms(ws, [1], xs);
    assert Sum(t[..0]) == 0;
  }

  /** Separating node m of the line x - a leaves weights that add up to one. */
  lemma TwoNodes(ws: seq<int>, xs: seq<int>, m: nat, c: seq<int>, n: int)
    requires Field(n) && Distinct(xs, n) && |xs| > 1 && m < |xs| && AreWeights(ws, xs, n)
    requires |c| == 2 && c[1] == 1
    ensures Cong(Combined(ws, c, xs), Poly(c, xs[m]) * Combined(ws, [1], xs) - xs[m], n)
    decreases |xs|, 0
  {
    var ys, l := Drop(xs, m), Combined(ws, [1], xs);
    DropDistinct(xs, m, n);
    var vs := WeightsExist(ys, n);
    WeightsAddUp(vs, ys, n);
    Separate(ws, vs, xs, c, m, xs[m], n);
    assert c[1..] == [1];
    PolyOne(xs[m]);
    assert Divide(c, xs[m]) == [1];
    CongMul(xs[m], xs[m], Combined(vs, [1], ys), 1, n);
    CongAdd(Poly(c, xs[m]) * l, Poly(c, xs[m]) * l, xs[m] * Combined(vs, [1], ys), xs[m] * 1, n);
  }

  /** Lagrange: at least |c| distinct nodes determine c(0). */
  lemma {:induction false} Interpolate(ws: seq<int>, c: seq<int>, xs: seq<int>, n: int)
    requires Field(n) && Distinct(xs, n) && 0 < |xs| && |c| <= |xs| && AreWeights(ws, xs, n)
    ensures Cong(Combined(ws, c, xs), Poly(c, 0), n)
    decreases |xs|
  {
    if c == [] {
      ZeroTerms(Terms(ws, c, xs));
    } else {
      var m := |xs| - 1;
      var ys, q, l := Drop(xs, m), Divide(c, xs[m]), Combined(ws, [1], xs);
      DropDistinct(xs, m, n);
      var vs := WeightsExist(ys, n);
      Separate(ws, vs, xs, c, m, xs[m], n);
      WeightsAddUp(ws, xs, n);
      DivideLaw(c, xs[m], 0);
      if ys == [] {
        assert q == [];
        assert Terms(vs, q, ys) == [];
        CongAdd(0, 0, 0, 0, n);
      } else {
        Interpolate(vs, q, ys, n);
      }
      InterpolateStep(Poly(c, xs[m]), l, xs[m], Combined(vs, q, ys), Poly(q, 0), n);
    }
  }

  lemma InterpolateStep(a: int, l: int, m: int, v: int, q: int, n: int)
    requires n > 0 && Cong(l, 1, n) && Cong(v, q, n)
    ensures Cong(a * l - m * v, a + (0 - m) * q, n)
  {
    CongMul(a, a, l, 1, n);
    CongMul(m, m, v, q, n);
    CongAdd(a * l, a * 1, m * v, m * q, n);
    assert (0 - m) * q == -(m * q);
  }

  lemma {:induction false} ZeroTerms(s: seq<int>)
    requires forall i :: 0 <= i < |s| ==> s[i] == 0
    ensures Sum(s) == 0
  {
    if s != [] { ZeroTerms(s[..|s| - 1]); }
  }

  // ------------------------------------------------------------ the signed products fit an int

  ghost function Factorial(n: nat): nat { if n == 0 then 1 else n * Factorial(n - 1) }

  lemma FactorialOfMax()
    ensures Factorial(MAX_SHARES) == 479001600
  {
    assert Factorial(4) == 24;
    assert Factorial(8) == 40320;
  }

  lemma {:induction false} FactorialProduct(a: nat, b: nat)
    ensures 1 <= Factorial(a) && Factorial(a) * Factorial(b) <= Factorial(a + b)
  {
    if a > 0 {
      FactorialProduct(a - 1, b);
      FactorialStep(a, a + b, Factorial(a - 1), Factorial(b), Factorial(a - 1 + b));
    } else {
      FactorialPositive(b);
    }
    FactorialPositive(a);
  }

  lemma {:induction false} FactorialPositive(a: nat)
    ensures Factorial(a) >= 1
  {
    if a > 0 {
      FactorialPositive(a - 1);
      assert a * Factorial(a - 1) >= 1 * Factorial(a - 1) by { Bigger(1, a, Factorial(a - 1)); }
    }
  }

  lemma Bigger(x: int, y: int, z: int)
    requires x <= y && 0 <= z
    ensures x * z <= y * z
  {
  }

  lemma FactorialStep(a: int, n: int, x: int, y: int, z: int)
    requires 0 < a <= n && x * y <= z && 0 <= x * y
    ensures (a * x) * y <= n * z
  {
    assert (a * x) * y == a * (x * y);
    Bigger(a, n, x * y);
    Bigger(x * y, z, n);
    assert n * (x * y) == (x * y) * n && n * z == z * n;
  }

  /** A product of distinct numbers from 1 to m is at most m factorial. */
  lemma {:induction false} ProductBound(s: set<nat>, m: nat)
    requires forall x :: x in s ==> 1 <= x <= m
    ensures 1 <= Product(s) <= Factorial(m)
  {
    if m == 0 {
      assert s == {};
    } else if m in s {
      ProductRemove(s, m);
      ProductBound(s - {m}, m - 1);
      Scaling(m, Product(s - {m}), Factorial(m - 1));
    } else {
      ProductBound(s, m - 1);
      Bigger(1, m, Factorial(m - 1));
    }
  }

  lemma Scaling(m: int, x: int, y: int)
    requires 1 <= m && 1 <= x <= y
    ensures 1 <= m * x <= m * y
  {
    Bigger(x, y, m);
    Bigger(1, m, x);
    assert m * x == x * m && m * y == y * m;
  }

  ghost function Abs(x: int): nat { if x < 0 then -x else x }

  /** The absolute values of the positive (or negative) factors among the first t but i. */
  ghost function Seen(f: seq<int>, i: nat, t: nat, positive: bool): set<nat>
    requires t <= |f|
  {
    if t == 0 then {}
    else if t - 1 != i && (f[t - 1] > 0) == positive then Seen(f, i, t - 1, positive) + {Abs(f[t - 1])}
    else Seen(f, i, t - 1, positive)
  }

  lemma {:induction false} SeenIs(f: seq<int>, i: nat, t: nat, positive: bool, v: nat)
    requires t <= |f| && v in Seen(f, i, t, positive)
    ensures exists j :: 0 <= j < t && j != i && (f[j] > 0) == positive && Abs(f[j]) == v
  {
    if v in Seen(f, i, t - 1, positive) {
      SeenIs(f, i, t - 1, positive, v);
    }
  }

  /** Distinct non-zero factors between -b and a. */
  ghost predicate Signed(f: seq<int>, i: nat, a: int, b: int) {
    && (forall j :: 0 <= j < |f| && j != i ==> f[j] != 0 && -b <= f[j] <= a)
    && (forall j, k :: 0 <= j < k < |f| ==> f[j] != f[k])
  }

  lemma FreshFactor(f: seq<int>, i: nat, a: int, b: int, t: nat)
    requires t < |f| && Signed(f, i, a, b)
    ensures Abs(f[t]) !in Seen(f, i, t, f[t] > 0)
  {
    if Abs(f[t]) in Seen(f, i, t, f[t] > 0) {
      SeenIs(f, i, t, f[t] > 0, Abs(f[t]));
    }
  }

  lemma {:induction false} OthersAbs(f: seq<int>, i: nat, a: int, b: int, t: nat)
    requires t <= |f| && Signed(f, i, a, b)
    ensures Abs(Others(f, i, t)) == Product(Seen(f, i, t, true)) * Product(Seen(f, i, t, false))
  {
    if t > 0 {
      OthersAbs(f, i, a, b, t - 1);
      if t - 1 != i {
        FreshFactor(f, i, a, b, t - 1);
        var p, q, v := Seen(f, i, t - 1, true), Seen(f, i, t - 1, false), Abs(f[t - 1]);
        GrowProduct(if f[t - 1] > 0 then p else q, v);
        AbsProduct(Others(f, i, t - 1), f[t - 1]);
        Assemble(Product(p), Product(q), v);
      }
    }
  }

  lemma GrowProduct(s: set<nat>, v: nat)
    requires v !in s
    ensures Product(s + {v}) == v * Product(s)
  {
    ProductRemove(s + {v}, v);
    assert s + {v} - {v} == s;
  }

  lemma AbsProduct(x: int, y: int)
    ensures Abs(x * y) == Abs(x) * Abs(y)
  {
    if x < 0 && y < 0 { assert x * y == (-x) * (-y); }
    else if x < 0 { assert -(x * y) == (-x) * y; assert x * y <= 0; }
    else if y < 0 { assert -(x * y) == x * (-y); assert x * y <= 0; }
  }

  lemma Assemble(p: int, q: int, v: int)
    ensures (p * q) * v == (v * p) * q && (p * q) * v == p * (v * q)
  {
  }

  /** The products stay within (a + b)!, so within 12! for shares numbered 1 to 12. */
  lemma OthersBound(f: seq<int>, i: nat, a: nat, b: nat, t: nat)
    requires t <= |f| && Signed(f, i, a, b) && a + b <= MAX_SHARES
    ensures 1 <= Abs(Others(f, i, t)) <= 479001600
  {
    OthersAbs(f, i, a, b, t);
    forall v | v in Seen(f, i, t, true) ensures 1 <= v <= a { SeenIs(f, i, t, true, v); }
    forall v | v in Seen(f, i, t, false) ensures 1 <= v <= b { SeenIs(f, i, t, false, v); }
    ProductBound(Seen(f, i, t, true), a);
    ProductBound(Seen(f, i, t, false), b);
    FactorialsBound(Product(Seen(f, i, t, true)), Product(Seen(f, i, t, false)), a, b);
  }

  lemma FactorialsBound(p: int, q: int, a: nat, b: nat)
    requires 1 <= p <= Factorial(a) && 1 <= q <= Factorial(b) && a + b <= MAX_SHARES
    ensures 1 <= p * q <= 479001600
  {
    FactorialProduct(a, b);
    FactorialGrows(a + b, MAX_SHARES);
    FactorialOfMax();
    Scaling(p, q, Factorial(b));
    Bigger(p, Factorial(a), Factorial(b));
  }

  lemma {:induction false} FactorialGrows(a: nat, b: nat)
    requires a <= b
    ensures Factorial(a) <= Factorial(b)
  {
    if a < b {
      FactorialGrows(a, b - 1);
      Bigger(1, b, Factorial(b - 1));
    }
  }

  // ------------------------------------------------------------ splitting

  ghost function ShareOf(c: seq<int>, i: nat, total: nat, n: int): Share
    requires n > 0
  {
    Share(Residue(c, i + 1, n), i, total)
  }

  /** sm2_key_split; random holds the results of sm2_fn_rand. */
  method KeySplit(key: int, recoverCnt: nat, totalCnt: nat, random: seq<int>, shares: array<Share>, n: int) returns (ret: int)
    requires n > 0 && 0 <= key < n
    requires |random| >= recoverCnt - 1 && forall i :: 0 <= i < |random| ==> 0 <= random[i] < n
    requires shares.Length >= totalCnt
    modifies shares
    ensures ret == if 1 <= recoverCnt <= totalCnt <= MAX_SHARES then 1 else -1
    ensures ret == 1 ==> forall i :: 0 <= i < totalCnt ==>
      shares[i] == ShareOf([key] + random[..recoverCnt - 1], i, totalCnt, n)
    ensures ret == -1 ==> shares[..] == old(shares[..])
    ensures forall i :: totalCnt <= i < shares.Length ==> shares[i] == old(shares[i])
  {
    if totalCnt == 0 || totalCnt > MAX_SHARES {
      return -1;
    }
    if recoverCnt == 0 || recoverCnt > totalCnt {
      return -1;
    }
    var coeffs := [key] + random[..recoverCnt - 1];
    var i := 0;
    while i < totalCnt
      invariant 0 <= i <= totalCnt
      invariant forall j :: 0 <= j < i ==> shares[j] == ShareOf(coeffs, j, totalCnt, n)
      invariant forall j :: totalCnt <= j < shares.Length ==> shares[j] == old(shares[j])
    {
      var y := EvalPoly(coeffs, i + 1, n);
      shares[i] := Share(y, i, totalCnt);
      i := i + 1;
    }
    ret := 1;
  }

  // ------------------------------------------------------------ recovery

  /** The checks of sm2_key_recover before any arithmetic. */
  predicate Consistent(shares: seq<Share>) {
    |shares| > 0 && shares[0].totalCnt <= MAX_SHARES &&
    forall i :: 0 <= i < |shares| ==> shares[i].totalCnt == shares[0].totalCnt && shares[i].index < shares[0].totalCnt
  }

  ghost predicate DistinctShares(shares: seq<Share>) {
    forall i, j :: 0 <= i < j < |shares| ==> shares[i].index != shares[j].index
  }

  ghost function Nodes(shares: seq<Share>): seq<int> {
    seq(|shares|, i requires 0 <= i < |shares| => shares[i].index + 1)
  }

  lemma NodesSigned(shares: seq<Share>, i: nat, n: int)
    requires Consistent(shares) && DistinctShares(shares) && i < |shares| && n > MAX_SHARES
    ensures var xs := Nodes(shares);
      Distinct(xs, n) && 1 <= xs[i] <= MAX_SHARES &&
      Signed(Negated(xs), i, 0, MAX_SHARES) && Signed(Minus(xs[i], xs), i, xs[i] - 1, MAX_SHARES - xs[i])
  {
    var xs := Nodes(shares);
    forall j, k | 0 <= j < k < |xs| ensures !Cong(xs[j] - xs[k], 0, n) && !Cong(xs[k] - xs[j], 0, n) {
      CongDifference(xs[j], xs[k], n);
      CongDifference(xs[k], xs[j], n);
    }
  }

  /** One factor of each product, and the bound on the products so far. */
  lemma NextFactors(shares: seq<Share>, i: nat, j: nat, n: int)
    requires Consistent(shares) && DistinctShares(shares) && i < |shares| && j < |shares| && n > MAX_SHARES
    ensures var xs := Nodes(shares); var neg, dif := Negated(xs), Minus(xs[i], xs);
      Others(neg, i, j + 1) == Others(neg, i, j) * (if i == j then 1 else -(shares[j].index + 1)) &&
      Others(dif, i, j + 1) == Others(dif, i, j) * (if i == j then 1 else (shares[i].index + 1) - (shares[j].index + 1)) &&
      1 <= Abs(Others(neg, i, j + 1)) <= 479001600 && 1 <= Abs(Others(dif, i, j + 1)) <= 479001600
  {
    var xs := Nodes(shares);
    NodesSigned(shares, i, n);
    NumBound(xs, i, j);
    DenBound(xs, i, j);
  }

  lemma NumBound(xs: seq<int>, i: nat, j: nat)
    requires j < |xs| && Signed(Negated(xs), i, 0, MAX_SHARES)
    ensures Others(Negated(xs), i, j + 1) == Others(Negated(xs), i, j) * (if i == j then 1 else -xs[j])
    ensures 1 <= Abs(Others(Negated(xs), i, j + 1)) <= 479001600
  {
    OthersBound(Negated(xs), i, 0, MAX_SHARES, j + 1);
  }

  lemma DenBound(xs: seq<int>, i: nat, j: nat)
    requires i < |xs| && j < |xs| && 1 <= xs[i] <= MAX_SHARES && Signed(Minus(xs[i], xs), i, xs[i] - 1, MAX_SHARES - xs[i])
    ensures var f := Minus(xs[i], xs);
      Others(f, i, j + 1) == Others(f, i, j) * (if i == j then 1 else xs[i] - xs[j]) &&
      1 <= Abs(Others(f, i, j + 1)) <= 479001600
  {
    OthersBound(Minus(xs[i], xs), i, xs[i] - 1, MAX_SHARES - xs[i], j + 1);
  }

  /** The loop over j: both products, in machine integers. */
  method NumDen(shares: seq<Share>, i: nat, ghost n: int) returns (num: i32, den: i32)
    requires Consistent(shares) && DistinctShares(shares) && i < |shares| && n > MAX_SHARES
    ensures num as int == Num(Nodes(shares), i) && den as int == Den(Nodes(shares), i)
    ensures -0x8000_0000 < num && -0x8000_0000 < den
  {
    ghost var xs := Nodes(shares);
    num, den := 1, 1;
    var x: i32 := shares[i].index + 1;
    var j := 0;
    while j < |shares|
      invariant 0 <= j <= |shares| && -0x8000_0000 < num && -0x8000_0000 < den
      invariant num as int == Others(Negated(xs), i, j)
      invariant den as int == Others(Minus(xs[i], xs), i, j)
    {
      NextFactors(shares, i, j, n);
      if i != j {
        var y: i32 := shares[j].index + 1;
        num := num * -y;
        den := den * (x - y);
      }
      j := j + 1;
    }
  }

  /** The Lagrange weight from the absolute values and the sign. */
  method Weight(shares: seq<Share>, i: nat, n: int) returns (d: int)
    requires Consistent(shares) && DistinctShares(shares) && i < |shares| && n > MAX_SHARES && Field(n)
    ensures 0 <= d < n && IsWeight(d, Nodes(shares), i, n)
  {
    var num, den := NumDen(shares, i, n);
    ghost var num0, den0 := num, den;
    var sign := 1;
    if num < 0 {
      num, sign := -num, -sign;
    }
    if den < 0 {
      den, sign := -den, -sign;
    }
    d := Inverse(den, n);
    ghost var inv := d;
    d := MMul(d, num, n);
    if sign < 0 {
      d := MSub(0, d, n);
    }
    NodesSigned(shares, i, n);
    DenNonZero(Nodes(shares), i, n);
    SignedWeight(num0, den0, num, den, sign, inv, d, n);
  }

  lemma SignedWeight(num0: int, den0: int, num: int, den: int, sign: int, inv: int, d: int, n: int)
    requires Field(n) && !Cong(den0, 0, n) && inv == Inverse(den, n)
    requires (num == num0 && den == den0 && sign == 1) || (num == -num0 && den == den0 && sign == -1)
      || (num == num0 && den == -den0 && sign == -1) || (num == -num0 && den == -den0 && sign == 1)
    requires d == if sign < 0 then MSub(0, MMul(inv, num, n), n) else MMul(inv, num, n)
    ensures Cong(d * den0, num0, n)
  {
    var m := inv * num;
    NegNonZero(den0, den, n);
    WeightExists(num, den, n);
    assert m * den == num * inv * den;
    CongMod(m, n);
    Op(0, 0, MMul(inv, num, n), m, n);
    if sign < 0 {
      CongMul(d, -m, den0, den0, n);
      assert -m * den0 == -(m * den0);
      NegCases(m, den, den0, num, num0, n);
    } else {
      CongMul(d, m, den0, den0, n);
      NegCases(m, den, den0, num, num0, n);
    }
  }

  lemma NegNonZero(x: int, y: int, n: int)
    requires n > 0 && (y == x || y == -x) && !Cong(x, 0, n)
    ensures !Cong(y, 0, n)
  {
    if Cong(y, 0, n) {
      CongAdd(0, 0, y, 0, n);
    }
  }

  lemma NegCases(m: int, den: int, den0: int, num: int, num0: int, n: int)
    requires n > 0 && Cong(m * den, num, n)
    ensures (den0 == den && num0 == num) || (den0 == -den && num0 == -num) ==> Cong(m * den0, num0, n)
    ensures (den0 == den && num0 == -num) || (den0 == -den && num0 == num) ==> Cong(-(m * den0), num0, n)
  {
    CongAdd(0, 0, m * den, num, n);
    assert m * (-den) == -(m * den);
  }

  /** The shares all lie on the polynomial c, which has at most as many coefficients. */
  ghost predicate OnPolynomial(shares: seq<Share>, c: seq<int>, n: int)
    requires n > 0
  {
    |c| <= |shares| && forall i :: 0 <= i < |shares| ==> shares[i].key == Residue(c, shares[i].index + 1, n)
  }

  /** sm2_key_recover: at least threshold many distinct shares give back the constant coefficient.
      (Repeated shares would make the products overflow or vanish.) */
  method KeyRecover(shares: seq<Share>, n: int) returns (ret: int, key: int)
    requires Field(n) && n > MAX_SHARES
    requires forall i :: 0 <= i < |shares| ==> 0 <= shares[i].key
    requires Consistent(shares) ==> DistinctShares(shares)
    ensures ret == 1 || ret == -1
    ensures ret == 1 <==> Consistent(shares) && forall i :: 0 <= i < |shares| ==> shares[i].key < n
    ensures ret == 1 ==> forall c :: OnPolynomial(shares, c, n) ==> key == Residue(c, 0, n)
  {
    key := 0;
    if !Consistent(shares) {
      return -1, 0;
    }
    var s, i := 0, 0;
    ghost var xs, ws, ys := Nodes(shares), [], [];
    ModUnique(0, 0, 0, n);
    while i < |shares|
      invariant 0 <= i <= |shares| && 0 <= s < n && |ws| == |ys| == i
      invariant forall j :: 0 <= j < i ==> shares[j].key < n
      invariant forall j :: 0 <= j < i ==> IsWeight(ws[j], xs, j, n) && ys[j] == shares[j].key * ws[j]
      invariant Cong(s, Sum(ys), n)
    {
      var d := Weight(shares, i, n);
      var y := shares[i].key;
      if y >= n {
        return -1, 0;
      }
      y := MMul(y, d, n);
      ghost var t := shares[i].key * d;
      CongMod(t, n);
      Op(s, Sum(ys), y, t, n);
      s := MAdd(s, y, n);
      ghost var before := ys;
      ws, ys := ws + [d], ys + [t];
      assert ys[..|ys| - 1] == before;
      i := i + 1;
    }
    NodesSigned(shares, 0, n);
    forall c | OnPolynomial(shares, c, n) ensures s == Residue(c, 0, n) {
      Recovered(shares, c, ws, ys, s, n);
    }
    ret, key := 1, s;
  }

  lemma Recovered(shares: seq<Share>, c: seq<int>, ws: seq<int>, ys: seq<int>, s: int, n: int)
    requires Field(n) && OnPolynomial(shares, c, n) && |shares| > 0 && Distinct(Nodes(shares), n) && 0 <= s < n
    requires AreWeights(ws, Nodes(shares), n) && |ys| == |ws| && Cong(s, Sum(ys), n)
    requires forall j :: 0 <= j < |ys| ==> ys[j] == shares[j].key * ws[j]
    ensures s == Residue(c, 0, n)
  {
    var t := Terms(ws, c, Nodes(shares));
    forall j | 0 <= j < |ys| ensures Splits(ys[j], 1, t[j], 0, t[j], n) {
      RecoveredTerm(shares, c, ws[j], j, n);
      TermAt(ws, c, Nodes(shares), j);
    }
    SumLinear(ys, t, t, 1, 0, n);
    Interpolate(ws, c, Nodes(shares), n);
    ModUnique(s, 0, s, n);
  }

  lemma RecoveredTerm(shares: seq<Share>, c: seq<int>, w: int, j: nat, n: int)
    requires n > 0 && OnPolynomial(shares, c, n) && j < |shares|
    ensures var v := w * Poly(c, Nodes(shares)[j]); Splits(shares[j].key * w, 1, v, 0, v, n)
  {
    var v := Poly(c, shares[j].index + 1);
    assert shares[j].key == v % n;
    CongMod(v, n);
    CongMul(v % n, v, w, w, n);
    assert v * w == 1 * (w * v) - 0 * (w * v);
  }

  /** Any shares of a split key, at least as many as the threshold, are on the splitting polynomial, whose
      constant coefficient is the key. */
  lemma SplitShares(key: int, random: seq<int>, total: nat, sel: seq<Share>, n: int)
    requires n > 0 && 0 <= key < n && |random| + 1 <= |sel|
    requires forall i :: 0 <= i < |sel| ==> sel[i] == ShareOf([key] + random, sel[i].index, total, n)
    ensures OnPolynomial(sel, [key] + random, n) && Residue([key] + random, 0, n) == key
  {
    ModUnique(key, 0, key, n);
    assert ([key] + random)[1..] == random;
  }

  /** The round trip: whatever distinct shares of a split key are chosen, at least as many as the
      threshold and in any order, recovery gives the key back. */
  method SplitAndRecover(key: int, recoverCnt: nat, totalCnt: nat, random: seq<int>, choice: seq<nat>, n: int)
    returns (ret: int, recovered: int)
    requires Field(n) && n > MAX_SHARES && 0 <= key < n && 1 <= recoverCnt <= totalCnt <= MAX_SHARES
    requires |random| >= recoverCnt - 1 && forall i :: 0 <= i < |random| ==> 0 <= random[i] < n
    requires |choice| >= recoverCnt && forall i :: 0 <= i < |choice| ==> choice[i] < totalCnt
    requires forall i, j :: 0 <= i < j < |choice| ==> choice[i] != choice[j]
    ensures ret == 1 && recovered == key
  {
    var shares := new Share[totalCnt](_ => Share(0, 0, 0));
    ret := KeySplit(key, recoverCnt, totalCnt, random, shares, n);
    ghost var coeffs := random[..recoverCnt - 1];
    var all := shares[..];
    var sel := seq(|choice|, i requires 0 <= i < |choice| && choice[i] < |all| => all[choice[i]]);
    forall i | 0 <= i < |sel| ensures sel[i] == ShareOf([key] + coeffs, choice[i], totalCnt, n) && 0 <= sel[i].key < n {
      ShareInField([key] + coeffs, choice[i], n);
    }
    SplitShares(key, coeffs, totalCnt, sel, n);
    ret, recovered := KeyRecover(sel, n);
  }

  lemma ShareInField(c: seq<int>, i: nat, n: int)
    requires n > 0
    ensures 0 <= Residue(c, i + 1, n) < n
  {
  }
}
