/** Congruences, primes and the number theory that the modular code rests on. */
module Modular {

  // ------------------------------------------------------ residues

  /** A quotient and an in-range remainder identify the residue. */
  lemma ModUnique(v: int, q: int, r: int, m: int)
    requires v == q * m + r && 0 <= r < m
    ensures r == v % m
  {
    var d := v / m - q;
    assert d * m == r - v % m by {
      assert v == (v / m) * m + v % m;
      assert d * m == (v / m) * m - q * m;
    }
    assert d > 0 ==> (d - 1) * m >= 0;
    assert d < 0 ==> (-d - 1) * m >= 0;
  }

  lemma DivUnique(v: int, q: int, r: int, m: int)
    requires v == q * m + r && 0 <= r < m
    ensures q == v / m
  {
    ModUnique(v, q, r, m);
    assert (q - v / m) * m == 0;
  }

  lemma ModShift(x: int, k: int, m: int)
    requires m > 0
    ensures (x + k * m) % m == x % m
  {
    assert x == (x / m) * m + x % m;
    assert x + k * m == (x / m + k) * m + x % m;
    ModUnique(x + k * m, x / m + k, x % m, m);
  }

  function MAdd(x: int, y: int, m: int): int requires m > 0 { (x + y) % m }
  function MSub(x: int, y: int, m: int): int requires m > 0 { (x - y) % m }
  function MMul(x: int, y: int, m: int): int requires m > 0 { (x * y) % m }

  ghost predicate Cong(x: int, y: int, m: int)
    requires m > 0
  {
    x % m == y % m
  }

  /** Congruence is divisibility of the difference. */
  lemma CongFrom(x: int, y: int, k: int, m: int)
    requires m > 0 && x - y == k * m
    ensures Cong(x, y, m)
  {
    ModShift(y, k, m);
  }

  lemma CongTo(x: int, y: int, m: int) returns (k: int)
    requires m > 0 && Cong(x, y, m)
    ensures x - y == k * m
  {
    k := x / m - y / m;
    assert x == (x / m) * m + x % m && y == (y / m) * m + y % m;
  }

  lemma CongAdd(x: int, x': int, y: int, y': int, m: int)
    requires m > 0 && Cong(x, x', m) && Cong(y, y', m)
    ensures Cong(x + y, x' + y', m) && Cong(x - y, x' - y', m)
  {
    var k := CongTo(x, x', m);
    var l := CongTo(y, y', m);
    CongFrom(x + y, x' + y', k + l, m);
    CongFrom(x - y, x' - y', k - l, m);
  }

  lemma CongMul(x: int, x': int, y: int, y': int, m: int)
    requires m > 0 && Cong(x, x', m) && Cong(y, y', m)
    ensures Cong(x * y, x' * y', m)
  {
    var k := CongTo(x, x', m);
    var l := CongTo(y, y', m);
    calc {
      x * y - x' * y';
      (x - x') * y + x' * (y - y');
      (k * m) * y + x' * (l * m);
      (k * y + x' * l) * m;
    }
    CongFrom(x * y, x' * y', k * y + x' * l, m);
  }

  lemma CongMod(x: int, m: int)
    requires m > 0
    ensures Cong(x % m, x, m)
  {
    ModUnique(x % m, 0, x % m, m);
  }

  lemma CongEqual(x: int, y: int, m: int)
    requires m > 0 && 0 <= x < m && 0 <= y < m && Cong(x, y, m)
    ensures x == y
  {
    ModUnique(x, 0, x, m);
    ModUnique(y, 0, y, m);
  }

  lemma CongZero(x: int, m: int)
    requires 0 <= x < m
    ensures Cong(x, 0, m) <==> x == 0
  {
    ModUnique(x, 0, x, m);
    ModUnique(0, 0, 0, m);
  }

  lemma CongDifference(x: int, y: int, m: int)
    requires m > 0 && 0 <= x < m && 0 <= y < m
    ensures Cong(x - y, 0, m) ==> x == y
  {
    if Cong(x - y, 0, m) {
      CongAdd(x - y, 0, y, y, m);
      CongEqual(x, y, m);
    }
  }

  /** The three operations on residues follow those on the integers they represent. */
  lemma Op(x: int, x': int, y: int, y': int, m: int)
    requires m > 0 && Cong(x, x', m) && Cong(y, y', m)
    ensures Cong(MAdd(x, y, m), x' + y', m) && Cong(MSub(x, y, m), x' - y', m) && Cong(MMul(x, y, m), x' * y', m)
  {
    CongAdd(x, x', y, y', m);
    CongMul(x, x', y, y', m);
    CongMod(x + y, m); CongMod(x - y, m); CongMod(x * y, m);
  }

  // ------------------------------------------------------ primes

  ghost predicate Prime(p: int) {
    p > 1 && forall d :: 1 < d < p ==> p % d != 0
  }

  /** Euclid's lemma for a factor in range, by descent along p mod x. */
  lemma {:induction false} EuclidInRange(p: int, x: int, y: int)
    requires Prime(p) && 0 < x < p && Cong(x * y, 0, p)
    ensures Cong(y, 0, p)
    decreases x
  {
    if x > 1 {
      var q, r := p / x, p % x;
      assert p == q * x + r;
      var k := CongTo(x * y, 0, p);
      assert r * y - 0 == (y - q * k) * p by {
        assert r * y == p * y - q * (x * y);
        assert q * (k * p) == (q * k) * p;
      }
      CongFrom(r * y, 0, y - q * k, p);
      EuclidInRange(p, r, y);
    }
  }

  /** A prime that divides a product divides a factor: the residues have no zero divisors. */
  lemma Euclid(p: int, x: int, y: int)
    requires Prime(p) && Cong(x * y, 0, p)
    ensures Cong(x, 0, p) || Cong(y, 0, p)
  {
    CongMod(x, p);
    if x % p != 0 {
      CongMul(x % p, x, y, y, p);
      EuclidInRange(p, x % p, y);
    } else {
      ModUnique(0, 0, 0, p);
    }
  }

  lemma Cancel(p: int, c: int, x: int, y: int)
    requires Prime(p) && !Cong(c, 0, p) && Cong(c * x, c * y, p)
    ensures Cong(x, y, p)
  {
    var k := CongTo(c * x, c * y, p);
    assert c * (x - y) - 0 == k * p;
    CongFrom(c * (x - y), 0, k, p);
    Euclid(p, c, x - y);
    var l := CongTo(x - y, 0, p);
    CongFrom(x, y, l, p);
  }

  // ------------------------------------------------------ powers

  function Power(x: int, e: nat): int {
    if e == 0 then 1 else x * Power(x, e - 1)
  }

  lemma {:induction false} PowerAdd(x: int, e: nat, f: nat)
    ensures Power(x, e + f) == Power(x, e) * Power(x, f)
  {
    if e > 0 {
      PowerAdd(x, e - 1, f);
      var a, b := Power(x, e - 1), Power(x, f);
      assert e + f - 1 == e - 1 + f;
      assert x * (a * b) == (x * a) * b;
    }
  }

  /** x is the residue of a^e. */
  ghost predicate IsPower(x: int, a: int, e: int, m: int)
    requires m > 0
  {
    e >= 0 && x == Power(a, e) % m
  }

  /** Multiplying residues of powers adds the exponents. */
  lemma PowerProduct(x: int, e: int, y: int, f: int, a: int, m: int)
    requires m > 0 && IsPower(x, a, e, m) && IsPower(y, a, f, m)
    ensures IsPower((x * y) % m, a, e + f, m)
  {
    CongMod(Power(a, e), m);
    CongMod(Power(a, f), m);
    CongMul(x, Power(a, e), y, Power(a, f), m);
    PowerAdd(a, e, f);
  }

  // ------------------------------------------------------ Fermat's little theorem

  ghost function Product(s: set<nat>): int {
    if s == {} then 1 else var x :| x in s; x * Product(s - {x})
  }

  lemma {:induction false} ProductRemove(s: set<nat>, x: nat)
    requires x in s
    ensures Product(s) == x * Product(s - {x})
  {
    var y :| y in s && Product(s) == y * Product(s - {y});
    if y != x {
      ProductRemove(s - {y}, x);
      ProductRemove(s - {x}, y);
      assert s - {y} - {x} == s - {x} - {y};
      Exchange(x, y, Product(s - {y} - {x}));
    }
  }

  lemma Exchange(x: int, y: int, r: int)
    ensures y * (x * r) == x * (y * r)
  {
  }

  ghost function Image(a: int, s: set<nat>, p: int): set<nat>
    requires p > 0
  {
    set x | x in s :: Scale(a, x, p)
  }

  ghost function Scale(a: int, x: int, p: int): nat
    requires p > 0
  {
    (a * x) % p
  }

  lemma ScaleInjective(a: int, x: nat, z: nat, p: int)
    requires Prime(p) && !Cong(a, 0, p) && x < p && z < p && Scale(a, x, p) == Scale(a, z, p)
    ensures x == z
  {
    Cancel(p, a, z, x);
    CongEqual(z, x, p);
  }

  /** Multiplying every element of a set of non-zero residues by a scales the product by a^|s|
      and keeps the number of elements. */
  lemma {:induction false} ScaledProduct(a: int, s: set<nat>, p: int)
    requires Prime(p) && !Cong(a, 0, p) && forall x :: x in s ==> 0 < x < p
    ensures Cong(Product(Image(a, s, p)), Power(a, |s|) * Product(s), p)
    ensures |Image(a, s, p)| == |s|
  {
    var t := Image(a, s, p);
    if s != {} {
      var x :| x in s;
      var t' := Image(a, s - {x}, p);
      var y := ImageRemove(a, s, x, p);
      ScaledProduct(a, s - {x}, p);
      ProductRemove(t, y);
      ProductRemove(s, x);
      CongMod(a * x, p);
      ScaleStep(a, x, y, Product(t'), Power(a, |s - {x}|), Product(s - {x}), p);
    }
  }

  lemma ImageRemove(a: int, s: set<nat>, x: nat, p: int) returns (y: nat)
    requires Prime(p) && !Cong(a, 0, p) && x in s && forall x :: x in s ==> 0 < x < p
    ensures y == Scale(a, x, p) && y in Image(a, s, p)
    ensures Image(a, s, p) - {y} == Image(a, s - {x}, p)
  {
    y := Scale(a, x, p);
    forall z | z in s && z != x ensures Scale(a, z, p) != y {
      if Scale(a, z, p) == y { ScaleInjective(a, x, z, p); }
    }
  }

  lemma ScaleStep(a: int, x: int, y: int, u: int, b: int, c: int, p: int)
    requires p > 0 && Cong(y, a * x, p) && Cong(u, b * c, p)
    ensures Cong(y * u, (a * b) * (x * c), p)
  {
    CongMul(y, a * x, u, b * c, p);
    assert (a * x) * (b * c) == (a * b) * (x * c);
  }

  lemma {:induction false} ProductNonZero(s: set<nat>, p: int)
    requires Prime(p) && forall x :: x in s ==> 0 < x < p
    ensures !Cong(Product(s), 0, p)
  {
    if s == {} {
      ModUnique(1, 0, 1, p); ModUnique(0, 0, 0, p);
    } else {
      var x :| x in s && Product(s) == x * Product(s - {x});
      ProductNonZero(s - {x}, p);
      ModUnique(x, 0, x, p); ModUnique(0, 0, 0, p);
      if Cong(Product(s), 0, p) {
        Euclid(p, x, Product(s - {x}));
      }
    }
  }

  lemma SubsetOfSameSize(s: set<nat>, t: set<nat>)
    requires s <= t && |s| == |t|
    ensures s == t
  {
    if x :| x in t && x !in s {
      assert s <= t - {x};
      SubsetSize(s, t - {x});
    }
  }

  lemma {:induction false} SubsetSize(s: set<nat>, t: set<nat>)
    requires s <= t
    ensures |s| <= |t|
  {
    if s != {} {
      var x :| x in s;
      SubsetSize(s - {x}, t - {x});
    }
  }

  ghost function Interval(n: nat): (s: set<nat>)
    ensures forall x :: x in s <==> 1 <= x <= n
  {
    if n == 0 then {} else Interval(n - 1) + {n}
  }

  /** |{1, .., n}| = n. */
  lemma {:induction false} IntervalSize(n: nat)
    ensures |Interval(n)| == n
  {
    if n > 0 {
      IntervalSize(n - 1);
    }
  }

  /** Fermat: a^(p-1) = 1 modulo a prime p that does not divide a. */
  lemma Fermat(a: int, p: int)
    requires Prime(p) && !Cong(a, 0, p)
    ensures Cong(Power(a, p - 1), 1, p)
  {
    var s := Interval(p - 1);
    IntervalSize(p - 1);
    ScaledProduct(a, s, p);
    var t := Image(a, s, p);
    forall y: nat | y in t ensures y in s {
      var x :| x in s && y == Scale(a, x, p);
      if y == 0 {
        ModUnique(0, 0, 0, p);
        Euclid(p, a, x);
        CongEqual(x, 0, p);
      }
    }
    SubsetOfSameSize(t, s);
    ProductNonZero(s, p);
    var c := Product(s);
    assert c * Power(a, p - 1) == Power(a, |s|) * c && c * 1 == c;
    Cancel(p, c, Power(a, p - 1), 1);
  }

  /** The exponent p - 2 inverts. */
  lemma FermatInverse(a: int, p: int)
    requires Prime(p) && p > 2 && !Cong(a, 0, p)
    ensures Cong(a * Power(a, p - 2), 1, p)
  {
    Fermat(a, p);
  }
}
