/** Residues modulo a prime that are not n-th powers, from certificates. */
module Roots {
  import opened Modular

  lemma {:induction false} PowerOfProduct(x: int, y: int, e: nat)
    ensures Power(x * y, e) == Power(x, e) * Power(y, e)
  {
    if e > 0 {
      PowerOfProduct(x, y, e - 1);
      Regroup(x, y, Power(x, e - 1), Power(y, e - 1));
    }
  }

  lemma Regroup(x: int, y: int, p: int, q: int)
    ensures (x * y) * (p * q) == (x * p) * (y * q)
  {
    var u := y * q;
    assert x * (y * (p * q)) == x * (p * u);
  }

  lemma {:induction false} PowerOfPower(x: int, n: nat, e: nat)
    ensures n * e >= 0 && Power(Power(x, n), e) == Power(x, n * e)
  {
    if e > 0 {
      PowerOfPower(x, n, e - 1);
      PowerAdd(x, n, n * (e - 1));
      assert n + n * (e - 1) == n * e;
    }
  }

  lemma {:induction false} PowerCong(x: int, y: int, e: nat, m: int)
    requires m > 0 && Cong(x, y, m)
    ensures Cong(Power(x, e), Power(y, e), m)
  {
    if e > 0 {
      PowerCong(x, y, e - 1, m);
      CongMul(x, y, Power(x, e - 1), Power(y, e - 1), m);
    }
  }

  lemma {:induction false} PowerOfOne(e: nat)
    ensures Power(1, e) == 1
  {
    if e > 0 { PowerOfOne(e - 1); }
  }

  /** Exponents count modulo the order. */
  lemma PowerPeriod(z: int, n: nat, k: nat, e: nat, m: int)
    requires m > 0 && Cong(Power(z, n), 1, m)
    ensures n * k >= 0 && Cong(Power(z, n * k + e), Power(z, e), m)
  {
    PowerOfPower(z, n, k);
    PowerCong(Power(z, n), 1, k, m);
    PowerOfOne(k);
    PowerAdd(z, n * k, e);
    CongMul(Power(z, n * k), 1, Power(z, e), Power(z, e), m);
  }

  /** An n-th power has a (p - 1)/n-th power of 1. */
  lemma RootToOne(p: int, n: nat, q: nat, r: int, x: int)
    requires Prime(p) && p - 1 == n * q && n > 0 && !Cong(r, 0, p) && Cong(Power(x, n), r, p)
    ensures Cong(Power(r, q), 1, p)
  {
    if Cong(x, 0, p) {
      CongMul(x, 0, Power(x, n - 1), Power(x, n - 1), p);
    }
    Fermat(x, p);
    PowerOfPower(x, n, q);
    PowerCong(Power(x, n), r, q, p);
  }

  /** When r z is an n-th power but z^((p - 1)/n) is not 1, r is not an n-th power. */
  lemma NoRoot(p: int, n: nat, q: nat, r: int, z: int, c: int, x: int)
    requires Prime(p) && p - 1 == n * q && n > 0 && !Cong(r, 0, p) && !Cong(z, 0, p)
    requires Cong(Power(c, n), r * z, p) && !Cong(Power(z, q), 1, p)
    ensures !Cong(Power(x, n), r, p)
  {
    if Cong(Power(x, n), r, p) {
      if Cong(r * z, 0, p) { Euclid(p, r, z); }
      RootToOne(p, n, q, r, x);
      RootToOne(p, n, q, r * z, c);
      PowerOfProduct(r, z, q);
      CongMul(Power(r, q), 1, Power(z, q), Power(z, q), p);
    }
  }
}
