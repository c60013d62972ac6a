/** The addition chain of sm2_fp_inv, on field values: each register carries, as a ghost, the
    exponent of the input that it holds. */
module Sm2Inverse {
  import opened Modular
  import opened Sm2Field

  method Mul(ghost a: int, x: int, ghost e: int, y: int, ghost f: int) returns (z: int, ghost g: int)
    requires IsPower(x, a, e, P) && IsPower(y, a, f, P)
    ensures g == e + f && z == FMul(x, y) && IsPower(z, a, g, P)
  {
    z, g := FMul(x, y), e + f;
    PowerProduct(x, e, y, f, a, P);
  }

  method Sqr(ghost a: int, x: int, ghost e: int) returns (z: int, ghost g: int)
    requires IsPower(x, a, e, P)
    ensures g == 2 * e && z == FMul(x, x) && IsPower(z, a, g, P)
  {
    z, g := Mul(a, x, e, x, e);
  }

  ghost function Shl(e: int, n: nat): int {
    if n == 0 then e else 2 * Shl(e, n - 1)
  }

  /** The repeated squarings; the counts used by the chain are spelled out. */
  method SqrTimes(ghost a: int, x: int, ghost e: int, n: nat) returns (z: int, ghost g: int)
    requires IsPower(x, a, e, P)
    ensures IsPower(z, a, g, P)
    ensures n == 2 ==> g == 4 * e
    ensures n == 4 ==> g == 16 * e
    ensures n == 8 ==> g == 256 * e
    ensures n == 31 ==> g == 0x8000_0000 * e
    ensures n == 32 ==> g == 0x1_0000_0000 * e
    ensures n == 33 ==> g == 0x2_0000_0000 * e
  {
    z, g := x, e;
    var i := 0;
    while i < n
      invariant 0 <= i <= n && IsPower(z, a, g, P) && g == Shl(e, i)
    {
      z, g := Sqr(a, z, g);
      i := i + 1;
    }
    ShlValues(e);
  }

  lemma ShlValues(e: int)
    ensures Shl(e, 2) == 4 * e && Shl(e, 4) == 16 * e && Shl(e, 8) == 256 * e
    ensures Shl(e, 31) == 0x8000_0000 * e && Shl(e, 32) == 0x1_0000_0000 * e && Shl(e, 33) == 0x2_0000_0000 * e
  {
    Shl8(e, 0); Shl8(e, 8); Shl8(e, 16); Shl8(e, 24);
  }

  lemma Shl8(e: int, n: nat)
    ensures Shl(e, 0) == e
    ensures Shl(e, n + 2) == 4 * Shl(e, n) && Shl(e, n + 4) == 16 * Shl(e, n)
    ensures Shl(e, n + 7) == 128 * Shl(e, n) && Shl(e, n + 8) == 256 * Shl(e, n) && Shl(e, n + 9) == 512 * Shl(e, n)
  {
    assert Shl(e, n + 2) == 2 * Shl(e, n + 1);
    assert Shl(e, n + 4) == 2 * Shl(e, n + 3);
    assert Shl(e, n + 6) == 2 * Shl(e, n + 5);
    assert Shl(e, n + 8) == 2 * Shl(e, n + 7);
  }

  /** The chain up to a^(2^31 - 1). */
  method InvHead(a: int) returns (a1: int, a2: int, a5: int)
    requires IsPower(a, a, 1, P)
    ensures IsPower(a1, a, 2, P) && IsPower(a2, a, 3, P) && IsPower(a5, a, 0x7fff_ffff, P)
  {
    var a3: int, a4: int;
    ghost var e1: int;
    a1, e1 := Sqr(a, a, 1);
    ghost var e2: int;
    a2, e2 := Mul(a, a1, e1, a, 1);
    ghost var e3: int;
    a3, e3 := Sqr(a, a2, e2);
    a3, e3 := Sqr(a, a3, e3);
    a3, e3 := Mul(a, a3, e3, a2, e2);
    ghost var e4: int;
    a4, e4 := SqrTimes(a, a3, e3, 4);
    a4, e4 := Mul(a, a4, e4, a3, e3);
    ghost var e5: int;
    a5, e5 := SqrTimes(a, a4, e4, 8);
    a5, e5 := Mul(a, a5, e5, a4, e4);
    a5, e5 := SqrTimes(a, a5, e5, 8);
    a5, e5 := Mul(a, a5, e5, a4, e4);
    a5, e5 := SqrTimes(a, a5, e5, 4);
    a5, e5 := Mul(a, a5, e5, a3, e3);
    a5, e5 := SqrTimes(a, a5, e5, 2);
    a5, e5 := Mul(a, a5, e5, a2, e2);
    a5, e5 := Sqr(a, a5, e5);
    a5, e5 := Mul(a, a5, e5, a, 1);
  }

  /** The middle of the chain: the exponents 2^64 - 4 + 1, 2^64 and (2^32 - 2) 2^31. */
  method InvMiddle(a: int, a1: int, a2: int, a50: int) returns (a3: int, a4: int, a5: int)
    requires IsPower(a, a, 1, P) && IsPower(a1, a, 2, P) && IsPower(a2, a, 3, P) && IsPower(a50, a, 0x7fff_ffff, P)
    ensures IsPower(a3, a, 0x1_0000_0000_0000_0000, P)
    ensures IsPower(a4, a, 0xffff_ffff_ffff_fffd, P)
    ensures IsPower(a5, a, 0x7fff_ffff_0000_0000, P)
  {
    ghost var e1: int, e2: int, e3: int, e4: int, e5: int := 2, 3, 0, 0, 0x7fff_ffff;
    a5 := a50;
    a4, e4 := Sqr(a, a5, e5);
    a3, e3 := Mul(a, a4, e4, a1, e1);
    a5, e5 := SqrTimes(a, a4, e4, 31);
    a4, e4 := Mul(a, a5, e5, a4, e4);
    a4, e4 := Sqr(a, a4, e4);
    a4, e4 := Mul(a, a4, e4, a, 1);
    a3, e3 := Mul(a, a4, e4, a2, e2);
  }

  /** sm2_fp_inv: the chain computes exactly a^(p - 2), for every a. */
  method FpInv(a: int) returns (r: int)
    requires 0 <= a < P
    ensures 0 <= r < P && IsPower(r, a, P - 2, P)
  {
    assert IsPower(a, a, 1, P) by {
      assert Power(a, 1) == a * Power(a, 0);
      ModUnique(a, 0, a, P);
    }
    var a1, a2, a50 := InvHead(a);
    var a3, a4, a5 := InvMiddle(a, a1, a2, a50);
    ghost var e2: int, e3: int, e4: int, e5: int :=
      0, 0x1_0000_0000_0000_0000, 0xffff_ffff_ffff_fffd, 0x7fff_ffff_0000_0000;
    a5, e5 := SqrTimes(a, a5, e5, 33);
    a2, e2 := Mul(a, a5, e5, a3, e3);
    a3, e3 := Mul(a, a2, e2, a3, e3);
    a5, e5 := SqrTimes(a, a5, e5, 32);
    a2, e2 := Mul(a, a5, e5, a3, e3);
    a3, e3 := Mul(a, a2, e2, a3, e3);
    a4, e4 := Mul(a, a2, e2, a4, e4);
    a5, e5 := SqrTimes(a, a5, e5, 32);
    a2, e2 := Mul(a, a5, e5, a3, e3);
    a3, e3 := Mul(a, a2, e2, a3, e3);
    a4, e4 := Mul(a, a2, e2, a4, e4);
    a5, e5 := SqrTimes(a, a5, e5, 32);
    a2, e2 := Mul(a, a5, e5, a3, e3);
    a3, e3 := Mul(a, a2, e2, a3, e3);
    a4, e4 := Mul(a, a2, e2, a4, e4);
    a5, e5 := SqrTimes(a, a5, e5, 32);
    a2, e2 := Mul(a, a5, e5, a3, e3);
    a3, e3 := Mul(a, a2, e2, a3, e3);
    a4, e4 := Mul(a, a2, e2, a4, e4);
    a5, e5 := SqrTimes(a, a5, e5, 32);
    ghost var e: int;
    r, e := Mul(a, a4, e4, a5, e5);
  }

  /** With p prime, the result is the inverse of every non-zero field element. */
  lemma InverseOfElement(a: int, r: int)
    requires Prime(P) && 0 < a < P && IsPower(r, a, P - 2, P)
    ensures FMul(a, r) == 1
  {
    ModUnique(0, 0, 0, P);
    ModUnique(a, 0, a, P);
    FermatInverse(a, P);
    CongMod(Power(a, P - 2), P);
    CongMul(a, a, r, Power(a, P - 2), P);
    ModUnique(1, 0, 1, P);
  }
}
