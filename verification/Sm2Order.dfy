/** Multiplication modulo the SM2 group order. */
module Sm2Order {
  import opened Limbs
  import opened Barrett
  import opened Modular

  const N: int := 0xfffffffe_ffffffff_ffffffff_ffffffff_7203df6b_21c6052b_53bbf409_39d54123

  const N_LIMBS: seq<u64> := [0x39d54123, 0x53bbf409, 0x21c6052b, 0x7203df6b, 0xffffffff, 0xffffffff, 0xffffffff, 0xfffffffe]
  const MU: seq<u64> := [0xf15149a0, 0x12ac6361, 0xfa323c01, 0x8dfc2096, 1, 1, 1, 1, 1]

  lemma Constants()
    ensures BarrettPair(N_LIMBS, MU, N)
  {
    Val8(N_LIMBS); Val9(MU); Val8(MU);
    assert N_LIMBS[..8] == N_LIMBS;
  }

  /** sm2_fn_mul. One operand below n is enough: the other may be any 256-bit number, as the
      ring signature passes an x coordinate that is only reduced modulo p. */
  method FnMul(ret: array<u64>, a: array<u64>, b: array<u64>) returns (ghost rounds: nat)
    requires ret.Length == a.Length == b.Length == 8
    requires Norm(a[..]) && Norm(b[..]) && (Val(a[..]) < N || Val(b[..]) < N)
    modifies ret
    ensures Norm(ret[..]) && Val(ret[..]) == (old(Val(a[..])) * old(Val(b[..]))) % N
    ensures rounds <= 2
  {
    var s, r := new u64[18](_ => 0), new u64[8];
    var n := FromLimbs(N_LIMBS);
    var mu := FromLimbs(MU);
    Constants();
    SmallProduct(a[..], b[..]);
    assert a[..8] == a[..];
    Mul(s, a, 8, b);
    rounds := Reduce(r, s, mu, n, 8, false);
    BnCopy(ret, r);
  }

  lemma SmallProduct(a: seq<int>, b: seq<int>)
    requires |a| == |b| == 8 && Norm(a) && Norm(b) && (Val(a) < N || Val(b) < N)
    ensures Val(a) * Val(b) < B8 * N
  {
    NormBelow(a); NormBelow(b);
    if Val(a) < N {
      MulMono(Val(a), N, Val(b)); MulMono(Val(b), B8, N);
    } else {
      MulMono(Val(b), N, Val(a)); MulMono(Val(a), B8, N);
    }
  }

  // ------------------------------------------------------------ exponentiation

  ghost function Pow2(j: nat): nat { if j == 0 then 1 else 2 * Pow2(j - 1) }

  /** One word of the exponent: h are the bits already used, w the others, left-aligned. */
  ghost predicate WordState(word: int, j: nat, h: int, w: int) {
    word * Pow2(j) == h * 0x1_0000_0000 + w && 0 <= w < 0x1_0000_0000
  }

  lemma WordStep(word: int, j: nat, h: int, w: int, bit: int, w': int)
    requires WordState(word, j, h, w)
    requires bit == (if w >= 0x8000_0000 then 1 else 0) && w' == (w * 2) % 0x1_0000_0000
    ensures WordState(word, j + 1, 2 * h + bit, w')
  {
    assert word * Pow2(j + 1) == 2 * (word * Pow2(j));
  }

  lemma WordDone(word: int, h: int, w: int)
    requires WordState(word, 32, h, w)
    ensures h == word
  {
    Pow2Word();
  }

  lemma Pow2Word()
    ensures Pow2(32) == 0x1_0000_0000
  {
    assert Pow2(8) == 256;
    assert Pow2(16) == 0x1_0000 by { assert Pow2(12) == 0x1000; }
    assert Pow2(24) == 0x100_0000 by { assert Pow2(20) == 0x10_0000; }
    assert Pow2(28) == 0x1000_0000;
  }

  /** sm2_fn_exp: square and multiply over the 256 bits of e, most significant first. */
  method FnExp(r: array<u64>, a: array<u64>, e: array<u64>)
    requires r.Length == a.Length == e.Length == 8
    requires Norm(a[..]) && Norm(e[..])
    modifies r
    ensures Norm(r[..]) && IsPower(Val(r[..]), old(Val(a[..])), old(Val(e[..])), N)
  {
    ghost var va: int, se: seq<int> := Val(a[..]), e[..];
    var t := UnitLimbs();
    NoLimbs(va, se);
    ExpLimbs(t, a, e);
    AllLimbs(Val(t[..]), va, se);
    BnCopy(r, t);
  }

  /** The loop over the limbs, most significant first. */
  method ExpLimbs(t: array<u64>, a: array<u64>, e: array<u64>)
    requires t.Length == a.Length == e.Length == 8 && t != a && t != e
    requires Norm(t[..]) && Norm(a[..]) && Norm(e[..]) && Raised(Val(t[..]), Val(a[..]), e[..], 8)
    modifies t
    ensures Norm(t[..]) && Raised(Val(t[..]), Val(a[..]), e[..], 0)
  {
    var i := 8;
    while i > 0
      invariant 0 <= i <= 8 && Norm(t[..]) && Norm(a[..]) && Norm(e[..]) && Raised(Val(t[..]), Val(a[..]), e[..], i)
    {
      i := i - 1;
      ExpLimb(t, a, e, i);
    }
  }

  /** The loop body. */
  method ExpLimb(t: array<u64>, a: array<u64>, e: array<u64>, i: nat)
    requires t.Length == a.Length == e.Length == 8 && t != a && t != e && i < 8
    requires Norm(t[..]) && Norm(a[..]) && Norm(e[..]) && Raised(Val(t[..]), Val(a[..]), e[..], i + 1)
    modifies t
    ensures Norm(t[..]) && Raised(Val(t[..]), Val(a[..]), e[..], i)
  {
    ghost var se: seq<int> := e[..];
    ExpWord(t, a, e[i], Val(se[i + 1..]));
    MoreLimbs(Val(t[..]), Val(a[..]), se, i);
  }

  lemma AllLimbs(t: int, a: int, e: seq<int>)
    requires Raised(t, a, e, 0)
    ensures IsPower(t, a, Val(e), N)
  {
    assert e[0..] == e;
  }

  method UnitLimbs() returns (t: array<u64>)
    ensures fresh(t) && t.Length == 8 && Norm(t[..]) && Val(t[..]) == 1
  {
    t := FromLimbs([1, 0, 0, 0, 0, 0, 0, 0]);
    Val8(t[..]);
    assert t[..][..8] == t[..];
  }

  /** t is the power of a to the limbs of e from i on. */
  ghost predicate Raised(t: int, a: int, e: seq<int>, i: nat) {
    i <= |e| && Val(e[i..]) >= 0 && IsPower(t, a, Val(e[i..]), N)
  }

  lemma NoLimbs(a: int, e: seq<int>)
    requires |e| == 8
    ensures Raised(1, a, e, 8)
  {
    assert e[8..] == [];
    ModUnique(1, 0, 1, N);
  }

  lemma MoreLimbs(t: int, a: int, e: seq<int>, i: nat)
    requires i < |e| && Norm(e) && IsPower(t, a, Val(e[i + 1..]) * 0x1_0000_0000 + e[i], N)
    ensures Raised(t, a, e, i)
  {
    WordValue(e, i);
  }

  /** The inner loop over one 32-bit word of the exponent. */
  method ExpWord(t: array<u64>, a: array<u64>, word: u64, ghost g: nat)
    requires t.Length == a.Length == 8 && t != a && word < 0x1_0000_0000
    requires Norm(t[..]) && Norm(a[..]) && IsPower(Val(t[..]), Val(a[..]), g, N)
    modifies t
    ensures Norm(t[..]) && IsPower(Val(t[..]), Val(a[..]), g * 0x1_0000_0000 + word, N)
  {
    ghost var va, h, k := Val(a[..]), 0, g;
    FirstPower(va);
    var w: u64, j := word, 0;
    while j < 32
      invariant 0 <= j <= 32 && Norm(t[..]) && Norm(a[..]) && Val(a[..]) == va
      invariant WordState(word, j, h, w) && k == g * Pow2(j) + h && h >= 0 && k >= 0
      invariant IsPower(Val(t[..]), va, k, N)
    {
      ghost var bit := if w >= 0x8000_0000 then 1 else 0;
      Square(t, va, k);
      if w >= 0x8000_0000 {
        Times(t, a, 2 * k);
      }
      WordStep(word, j, h, w, bit, (w * 2) % 0x1_0000_0000);
      DoubleExponent(g, j, h, bit, k);
      h, k := 2 * h + bit, 2 * k + bit;
      w := (w * 2) % 0x1_0000_0000;
      j := j + 1;
    }
    WordDone(word, h, w);
    Pow2Word();
  }

  lemma DoubleExponent(g: int, j: nat, h: int, bit: int, k: int)
    requires k == g * Pow2(j) + h
    ensures 2 * k + bit == g * Pow2(j + 1) + (2 * h + bit)
  {
    assert g * (2 * Pow2(j)) == 2 * (g * Pow2(j));
  }

  lemma FirstPower(a: int)
    ensures Power(a, 1) == a
  {
    assert Power(a, 0) == 1;
  }

  method Square(t: array<u64>, ghost va: int, ghost k: nat)
    requires t.Length == 8 && Norm(t[..]) && IsPower(Val(t[..]), va, k, N)
    modifies t
    ensures Norm(t[..]) && IsPower(Val(t[..]), va, 2 * k, N)
  {
    ghost var v := Val(t[..]);
    ghost var rounds := FnMul(t, t, t);
    PowerProduct(v, k, v, k, va, N);
  }

  method Times(t: array<u64>, a: array<u64>, ghost k: nat)
    requires t.Length == a.Length == 8 && Norm(t[..]) && Norm(a[..]) && t != a
    requires IsPower(Val(t[..]), Val(a[..]), k, N)
    modifies t
    ensures Norm(t[..]) && IsPower(Val(t[..]), Val(a[..]), k + 1, N)
  {
    ghost var v, va := Val(t[..]), Val(a[..]);
    ghost var rounds := FnMul(t, t, a);
    FirstPower(va);
    CongMod(va, N);
    CongMul(v, v, va, va % N, N);
    PowerProduct(v, k, va % N, 1, va, N);
  }

  /** sm2_fn_inv: the exponent is n - 2. */
  method FnInv(r: array<u64>, a: array<u64>)
    requires r.Length == a.Length == 8 && Norm(a[..])
    modifies r
    ensures Norm(r[..]) && IsPower(Val(r[..]), old(Val(a[..])), N - 2, N)
  {
    var e := new u64[8];
    var n := FromLimbs(N_LIMBS);
    var two := FromLimbs([2, 0, 0, 0, 0, 0, 0, 0]);
    Val8(two[..]);
    assert two[..][..8] == two[..];
    Constants();
    BnSub(e, n, two);
    LooseBelow(e[..]);
    FnExp(r, a, e);
  }

  /** With n prime, sm2_fn_inv returns the inverse of every scalar that is not a multiple of n. */
  lemma InverseOfScalar(a: int, r: int)
    requires Prime(N) && a % N != 0 && IsPower(r, a, N - 2, N)
    ensures (a * r) % N == 1
  {
    ModUnique(0, 0, 0, N);
    FermatInverse(a, N);
    CongMod(Power(a, N - 2), N);
    CongMul(a, a, r, Power(a, N - 2), N);
    ModUnique(1, 0, 1, N);
  }
}
