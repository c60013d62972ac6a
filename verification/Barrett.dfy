/** Barrett reduction as sm2_fn_mul, sm9_fp_mul, sm9_fn_mul and sm9_fn_from_hash perform it:
    z mod m from the top nine limbs of z and the precomputed mu = 2^512 div m. */
module Barrett {
  import opened Limbs
  import opened Modular

  /** 2^224, 2^256 and 2^288. */
  const B7: int := 0x1_00000000_00000000_00000000_00000000_00000000_00000000_00000000
  const B8: int := 0x1_00000000_00000000_00000000_00000000_00000000_00000000_00000000_00000000
  const B9: int := 0x1_00000000_00000000_00000000_00000000_00000000_00000000_00000000_00000000_00000000

  /** The estimated quotient misses the true one by at most two. */
  lemma QuotientBound(z: int, m: int, mu: int, zh: int, q: int)
    requires 0 < B7 <= m && 0 <= z < B8 * B8
    requires 0 <= B8 * B8 - mu * m < m && mu >= 0
    requires zh == z / B7 && q == (zh * mu) / B9
    ensures 0 <= z - q * m < 3 * m && 0 <= q
  {
    var zr, e, f := z % B7, B8 * B8 - mu * m, (zh * mu) % B9;
    assert z == zh * B7 + zr && zh * mu == q * B9 + f;
    assert 0 <= zh < B9;
    ErrorTerm(z, m, mu, zh, zr, e, q, f);
    Product3(zh, e, f, m);
  }

  lemma ErrorTerm(z: int, m: int, mu: int, zh: int, zr: int, e: int, q: int, f: int)
    requires z == zh * B7 + zr && zh * mu == q * B9 + f && mu * m + e == B8 * B8
    ensures B9 * (z - q * m) == zr * B9 + zh * e + f * m
  {
    calc {
      B9 * (q * m);
      (q * B9) * m;
      (zh * mu - f) * m;
      zh * (mu * m) - f * m;
      zh * (B8 * B8) - zh * e - f * m;
    }
    assert B8 * B8 == B7 * B9;
  }

  lemma Product3(zh: int, e: int, f: int, m: int)
    requires 0 <= zh < B9 && 0 <= e < m && 0 <= f < B9
    ensures 0 <= zh * e <= B9 * m && 0 <= f * m <= (B9 - 1) * m
  {
    MulMono(zh, B9, e);
    MulMono(e, m, B9);
    MulMono(f, B9 - 1, m);
  }

  /** mu is the quotient of 2^512 by the modulus m. */
  ghost predicate BarrettPair(m: seq<int>, mu: seq<int>, v: int) {
    |m| == 8 && Norm(m) && |mu| == 9 && Norm(mu) && Val(m) == v && 0 <= B8 * B8 - Val(mu) * v < v
  }

  // -------------------------------------------------- the shared passes on limbs

  /** zl = z mod 2^288, and q = (z div 2^224) * mu div 2^288, whose limbs are left in s[9..18). */
  method Estimate(s: array<u64>, zl: array<u64>, mu: array<u64>)
    requires s.Length == 18 && zl.Length == 9 && mu.Length == 9 && s != zl && s != mu && zl != mu
    requires Norm(s[..16]) && Norm(mu[..])
    modifies s, zl
    ensures Norm(zl[..]) && Val(zl[..]) == old(Val(s[..16])) % B9
    ensures Norm(s[9..]) && Val(s[9..]) == (old(Val(s[..16])) / B7 * Val(mu[..])) / B9
  {
    ghost var z: seq<int> := s[..16];
    var zh := new u64[9];
    var i := 0;
    while i < 9
      invariant 0 <= i <= 9
      invariant s[..16] == z
      invariant forall k :: 0 <= k < i ==> zl[k] == z[k] && zh[k] == z[7 + k]
    {
      zl[i] := s[i];
      zh[i] := s[7 + i];
      i := i + 1;
    }
    assert zl[..] == z[..9] && zh[..] == z[7..];
    LimbDivMod(z, 9);
    LimbDivMod(z, 7);
    i := 0;
    while i < 9
      invariant 0 <= i <= 9 && zl[..] == z[..9] && zh[..] == z[7..]
      invariant forall k :: 0 <= k < i ==> s[k] == 0
    {
      s[i] := 0;
      i := i + 1;
    }
    assert zh[..9] == z[7..];
    Mul(s, zh, 9, mu);
    assert s[..18] == s[..];
    LimbDivMod(s[..], 9);
  }

  /** Splitting normalised limbs is division by a power of 2^32. */
  lemma LimbDivMod(s: seq<int>, k: nat)
    requires k <= |s| && Norm(s) && (k == 7 || k == 9)
    ensures var b := if k == 7 then B7 else B9;
      Val(s[..k]) == Val(s) % b && Val(s[k..]) == Val(s) / b
  {
    var b := if k == 7 then B7 else B9;
    ValSplit(s, k);
    ValBound(s[..k]);
    var hi := Val(s[k..]);
    PlaceB(hi);
    PlaceB(1);
    ModUnique(Val(s), hi, Val(s[..k]), b);
    DivUnique(Val(s), hi, Val(s[..k]), b);
  }

  lemma Val9(s: seq<int>)
    requires |s| == 9
    ensures Val(s) == Val(s[..8]) + B8 * s[8]
  {
    ValSnoc(s, 8);
    assert s[..9] == s;
    PlaceB(s[8]);
  }

  lemma PlaceB(x: int)
    ensures Place(x, 7) == B7 * x && Place(x, 8) == B8 * x && Place(x, 9) == B9 * x
  {
    Place4(x, 0); Place4(x, 4);
    assert Place(x, 9) == 0x1_0000_0000 * Place(x, 8);
  }

  /** r = zl - q modulo 2^288. When zl < q the subtraction wraps around and leaves garbage above
      bit 288, which the 64-bit shift of the top limb discards; when zl = q the other branch
      computes 2^288, whose shifted top limb is zero. */
  method SubtractResidue(r: array<u64>, zl: array<u64>, q: array<u64>)
    requires r.Length == 8 && zl.Length == q.Length == 9 && r != zl && r != q && zl != q
    requires Norm(zl[..]) && Norm(q[..])
    modifies r, zl, q
    ensures Loose(r[..]) && Val(r[..]) == (old(Val(zl[..])) - old(Val(q[..]))) % B9
  {
    ghost var vz, vq := Val(zl[..]), Val(q[..]);
    ValBound(zl[..]); ValBound(q[..]);
    PlaceB(1); PlaceB(0x1_0000_0000_0000_0000); PlaceB(0x1_0000_0000);
    var c := BnCmp(zl, q);
    if c != 0 {
      BnSub(zl, zl, q);
      ModShift(vz - vq, if vz >= vq then 0 else 0x1_0000_0000, B9);
    } else {
      var two288 := new u64[9] [0, 0, 0, 0, 0, 0, 0, 0, 0x1_0000_0000];
      ValSnoc(two288[..], 8);
      ValZero(two288[..8]);
      assert two288[..][..9] == two288[..] && two288[..][..8] == two288[..8];
      BnSub(q, two288, q);
      TopBound(q[..]);
      BnAdd(zl, q, zl);
      ModShift(0, 1, B9);
    }
    ShiftTop(r, zl);
  }

  lemma TopBound(s: seq<int>)
    requires |s| == 9 && LowNorm(s) && Val(s) <= B9
    ensures s[8] <= 0x1_0000_0000
  {
    ValSnoc(s, 8);
    assert s[..9] == s;
    ValBound(s[..8]);
    PlaceB(s[8]);
  }

  /** Keeps eight limbs and adds the ninth, shifted left by 32 in a 64-bit word, to the last. */
  method ShiftTop(r: array<u64>, zl: array<u64>)
    requires r.Length == 8 && zl.Length == 9 && r != zl && LowNorm(zl[..])
    modifies r
    ensures Loose(r[..]) && Val(r[..]) == Val(zl[..]) % B9
  {
    ghost var z: seq<int> := zl[..];
    var i := 0;
    while i < 8
      invariant 0 <= i <= 8 && forall k :: 0 <= k < i ==> r[k] == z[k]
    {
      r[i] := zl[i];
      i := i + 1;
    }
    ghost var low: seq<int> := z[..8];
    assert r[..] == low;
    WrapShift(zl[8], r[7]);
    r[7] := Wrap(r[7] + Wrap(zl[8] as int * 0x1_0000_0000));
    assert r[..] == low[7 := low[7] + z[8] % 0x1_0000_0000 * 0x1_0000_0000];
    ShiftedValue(z);
  }

  lemma WrapShift(x: int, y: int)
    requires 0 <= x && 0 <= y < 0x1_0000_0000
    ensures Wrap(y + Wrap(x * 0x1_0000_0000)) == y + x % 0x1_0000_0000 * 0x1_0000_0000
  {
    var h := x / 0x1_0000_0000;
    assert x == h * 0x1_0000_0000 + x % 0x1_0000_0000;
    ModUnique(x * 0x1_0000_0000, h, x % 0x1_0000_0000 * 0x1_0000_0000, 0x1_0000_0000_0000_0000);
    ModUnique(y + x % 0x1_0000_0000 * 0x1_0000_0000, 0, y + x % 0x1_0000_0000 * 0x1_0000_0000, 0x1_0000_0000_0000_0000);
  }

  lemma ShiftedValue(z: seq<int>)
    requires |z| == 9 && LowNorm(z) && z[8] >= 0
    ensures Val(z[..8][7 := z[7] + z[8] % 0x1_0000_0000 * 0x1_0000_0000]) == Val(z) % B9
  {
    var x := z[8] % 0x1_0000_0000 * 0x1_0000_0000;
    ValUpdate(z[..8], 7, z[7] + x);
    PlaceB(x); PlaceB(z[8]); PlaceB(1);
    ValSnoc(z, 8);
    assert z[..9] == z;
    ValBound(z[..8]);
    ModUnique(Val(z), z[8] / 0x1_0000_0000, Val(z[..8]) + B7 * x, B9);
  }

  /** dst[0..n) = src[from..from+n). */
  method CopyLimbs(dst: array<u64>, src: array<u64>, from: nat, n: nat)
    requires n <= dst.Length && from + n <= src.Length && dst != src
    modifies dst
    ensures dst[..n] == src[from..from + n]
  {
    var i := 0;
    while i < n
      invariant 0 <= i <= n && forall k :: 0 <= k < i ==> dst[k] == src[from + k]
    {
      dst[i] := src[from + i];
      i := i + 1;
    }
  }

  method Clear(s: array<u64>)
    modifies s
    ensures forall k :: 0 <= k < s.Length ==> s[k] == 0
  {
    var i := 0;
    while i < s.Length
      invariant 0 <= i <= s.Length && forall k :: 0 <= k < i ==> s[k] == 0
    {
      s[i] := 0;
      i := i + 1;
    }
  }

  /** q = q * m mod 2^288 by a full product of the first nq limbs of q. */
  method MulBack(s: array<u64>, q: array<u64>, nq: nat, m: array<u64>)
    requires s.Length == 18 && q.Length == 9 && m.Length == 8 && s != q && s != m && q != m
    requires 8 <= nq <= 9 && Norm(q[..nq]) && Norm(m[..])
    modifies s, q
    ensures Norm(q[..]) && Val(q[..]) == (old(Val(q[..nq])) * Val(m[..])) % B9
  {
    Clear(s);
    Mul(s, q, nq, m);
    ghost var t: seq<int> := s[..nq + 8];
    CopyLimbs(q, s, 0, 9);
    assert q[..] == q[..9] == t[..9];
    LimbDivMod(t, 9);
  }

  /** q = q * m mod 2^288 by the truncated double loop of sm9_fp_mul, which drops every limb
      and carry above the ninth place. */
  method MulBackTruncated(s: array<u64>, q: array<u64>, m: array<u64>)
    requires s.Length == 18 && q.Length == 9 && m.Length == 8 && s != q && s != m && q != m
    requires Norm(q[..]) && Norm(m[..])
    modifies s, q
    ensures Norm(q[..]) && Val(q[..]) == (old(Val(q[..])) * Val(m[..])) % B9
  {
    ghost var sq: seq<int>, vm := q[..], Val(m[..]);
    Clear(s);
    ValZero(s[..8]);
    MulStep(s, 0, q[0], m);
    ProductSnoc(sq, 0, vm);
    ghost var lost := 0;
    var i := 1;
    while i < 9
      invariant 1 <= i <= 9 && q[..] == sq && Norm(m[..]) && Val(m[..]) == vm
      invariant Norm(s[..9])
      invariant Val(s[..9]) + lost * B9 == Val(sq[..i]) * vm
    {
      ghost var v := Val(s[..9]);
      ghost var drop := TruncatedStep(s, i, q[i], m);
      ProductSnoc(sq, i, vm);
      LoseMore(lost, drop);
      lost := lost + drop;
      i := i + 1;
    }
    assert sq[..9] == sq;
    ValBound(s[..9]);
    PlaceB(1);
    ModUnique(Val(sq) * vm, lost, Val(s[..9]), B9);
    CopyLimbs(q, s, 0, 9);
    assert q[..] == q[..9];
  }

  lemma LoseMore(x: int, y: int)
    ensures (x + y) * B9 == x * B9 + y * B9
  {
  }

  /** Row i of the truncated product: limbs i..9 of s, the carry out of them dropped. */
  method TruncatedStep(s: array<u64>, i: nat, x: u64, m: array<u64>) returns (ghost drop: int)
    requires s.Length == 18 && m.Length == 8 && s != m && 1 <= i < 9
    requires x < 0x1_0000_0000 && Norm(m[..]) && Norm(s[..9])
    modifies s
    ensures Norm(s[..9])
    ensures Val(s[..9]) + drop * B9 == old(Val(s[..9])) + Place(x, i) * Val(m[..])
  {
    ghost var s0: seq<int> := s[..9];
    assert s[i..9] == s0[i..];
    var w := MulRow(s, i, x, m, 9 - i);
    assert s[..i] == s0[..i];
    ghost var s1: seq<int> := s[..9];
    assert s1[..i] == s0[..i] && s1[i..] == s[i..9] && s1 == s1[..i] + s1[i..];
    drop := w + x * Val(m[9 - i..]);
    TruncatedRow(s0, s1, i, w, x, m[..]);
  }

  lemma TruncatedRow(s0: seq<int>, s1: seq<int>, i: nat, w: int, x: int, m: seq<int>)
    requires 1 <= i < 9 && |s0| == |s1| == 9 && |m| == 8 && s1[..i] == s0[..i]
    requires Val(s1[i..]) + Place(w, 9 - i) == Val(s0[i..]) + x * Val(m[..9 - i])
    ensures Val(s1) + (w + x * Val(m[9 - i..])) * B9 == Val(s0) + Place(x, i) * Val(m)
  {
    var hi := Val(m[9 - i..]);
    ValSplit(s0, i); ValSplit(s1, i);
    PlaceAdd(Val(s1[i..]), Place(w, 9 - i), i);
    PlaceAdd(Val(s0[i..]), x * Val(m[..9 - i]), i);
    PlaceShift(w, i, 9 - i);
    PlaceB(w); PlaceB(x * hi);
    RowSplit(x, m, i);
    Distribute(B9, w, x * hi);
  }

  /** A row shifted by i places, split at the ninth place. */
  lemma RowSplit(x: int, m: seq<int>, i: nat)
    requires 1 <= i < 9 && |m| == 8
    ensures Place(x, i) * Val(m) == Place(x * Val(m[..9 - i]), i) + Place(x * Val(m[9 - i..]), 9)
  {
    ValSplit(m, 9 - i);
    RowSplitValues(x, Val(m[..9 - i]), Val(m[9 - i..]), i);
  }

  lemma RowSplitValues(x: int, lo: int, hi: int, i: nat)
    requires 1 <= i < 9
    ensures Place(x, i) * (lo + Place(hi, 9 - i)) == Place(x * lo, i) + Place(x * hi, 9)
  {
    var v := lo + Place(hi, 9 - i);
    assert v * x == x * lo + Place(x * hi, 9 - i) by {
      PlaceScale(x, hi, 9 - i);
      Distribute(x, lo, Place(hi, 9 - i));
    }
    calc {
      Place(x, i) * v;
      { PlaceScale(v, x, i); }
      Place(v * x, i);
      Place(x * lo + Place(x * hi, 9 - i), i);
      { SplitShift(x * lo, x * hi, i); }
      Place(x * lo, i) + Place(x * hi, 9);
    }
  }

  lemma SplitShift(a: int, c: int, i: nat)
    requires i < 9
    ensures Place(a + Place(c, 9 - i), i) == Place(a, i) + Place(c, 9)
  {
    PlaceAdd(a, Place(c, 9 - i), i);
    PlaceShift(c, i, 9 - i);
  }

  /** z mod m for the sixteen-limb z in s: the part of the four source functions that follows
      the first product. nq is the number of quotient limbs kept. */
  method Reduce(r: array<u64>, s: array<u64>, mu: array<u64>, m: array<u64>, nq: nat, truncated: bool)
    returns (ghost rounds: nat)
    requires r.Length == 8 && s.Length == 18 && mu.Length == 9 && m.Length == 8
    requires r != s && r != mu && r != m && s != mu && s != m && mu != m
    requires Norm(s[..16]) && Norm(mu[..]) && Norm(m[..])
    requires 8 <= nq <= 9 && (truncated ==> nq == 9) && (nq == 8 ==> Val(s[..16]) < B8 * Val(m[..]))
    requires B7 <= Val(m[..]) && 0 <= B8 * B8 - Val(mu[..]) * Val(m[..]) < Val(m[..])
    modifies r, s
    ensures Norm(r[..]) && Val(r[..]) == old(Val(s[..16])) % Val(m[..])
    ensures rounds <= 2
  {
    ghost var z, vm, vmu := Val(s[..16]), Val(m[..]), Val(mu[..]);
    var zl, q := new u64[9], new u64[9];
    SixteenBound(s[..16]);
    Estimate(s, zl, mu);
    ghost var est := (z / B7 * vmu) / B9;
    QuotientBound(z, vm, vmu, z / B7, est);
    TimesModulus(s, q, m, nq, truncated, z, est);
    NormBelow(m[..]);
    SubtractResidue(r, zl, q);
    ResidueOfDifference(z, est * vm, 3 * vm);
    rounds := SubtractWhile(r, m, 3);
    TwoQuotients(z, est, rounds, Val(r[..]), vm);
  }

  lemma TwoQuotients(z: int, q1: int, q2: int, r: int, m: int)
    requires z - q1 * m == q2 * m + r && 0 <= r < m
    ensures r == z % m
  {
    assert (q1 + q2) * m == q1 * m + q2 * m;
    ModUnique(z, q1 + q2, r, m);
  }

  /** q = est * m mod 2^288 for the quotient estimate left in s[9..18). */
  method TimesModulus(s: array<u64>, q: array<u64>, m: array<u64>, nq: nat, truncated: bool, ghost z: int, ghost est: int)
    requires s.Length == 18 && q.Length == 9 && m.Length == 8 && s != q && s != m && q != m
    requires Norm(s[9..]) && Norm(m[..]) && Val(s[9..]) == est && Val(m[..]) > 0
    requires 8 <= nq <= 9 && (truncated ==> nq == 9) && (nq == 8 ==> z < B8 * Val(m[..]))
    requires 0 <= z - est * Val(m[..])
    modifies s, q
    ensures Norm(q[..]) && Val(q[..]) == (est * Val(m[..])) % B9
  {
    KeptLimbs(s[9..], nq, z, Val(m[..]), est);
    CopyLimbs(q, s, 9, nq);
    assert q[..nq] == s[9..][..nq];
    if truncated {
      assert q[..nq] == q[..];
      MulBackTruncated(s, q, m);
    } else {
      MulBack(s, q, nq, m);
    }
  }

  lemma SixteenBound(s: seq<int>)
    requires |s| == 16 && Norm(s)
    ensures 0 <= Val(s) < B8 * B8
  {
    ValBound(s);
    PlaceShift(1, 8, 8);
    PlaceB(1); PlaceB(B8);
  }

  /** With nq = 8 the dropped ninth limb is zero. */
  lemma KeptLimbs(s: seq<int>, nq: nat, z: int, m: int, est: int)
    requires |s| == 9 && Norm(s) && Val(s) == est && 8 <= nq <= 9 && m > 0
    requires 0 <= z - est * m && (nq == 8 ==> z < B8 * m)
    ensures Val(s[..nq]) == est && Norm(s[..nq])
  {
    assert s[..9] == s;
    if nq == 8 {
      RoundsBelow(est, B8, m);
      ValSnoc(s, 8);
      ValBound(s[..8]);
      PlaceB(s[8]);
    }
  }

  lemma ResidueOfDifference(x: int, y: int, bound: int)
    requires 0 <= x - y < bound <= B9
    ensures (x % B9 - y % B9) % B9 == x - y
  {
    ModShift(x % B9 - y % B9, x / B9 - y / B9, B9);
    assert x % B9 - y % B9 + (x / B9 - y / B9) * B9 == x - y;
  }

}
