/** The prime field of SM2 on limb arrays: sm2_fp_add, sm2_fp_sub, sm2_fp_div2, sm2_fp_neg
    and the folding multiplication sm2_fp_mul. Every method may be called with r aliasing
    its operands, as the point formulas do. */
module Sm2Field {
  import opened Limbs
  import opened Modular

  const P: int := 0xfffffffe_ffffffff_ffffffff_ffffffff_ffffffff_00000000_ffffffff_ffffffff

  function FAdd(x: int, y: int): int { (x + y) % P }
  function FSub(x: int, y: int): int { (x - y) % P }
  function FMul(x: int, y: int): int { (x * y) % P }

  /** A field element: eight normalised limbs standing for a number below the prime. */
  ghost predicate IsFp(s: seq<int>) {
    |s| == 8 && Norm(s) && Val(s) < P
  }

  const P_LIMBS: seq<u64> := [0xffffffff, 0xffffffff, 0x00000000, 0xffffffff, 0xffffffff, 0xffffffff, 0xffffffff, 0xfffffffe]

  /** The constant SM2_P. */
  method PrimeLimbs() returns (p: array<u64>)
    ensures fresh(p) && p.Length == 8 && Norm(p[..]) && Val(p[..]) == P
  {
    p := FromLimbs(P_LIMBS);
    Val8(P_LIMBS);
    assert P_LIMBS[..8] == P_LIMBS;
  }

  method FpAdd(r: array<u64>, a: array<u64>, b: array<u64>)
    requires r.Length == 8 && IsFp(a[..]) && IsFp(b[..])
    modifies r
    ensures IsFp(r[..]) && Val(r[..]) == FAdd(old(Val(a[..])), old(Val(b[..])))
  {
    ghost var v := Val(a[..]) + Val(b[..]);
    NormBelow(a[..]); NormBelow(b[..]);
    BnAdd(r, a, b);
    var p := PrimeLimbs();
    var c := BnCmp(r, p);
    if c >= 0 {
      BnSub(r, r, p);
    }
    LooseBelow(r[..]);
    ModUnique(v, if c >= 0 then 1 else 0, Val(r[..]), P);
  }

  method FpSub(r: array<u64>, a: array<u64>, b: array<u64>)
    requires r.Length == 8 && IsFp(a[..]) && IsFp(b[..])
    modifies r
    ensures IsFp(r[..]) && Val(r[..]) == FSub(old(Val(a[..])), old(Val(b[..])))
  {
    ghost var v := Val(a[..]) - Val(b[..]);
    NormBelow(a[..]); NormBelow(b[..]);
    var c := BnCmp(a, b);
    if c >= 0 {
      BnSub(r, a, b);
    } else {
      var t := new u64[8];
      var p := PrimeLimbs();
      BnSub(t, p, b);
      LooseBelow(t[..]);
      BnAdd(r, t, a);
    }
    LooseBelow(r[..]);
    ModUnique(v, if c >= 0 then 0 else -1, Val(r[..]), P);
  }

  method FpNeg(r: array<u64>, a: array<u64>)
    requires r.Length == 8 && IsFp(a[..])
    modifies r
    ensures IsFp(r[..]) && Val(r[..]) == FSub(0, old(Val(a[..])))
  {
    ghost var v := -Val(a[..]);
    NormBelow(a[..]);
    var z := IsZero(a);
    if z {
      BnCopy(r, a);
    } else {
      var p := PrimeLimbs();
      BnSub(r, p, a);
    }
    LooseBelow(r[..]);
    ModUnique(v, if z then 0 else -1, Val(r[..]), P);
  }

  /** sm2_bn_is_zero. */
  method IsZero(a: array<u64>) returns (z: bool)
    requires a.Length == 8 && Norm(a[..])
    ensures z <==> Val(a[..]) == 0
  {
    var zero := new u64[8](_ => 0);
    ValZero(zero[..]);
    var i := 0;
    while i < 8
      invariant 0 <= i <= 8 && forall k :: 0 <= k < i ==> a[k] == 0
    {
      if a[i] != 0 {
        ValSplit(a[..], i); ValSplit(a[..], i + 1);
        var c := BnCmp(a, zero);
        ZeroOnly(a[..], i);
        return false;
      }
      i := i + 1;
    }
    ValZero(a[..]);
    return true;
  }

  lemma {:induction false} ZeroOnly(s: seq<int>, i: nat)
    requires Norm(s) && i < |s| && s[i] != 0
    ensures Val(s) > 0
  {
    var n := |s| - 1;
    ValBound(s[..n]);
    PlaceMono(0, s[n], n);
    if i == n {
      PlaceMono(s[n], 0, n);
    } else {
      ZeroOnly(s[..n], i);
    }
  }

  // ------------------------------------------------------------ halving

  /** The first i limbs of r are those of s shifted right by one bit. */
  ghost predicate HalfInv(low: seq<int>, s: seq<int>, i: nat) {
    i == |low| < |s| && Norm(low) && 2 * Val(low) + s[0] % 2 == Val(s[..i]) + Place(s[i] % 2, i)
  }

  lemma HalfStep(low: seq<int>, s: seq<int>, i: nat)
    requires HalfInv(low, s, i) && i + 1 < |s| && 0 <= s[i] < 0x1_0000_0000
    ensures HalfInv(low + [s[i] / 2 + s[i + 1] % 2 * 0x8000_0000], s, i + 1)
  {
    var x := s[i] / 2 + s[i + 1] % 2 * 0x8000_0000;
    SnocNorm(low, x);
    ValSnoc(s, i);
    PlaceAdd(x, x, i);
    PlaceAdd(s[i] - s[i] % 2, s[i] % 2, i);
    Place4(s[i + 1] % 2, i);
    PlaceScale(0x1_0000_0000, s[i + 1] % 2, i);
    PlaceAdd(s[i] - s[i] % 2, s[i + 1] % 2 * 0x1_0000_0000, i);
  }

  lemma HalfEnd(low: seq<int>, s: seq<int>)
    requires |s| == 8 && HalfInv(low, s, 7) && s[7] >= 0
    ensures 2 * Val(low + [s[7] / 2]) + s[0] % 2 == Val(s) && LowNorm(low + [s[7] / 2])
  {
    SnocNorm(low, s[7] / 2);
    ValSnoc(s, 7);
    assert s[..8] == s;
    PlaceAdd(s[7] / 2, s[7] / 2, 7);
    PlaceAdd(s[7] - s[7] % 2, s[7] % 2, 7);
  }

  lemma Parity(s: seq<int>)
    requires |s| == 8
    ensures Val(s) % 2 == s[0] % 2
  {
    WordValue(s, 0);
    assert s[0..] == s;
    EvenPlus(Val(s[1..]), s[0]);
  }

  lemma EvenPlus(h: int, x: int)
    ensures (h * 0x1_0000_0000 + x) % 2 == x % 2
  {
    ModShift(x, h * 0x8000_0000, 2);
  }

  /** sm2_fp_div2: adds the odd prime to an odd operand, then shifts right by one bit. The bit
      moved in from the next limb is disjoint from the shifted limb, so `|` is addition. */
  method FpDiv2(r: array<u64>, a: array<u64>)
    requires r.Length == 8 && IsFp(a[..])
    modifies r
    ensures IsFp(r[..]) && FAdd(Val(r[..]), Val(r[..])) == old(Val(a[..]))
  {
    ghost var va := Val(a[..]);
    NormBelow(a[..]);
    BnCopy(r, a);
    MakeEven(r);
    Halve(r);
    HalfResidue(r[..], va);
  }

  /** The prime is added to an odd operand. */
  method MakeEven(r: array<u64>)
    requires r.Length == 8 && IsFp(r[..])
    modifies r
    ensures Loose(r[..]) && Val(r[..]) % 2 == 0
    ensures Val(r[..]) == old(Val(r[..])) + if old(Val(r[..])) % 2 == 1 then P else 0
  {
    ghost var v := Val(r[..]);
    NormBelow(r[..]);
    Parity(r[..]);
    if r[0] % 2 == 1 {
      var p := PrimeLimbs();
      BnAdd(r, r, p);
      OddSum(v, Val(r[..]));
    }
  }

  lemma OddSum(v: int, w: int)
    requires v % 2 == 1 && w == v + P
    ensures w % 2 == 0
  {
  }

  /** An even number is shifted right by one bit. */
  method Halve(r: array<u64>)
    requires r.Length == 8 && Loose(r[..]) && Val(r[..]) % 2 == 0
    modifies r
    ensures Loose(r[..]) && 2 * Val(r[..]) == old(Val(r[..]))
  {
    ghost var s: seq<int> := r[..];
    Parity(s);
    ghost var low := ShiftRight(r);
    HalfEnd(low, s);
    r[7] := r[7] / 2;
    assert r[..] == low + [s[7] / 2];
  }

  lemma HalfResidue(s: seq<int>, v: int)
    requires Loose(s) && 0 <= v < P && 2 * Val(s) == if v % 2 == 1 then v + P else v
    ensures IsFp(s) && FAdd(Val(s), Val(s)) == v
  {
    LooseBelow(s);
    ModUnique(2 * Val(s), if v % 2 == 1 then 1 else 0, v, P);
  }

  method ShiftRight(r: array<u64>) returns (ghost low: seq<int>)
    requires r.Length == 8 && Loose(r[..])
    modifies r
    ensures r[7] == old(r[7]) && |low| == 7 && r[..7] == low && HalfInv(low, old(r[..]), 7)
  {
    ghost var s: seq<int> := r[..];
    low := [];
    var i := 0;
    while i < 7
      invariant 0 <= i <= 7 && HalfInv(low, s, i)
      invariant forall k :: 0 <= k < 8 ==> r[k] == if k < i then low[k] else s[k]
    {
      HalfStep(low, s, i);
      r[i] := r[i] / 2 + r[i + 1] % 2 * 0x8000_0000;
      low := low + [r[i]];
      i := i + 1;
    }
  }

  // ------------------------------------------------------------ multiplication

  /** The column sums of the folding reduction: 2^256 is replaced by
      2^224 + 2^96 - 2^64 + 1, the negative terms being collected in `FoldBorrow`. */
  ghost function FoldColumns(s: seq<int>): (r: seq<int>)
    requires |s| == 16
  {
    [s[0] + s[8] + s[9] + s[10] + s[11] + s[12] + (s[13] + s[14] + s[15]) * 2,
     s[1] + s[9] + s[10] + s[11] + s[12] + s[13] + (s[14] + s[15]) * 2,
     s[2],
     s[3] + s[8] + s[11] + s[12] + s[14] + s[15] + s[13] * 2,
     s[4] + s[9] + s[12] + s[13] + s[15] + s[14] * 2,
     s[5] + s[10] + s[13] + s[14] + s[15] * 2,
     s[6] + s[11] + s[14] + s[15],
     s[7] + s[8] + s[9] + s[10] + s[11] + s[15] + (s[12] + s[13] + s[14] + s[15]) * 2]
  }

  ghost function FoldBorrow(s: seq<int>): int
    requires |s| == 16
  {
    0x1_00000000_00000000 * (s[8] + s[9] + s[13] + s[14])
  }

  /** The multiple of the prime that the fold removes. */
  ghost function FoldQuotient(s: seq<int>): int
    requires |s| == 16
  {
    s[8] + 0x1_00000001 * s[9] + 0x1_00000001_00000001 * s[10]
    + 0x1_00000001_00000001_00000001 * s[11]
    + 0x1_00000001_00000001_00000001_00000001 * s[12]
    + 0x1_00000001_00000001_00000001_00000001_00000002 * s[13]
    + 0x1_00000001_00000001_00000001_00000001_00000002_00000002 * s[14]
    + 0x1_00000001_00000001_00000001_00000001_00000002_00000002_00000002 * s[15]
  }

  lemma Val16(s: seq<int>)
    requires |s| == 16
    ensures Val(s) ==
      s[0] + 0x1_00000000 * s[1] + 0x1_00000000_00000000 * s[2] + 0x1_00000000_00000000_00000000 * s[3]
      + 0x1_00000000_00000000_00000000_00000000 * s[4] + 0x1_00000000_00000000_00000000_00000000_00000000 * s[5]
      + 0x1_00000000_00000000_00000000_00000000_00000000_00000000 * s[6]
      + 0x1_00000000_00000000_00000000_00000000_00000000_00000000_00000000 * s[7]
      + 0x1_00000000_00000000_00000000_00000000_00000000_00000000_00000000_00000000 * (
        s[8] + 0x1_00000000 * s[9] + 0x1_00000000_00000000 * s[10] + 0x1_00000000_00000000_00000000 * s[11]
        + 0x1_00000000_00000000_00000000_00000000 * s[12] + 0x1_00000000_00000000_00000000_00000000_00000000 * s[13]
        + 0x1_00000000_00000000_00000000_00000000_00000000_00000000 * s[14]
        + 0x1_00000000_00000000_00000000_00000000_00000000_00000000_00000000 * s[15])
  {
    var t := s[8..];
    assert t[..8] == t;
    ValSplit(s, 8);
    Place4(Val(t), 0); Place4(Val(t), 4);
    Val8(s);
    Val8(t);
  }

  /** The fold keeps the residue. */
  lemma FoldResidue(s: seq<int>)
    requires |s| == 16
    ensures Val(s) == FoldQuotient(s) * P + (Val(FoldColumns(s)) - FoldBorrow(s))
  {
    var c := FoldColumns(s);
    assert c[..8] == c;
    Val8(c);
    Val16(s);
    TimesPrime(FoldQuotient(s));
  }

  lemma TimesPrime(q: int)
    ensures q * P == 0xfffffffe_ffffffff_ffffffff_ffffffff_ffffffff_00000000_ffffffff_ffffffff * q
  {
  }

  /** The fold never goes negative and stays below fifteen times the prime. */
  lemma FoldRange(s: seq<int>)
    requires |s| == 16 && Norm(s)
    ensures 0 <= Val(FoldColumns(s)) - FoldBorrow(s) < 15 * P
  {
    var c := FoldColumns(s);
    Val8(c);
    assert c[..8] == c;
    ColumnBounds(c[0], c[1], c[2], c[3], c[4], c[5], c[6], c[7], s[8] + s[9] + s[13] + s[14]);
  }

  lemma ColumnBounds(c0: int, c1: int, c2: int, c3: int, c4: int, c5: int, c6: int, c7: int, t: int)
    requires 0 <= c0 <= 0xf_ffff_ffff && 0 <= c1 <= 0xf_ffff_ffff && 0 <= c2 <= 0xf_ffff_ffff
    requires 0 <= c3 <= 0xf_ffff_ffff && 0 <= c4 <= 0xf_ffff_ffff && 0 <= c5 <= 0xf_ffff_ffff
    requires 0 <= c6 <= 0xf_ffff_ffff && 0 <= t <= c7 <= 14 * 0xffff_ffff
    ensures 0 <= c0 + 0x1_00000000 * c1 + 0x1_00000000_00000000 * c2
      + 0x1_00000000_00000000_00000000 * c3
      + 0x1_00000000_00000000_00000000_00000000 * c4
      + 0x1_00000000_00000000_00000000_00000000_00000000 * c5
      + 0x1_00000000_00000000_00000000_00000000_00000000_00000000 * c6
      + 0x1_00000000_00000000_00000000_00000000_00000000_00000000_00000000 * c7
      - 0x1_00000000_00000000 * t < 15 * P
  {
  }

  /** sm2_fp_mul for any two normalised 256-bit operands. The loop the source annotates with
      "max times ?" runs at most 14 times. */
  method FpMul(r: array<u64>, a: array<u64>, b: array<u64>) returns (ghost rounds: nat)
    requires r.Length == a.Length == b.Length == 8
    requires Norm(a[..]) && Norm(b[..])
    modifies r
    ensures IsFp(r[..]) && Val(r[..]) == FMul(old(Val(a[..])), old(Val(b[..])))
    ensures rounds <= 14
  {
    ghost var va, vb := Val(a[..]), Val(b[..]);
    var s := new u64[16](_ => 0);
    Mul(s, a, 8, b);
    ghost var ss: seq<int> := s[..];
    assert s[..16] == s[..] && a[..8] == a[..];
    Fold(r, s);
    FoldResidue(ss);
    FoldRange(ss);
    ghost var q := FoldQuotient(ss);
    var p := PrimeLimbs();
    rounds := SubtractWhile(r, p, 15);
    assert Val(r[..]) == FMul(va, vb) by {
      FoldedTwice(va * vb, q, rounds, Val(r[..]));
    }
  }

  lemma FoldedTwice(v: int, q: int, k: int, r: int)
    requires v == q * P + (k * P + r) && 0 <= r < P
    ensures r == v % P
  {
    ModUnique(v, q + k, r, P);
  }

  /** The column sums, the carry loop and the subtraction of the collected negative terms. */
  method Fold(r: array<u64>, s: array<u64>)
    requires r.Length == 8 && s.Length == 16 && Norm(s[..]) && r != s
    modifies r
    ensures Loose(r[..])
    ensures Val(r[..]) == Val(FoldColumns(s[..])) - FoldBorrow(s[..])
  {
    ghost var ss: seq<int> := s[..];
    FillColumns(r, s);
    ColumnsSmall(ss);
    CarryPass(r);
    var d := Borrow(s);
    FoldRange(ss);
    BnSub(r, r, d);
  }

  lemma ColumnsSmall(s: seq<int>)
    requires |s| == 16 && Norm(s)
    ensures forall k :: 0 <= k < 8 ==> FoldColumns(s)[k] <= 0xff_ffff_ffff
  {
  }

  method FillColumns(r: array<u64>, s: array<u64>)
    requires r.Length == 8 && s.Length == 16 && Norm(s[..]) && r != s
    modifies r
    ensures r[..] == FoldColumns(s[..])
  {
    FillLow(r, s);
    FillHigh(r, s);
  }

  method FillLow(r: array<u64>, s: array<u64>)
    requires r.Length == 8 && s.Length == 16 && Norm(s[..]) && r != s
    modifies r
    ensures r[..4] == FoldColumns(s[..])[..4]
  {
    r[0] := s[0] + s[8] + s[9] + s[10] + s[11] + s[12] + (s[13] + s[14] + s[15]) * 2;
    r[1] := s[1] + s[9] + s[10] + s[11] + s[12] + s[13] + (s[14] + s[15]) * 2;
    r[2] := s[2];
    r[3] := s[3] + s[8] + s[11] + s[12] + s[14] + s[15] + s[13] * 2;
  }

  method FillHigh(r: array<u64>, s: array<u64>)
    requires r.Length == 8 && s.Length == 16 && Norm(s[..]) && r != s
    modifies r
    ensures r[..4] == old(r[..4]) && r[4..] == FoldColumns(s[..])[4..]
  {
    r[4] := s[4] + s[9] + s[12] + s[13] + s[15] + s[14] * 2;
    r[5] := s[5] + s[10] + s[13] + s[14] + s[15] * 2;
    r[6] := s[6] + s[11] + s[14] + s[15];
    r[7] := s[7] + s[8] + s[9] + s[10] + s[11] + s[15] + (s[12] + s[13] + s[14] + s[15]) * 2;
  }

  method Borrow(s: array<u64>) returns (d: array<u64>)
    requires s.Length == 16 && Norm(s[..])
    ensures fresh(d) && d.Length == 8 && Norm(d[..]) && Val(d[..]) == FoldBorrow(s[..])
  {
    d := new u64[8](_ => 0);
    d[2] := s[8] + s[9] + s[13] + s[14];
    d[3] := d[2] / 0x1_0000_0000;
    d[2] := d[2] % 0x1_0000_0000;
    Val8(d[..]);
    assert d[..][..8] == d[..];
  }
}
