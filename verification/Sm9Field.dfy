/** Multiplication modulo the SM9 field prime and group order, and the hash-to-scalar reduction. */
module Sm9Field {
  import opened Limbs
  import opened Barrett
  import opened Modular

  const P: int := 0xb6400000_02a3a6f1_d603ab4f_f58ec745_21f2934b_1a7aeedb_e56f9b27_e351457d
  const N: int := 0xb6400000_02a3a6f1_d603ab4f_f58ec744_49f2934b_18ea8bee_e56ee19c_d69ecf25

  const P_LIMBS: seq<u64> := [0xe351457d, 0xe56f9b27, 0x1a7aeedb, 0x21f2934b, 0xf58ec745, 0xd603ab4f, 0x02a3a6f1, 0xb6400000]
  const N_LIMBS: seq<u64> := [0xd69ecf25, 0xe56ee19c, 0x18ea8bee, 0x49f2934b, 0xf58ec744, 0xd603ab4f, 0x02a3a6f1, 0xb6400000]
  const N1_LIMBS: seq<u64> := [0xd69ecf24, 0xe56ee19c, 0x18ea8bee, 0x49f2934b, 0xf58ec744, 0xd603ab4f, 0x02a3a6f1, 0xb6400000]
  const MU_P: seq<u64> := [0xd5c22146, 0x71188f90, 0x1e36081c, 0xf2665f6d, 0xdcd1312a, 0x55f73aeb, 0xeb5759a6, 0x67980e0b, 1]
  const MU_N: seq<u64> := [0xdfc97c2f, 0x74df4fd4, 0xc9c073b0, 0x9c95d85e, 0xdcd1312c, 0x55f73aeb, 0xeb5759a6, 0x67980e0b, 1]
  const MU_N1: seq<u64> := [0xdfc97c31, 0x74df4fd4, 0xc9c073b0, 0x9c95d85e, 0xdcd1312c, 0x55f73aeb, 0xeb5759a6, 0x67980e0b, 1]

  lemma FieldConstants()
    ensures BarrettPair(P_LIMBS, MU_P, P)
  {
    Val8(P_LIMBS); Val9(MU_P); Val8(MU_P);
    assert P_LIMBS[..8] == P_LIMBS;
  }

  lemma OrderConstants()
    ensures BarrettPair(N_LIMBS, MU_N, N)
  {
    Val8(N_LIMBS); Val9(MU_N); Val8(MU_N);
    assert N_LIMBS[..8] == N_LIMBS;
  }

  lemma HashConstants()
    ensures BarrettPair(N1_LIMBS, MU_N1, N - 1)
  {
    Val8(N1_LIMBS); Val9(MU_N1); Val8(MU_N1);
    assert N1_LIMBS[..8] == N1_LIMBS;
  }

  /** sm9_fp_mul: the truncated variant, for any normalised operands. */
  method FpMul(r: array<u64>, a: array<u64>, b: array<u64>) returns (ghost rounds: nat)
    requires r.Length == a.Length == b.Length == 8 && Norm(a[..]) && Norm(b[..])
    modifies r
    ensures Norm(r[..]) && Val(r[..]) == (old(Val(a[..])) * old(Val(b[..]))) % P
    ensures rounds <= 2
  {
    var s := new u64[18](_ => 0);
    var p := FromLimbs(P_LIMBS);
    var mu := FromLimbs(MU_P);
    FieldConstants();
    assert a[..8] == a[..];
    Mul(s, a, 8, b);
    rounds := Reduce(r, s, mu, p, 9, true);
  }

  /** sm9_fn_mul. */
  method FnMul(r: array<u64>, a: array<u64>, b: array<u64>) returns (ghost rounds: nat)
    requires r.Length == a.Length == b.Length == 8 && Norm(a[..]) && Norm(b[..])
    modifies r
    ensures Norm(r[..]) && Val(r[..]) == (old(Val(a[..])) * old(Val(b[..]))) % N
    ensures rounds <= 2
  {
    var s := new u64[18](_ => 0);
    var n := FromLimbs(N_LIMBS);
    var mu := FromLimbs(MU_N);
    OrderConstants();
    assert a[..8] == a[..];
    Mul(s, a, 8, b);
    rounds := Reduce(r, s, mu, n, 9, false);
  }

  /** The big-endian number of a byte string. */
  function FromBytes(b: seq<int>): int {
    if b == [] then 0 else 256 * FromBytes(b[..|b| - 1]) + b[|b| - 1]
  }

  ghost predicate Bytes(b: seq<int>) {
    forall i :: 0 <= i < |b| ==> 0 <= b[i] < 256
  }

  lemma FromBytesSnoc(a: seq<int>, x: int)
    ensures FromBytes(a + [x]) == 256 * FromBytes(a) + x
  {
    assert (a + [x])[..|a|] == a;
  }

  lemma FromBytesWord(a: seq<int>, b: seq<int>)
    requires |b| == 4
    ensures FromBytes(a + b) == 0x1_0000_0000 * FromBytes(a) + FromBytes(b)
  {
    FourSnocs(a, b);
    FourSnocs([], b);
    assert [] + b == b;
  }

  lemma FourSnocs(a: seq<int>, b: seq<int>)
    requires |b| == 4
    ensures FromBytes(a + b) == 0x1_0000_0000 * FromBytes(a) + 0x100_0000 * b[0] + 0x1_0000 * b[1] + 256 * b[2] + b[3]
  {
    FromBytesSnoc(a, b[0]);
    FromBytesSnoc(a + [b[0]], b[1]);
    FromBytesSnoc(a + [b[0]] + [b[1]], b[2]);
    FromBytesSnoc(a + [b[0]] + [b[1]] + [b[2]], b[3]);
    assert a + b == a + [b[0]] + [b[1]] + [b[2]] + [b[3]];
  }

  /** Prepending bytes to i whole words adds their number at place i. */
  lemma {:induction false} FromBytesConcat(a: seq<int>, b: seq<int>, i: nat)
    requires |b| == 4 * i
    ensures FromBytes(a + b) == Place(FromBytes(a), i) + FromBytes(b)
  {
    if i == 0 {
      assert a + b == a;
    } else {
      var b1, b2 := b[..4 * i - 4], b[4 * i - 4..];
      FromBytesConcat(a, b1, i - 1);
      FromBytesWord(a + b1, b2);
      FromBytesWord(b1, b2);
      assert a + b == a + b1 + b2 && b == b1 + b2;
    }
  }

  /** sm9_fn_from_hash: a 40-byte hash is mapped onto the scalars 1 .. n - 1. */
  method FnFromHash(h: array<u64>, Ha: seq<int>) returns (ghost rounds: nat)
    requires h.Length == 8 && |Ha| == 40 && Bytes(Ha)
    modifies h
    ensures Norm(h[..]) && Val(h[..]) == 1 + FromBytes(Ha) % (N - 1)
    ensures rounds <= 2
  {
    var s := HashLimbs(Ha);
    var m := FromLimbs(N1_LIMBS);
    var mu := FromLimbs(MU_N1);
    HashConstants();
    rounds := Reduce(h, s, mu, m, 9, false);
    NormBelow(h[..]);
    FnIncrement(h);
  }

  /** The byte-to-limb loops: limbs 10 to 17 stay zero. */
  method HashLimbs(Ha: seq<int>) returns (s: array<u64>)
    requires |Ha| == 40 && Bytes(Ha)
    ensures fresh(s) && s.Length == 18 && Norm(s[..16]) && Val(s[..16]) == FromBytes(Ha)
  {
    s := new u64[18](_ => 0);
    ghost var low: seq<int> := [];
    var i := 0;
    while i < 10
      invariant 0 <= i <= 10 && |low| == i && Norm(low) && Loaded(s[..], low)
      invariant Val(low) == FromBytes(Ha[40 - 4 * i..])
    {
      ghost var before: seq<int> := s[..];
      var w := HashWord(Ha[36 - 4 * i..40 - 4 * i]);
      HashStep(low, w, Ha, i);
      s[i] := w;
      assert s[..] == before[i := w as int];
      LoadStep(before, low, w);
      low := low + [w];
      i := i + 1;
    }
    HashEnd(s[..], low, Ha);
  }

  /** The limbs low are loaded, the others zero. */
  ghost predicate Loaded(s: seq<int>, low: seq<int>) {
    |s| == 18 && |low| <= 10 && forall k :: 0 <= k < 18 ==> s[k] == if k < |low| then low[k] else 0
  }

  lemma LoadStep(s: seq<int>, low: seq<int>, w: int)
    requires Loaded(s, low) && |low| < 10
    ensures Loaded(s[|low| := w], low + [w])
  {
  }

  lemma HashEnd(s: seq<int>, low: seq<int>, Ha: seq<int>)
    requires |Ha| == 40 && Loaded(s, low) && |low| == 10 && Norm(low) && Val(low) == FromBytes(Ha[0..])
    ensures Norm(s[..16]) && Val(s[..16]) == FromBytes(Ha)
  {
    assert Ha[0..] == Ha;
    assert s[..16][..10] == low;
    ZeroTail(s[..16], 10);
  }

  lemma HashStep(low: seq<int>, w: int, Ha: seq<int>, i: nat)
    requires |Ha| == 40 && i < 10 && |low| == i && Norm(low) && 0 <= w < 0x1_0000_0000
    requires Val(low) == FromBytes(Ha[40 - 4 * i..]) && w == FromBytes(Ha[36 - 4 * i..40 - 4 * i])
    ensures Norm(low + [w]) && Val(low + [w]) == FromBytes(Ha[36 - 4 * i..])
  {
    SnocNorm(low, w);
    FromBytesConcat(Ha[36 - 4 * i..40 - 4 * i], Ha[40 - 4 * i..], i);
    assert Ha[36 - 4 * i..] == Ha[36 - 4 * i..40 - 4 * i] + Ha[40 - 4 * i..];
  }

  lemma ZeroTail(s: seq<int>, k: nat)
    requires k <= |s| && forall i :: k <= i < |s| ==> s[i] == 0
    ensures Val(s) == Val(s[..k])
  {
    ValSplit(s, k);
    ValZero(s[k..]);
    PlaceMono(0, 0, k);
  }

  /** Four bytes, most significant first. */
  method HashWord(b: seq<int>) returns (w: u64)
    requires |b| == 4 && Bytes(b)
    ensures w as int == FromBytes(b) && w < 0x1_0000_0000
  {
    w := 0;
    var j := 0;
    while j < 4
      invariant 0 <= j <= 4 && w as int == FromBytes(b[..j])
      invariant j == 0 ==> w == 0
      invariant j == 1 ==> w < 0x100
      invariant j == 2 ==> w < 0x1_0000
      invariant j == 3 ==> w < 0x100_0000
      invariant j == 4 ==> w < 0x1_0000_0000
    {
      assert b[..j + 1][..j] == b[..j];
      w := w * 256 + b[j];
      j := j + 1;
    }
    assert b[..4] == b;
  }

  /** The closing sm9_fn_add(h, h, 1): below n - 1 it never reduces. */
  method FnIncrement(h: array<u64>)
    requires h.Length == 8 && Norm(h[..]) && Val(h[..]) < N - 1
    modifies h
    ensures Norm(h[..]) && Val(h[..]) == old(Val(h[..])) + 1
  {
    var one := FromLimbs([1, 0, 0, 0, 0, 0, 0, 0]);
    Val8(one[..]);
    assert one[..][..8] == one[..];
    var n := FromLimbs(N_LIMBS);
    OrderConstants();
    BnAdd(h, h, one);
    var c := BnCmp(h, n);
    assert c < 0;
    LooseBelow(h[..]);
  }
}
