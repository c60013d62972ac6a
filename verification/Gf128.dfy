/** gf128.c: elements of GF(2^128) in two machine words. */
module Gf128 {
  import opened Gf2Poly
  import opened WordBits
  import opened Gf128Algebra

  function TopBit(w: bv64): bool { w & 0x8000_0000_0000_0000 != 0 }

  function ShiftLeft(w: bv64): bv64 { w << 1 }

  function Xor(u: bv64, v: bv64): bv64 { u ^ v }

  ghost function Words(): Word<bv64> { Word(TopBit, ShiftLeft, Xor, 0) }

  ghost function Exponents(w: bv64): set<nat> { Top(Words(), w, 64) }

  // ------------------------------------------------------------ 64-bit words

  lemma WordLaws()
    ensures Laws(Words())
  {
    ZeroWord();
    forall u: bv64, v: bv64 ensures LawsAt(Words(), u, v) { WordLawsAt(u, v); }
  }

  lemma ZeroWord()
    ensures !TopBit(0) && ShiftLeft(0) == 0
  {
  }

  lemma WordLawsAt(u: bv64, v: bv64)
    ensures LawsAt(Words(), u, v)
  {
    XorTop(u, v);
    XorShift(u, v);
    XorZero(u, v);
    LostBit(u);
  }

  lemma XorTopBit(u: bv64, v: bv64)
    ensures TopBit(u ^ v) <==> (TopBit(u) != TopBit(v))
  {
  }

  lemma XorTop(u: bv64, v: bv64)
    ensures Words().top(Words().xor(u, v)) <==> (Words().top(u) != Words().top(v))
  {
    XorTopBit(u, v);
    assert Words().xor(u, v) == u ^ v;
  }

  lemma XorShift(u: bv64, v: bv64)
    ensures Words().shl(Words().xor(u, v)) == Words().xor(Words().shl(u), Words().shl(v))
  {
  }

  lemma XorZero(u: bv64, v: bv64)
    ensures Words().xor(u, v) == Words().zero ==> u == v
  {
  }

  lemma LostBit(w: bv64)
    ensures Words().shl(w) == Words().zero && !Words().top(w) ==> w == Words().zero
  {
  }

  lemma Shl1(w: bv64)
    ensures Shl(Words(), w, 1) == w << 1
  {
    assert Shl(Words(), w << 1, 0) == w << 1;
  }

  lemma Shl2(w: bv64)
    ensures Shl(Words(), w, 2) == w << 2
  {
    ShlAdd(Words(), w, 1, 1);
    Shl1(w); Shl1(w << 1);
    assert w << 1 << 1 == w << 2;
  }

  lemma Shl4(w: bv64)
    ensures Shl(Words(), w, 4) == w << 4
  {
    ShlAdd(Words(), w, 2, 2);
    Shl2(w); Shl2(w << 2);
    assert w << 2 << 2 == w << 4;
  }

  lemma Shl8(w: bv64)
    ensures Shl(Words(), w, 8) == w << 8
  {
    ShlAdd(Words(), w, 4, 4);
    Shl4(w); Shl4(w << 4);
    assert w << 4 << 4 == w << 8;
  }

  lemma Shl16(w: bv64)
    ensures Shl(Words(), w, 16) == w << 16
  {
    ShlAdd(Words(), w, 8, 8);
    Shl8(w); Shl8(w << 8);
    assert w << 8 << 8 == w << 16;
  }

  lemma Shl32(w: bv64)
    ensures Shl(Words(), w, 32) == w << 32
  {
    ShlAdd(Words(), w, 16, 16);
    Shl16(w); Shl16(w << 16);
    assert w << 16 << 16 == w << 32;
  }

  lemma Shl48(w: bv64)
    ensures Shl(Words(), w, 48) == w << 48
  {
    ShlAdd(Words(), w, 32, 16);
    Shl32(w); Shl16(w << 32);
    assert w << 32 << 16 == w << 48;
  }

  lemma Shl56(w: bv64)
    ensures Shl(Words(), w, 56) == w << 56
  {
    ShlAdd(Words(), w, 48, 8);
    Shl48(w); Shl8(w << 48);
    assert w << 48 << 8 == w << 56;
  }

  lemma Shl63(w: bv64)
    ensures Shl(Words(), w, 63) == w << 63
  {
    ShlAdd(Words(), w, 56, 4);
    Shl56(w); Shl4(w << 56);
    ShlAdd(Words(), w, 60, 2);
    Shl2(w << 56 << 4);
    ShlAdd(Words(), w, 62, 1);
    Shl1(w << 56 << 4 << 2);
    assert w << 56 << 4 << 2 << 1 == w << 63;
  }

  /** 64 shifts empty a word. */
  lemma Shl64(w: bv64)
    ensures Shl(Words(), w, 64) == 0
  {
    ShlAdd(Words(), w, 63, 1);
    Shl63(w);
    Shl1(w << 63);
    assert w << 63 << 1 == 0;
  }

  lemma ExponentsInjective(u: bv64, v: bv64)
    requires Exponents(u) == Exponents(v)
    ensures u == v
  {
    WordLaws();
    Shl64(u ^ v);
    TopInjective(Words(), u, v, 64);
  }

  lemma ExponentsBelow(w: bv64)
    ensures forall i :: i in Exponents(w) ==> i < 64
  {
    TopBelow(Words(), w, 64);
  }

  lemma ExponentsXor(u: bv64, v: bv64)
    ensures Exponents(u ^ v) == Plus(Exponents(u), Exponents(v))
  {
    WordLaws();
    TopXor(Words(), u, v, 64);
  }

  lemma XorIs(u: bv64, v: bv64)
    ensures Exponents(Xor(u, v)) == Plus(Exponents(u), Exponents(v))
  {
    ExponentsXor(u, v);
  }

  lemma XorAssociates(u: bv64, v: bv64, w: bv64)
    ensures Xor(Xor(u, v), w) == Xor(u, Xor(v, w))
  {
    XorIs(u, v);
    XorIs(v, w);
    XorIs(Xor(u, v), w);
    XorIs(u, Xor(v, w));
    PlusAssociates(Exponents(u), Exponents(v), Exponents(w));
    ExponentsInjective(Xor(Xor(u, v), w), Xor(u, Xor(v, w)));
  }

  lemma PlusAssociates(A: set<nat>, B: set<nat>, C: set<nat>)
    ensures Plus(Plus(A, B), C) == Plus(A, Plus(B, C))
  {
  }

  lemma ExponentsShl(w: bv64)
    ensures Shift(Exponents(w), 1) == Exponents(w << 1) + Maybe(TopBit(w), 64)
    ensures 0 !in Exponents(w << 1)
  {
    Shl63(w << 1);
    assert !TopBit(w << 1 << 63);
    TopShl1(Words(), w, 63);
  }

  lemma ExponentsZero()
    ensures Exponents(0) == {}
  {
    WordLaws();
    TopZero(Words(), 64);
  }

  // ------------------------------------------------------------ the constants 1 and 0x87

  lemma Prefix(w: bv64, j: nat, n: nat)
    requires Top(Words(), w, j) == {} && Top(Words(), Shl(Words(), w, j), n) == {}
    ensures Top(Words(), w, j + n) == {}
  {
    TopSplit(Words(), w, j, n);
    ShiftEmpty(n);
  }

  lemma Zero1(w: bv64)
    requires w >> 63 == 0
    ensures Top(Words(), w, 1) == {}
  {
    assert !TopBit(w);
    TopCons(Words(), w, 1);
  }

  lemma Zero2(w: bv64)
    requires w >> 62 == 0
    ensures Top(Words(), w, 2) == {}
  {
    Zero1(w); Shl1(w); Zero1(w << 1);
    Prefix(w, 1, 1);
  }

  lemma Zero4(w: bv64)
    requires w >> 60 == 0
    ensures Top(Words(), w, 4) == {}
  {
    Zero2(w); Shl2(w); Zero2(w << 2);
    Prefix(w, 2, 2);
  }

  lemma Zero8(w: bv64)
    requires w >> 56 == 0
    ensures Top(Words(), w, 8) == {}
  {
    Zero4(w); Shl4(w); Zero4(w << 4);
    Prefix(w, 4, 4);
  }

  lemma Zero16(w: bv64)
    requires w >> 48 == 0
    ensures Top(Words(), w, 16) == {}
  {
    Zero8(w); Shl8(w); Zero8(w << 8);
    Prefix(w, 8, 8);
  }

  lemma Zero32(w: bv64)
    requires w >> 32 == 0
    ensures Top(Words(), w, 32) == {}
  {
    Zero16(w); Shl16(w); Zero16(w << 16);
    Prefix(w, 16, 16);
  }

  /** The 63 leading bits of 1 are zero. */
  lemma LeadingZeros()
    ensures Top(Words(), 1, 63) == {}
  {
    Zero32(1); Shl32(1); Zero16(0x1_0000_0000);
    Prefix(1, 32, 16);
    Shl48(1); Zero8(0x1_0000_0000_0000);
    Prefix(1, 48, 8);
    Shl56(1); Zero4(0x100_0000_0000_0000);
    Prefix(1, 56, 4);
    ShlAdd(Words(), 1, 56, 4); Shl4(0x100_0000_0000_0000); Zero2(0x1000_0000_0000_0000);
    Prefix(1, 60, 2);
    ShlAdd(Words(), 1, 60, 2); Shl2(0x1000_0000_0000_0000); Zero1(0x4000_0000_0000_0000);
    Prefix(1, 62, 1);
  }

  lemma ExponentsOfOne()
    ensures Exponents(1) == {0}
  {
    LeadingZeros();
    TopSnoc(Words(), 1, 63);
    Shl63(1);
    assert TopBit(0x8000_0000_0000_0000);
    ShiftEmpty(1);
  }

  lemma NextPower(w: bv64, k: nat)
    requires Exponents(w) == {k} && k < 63
    ensures Exponents(w << 1) == {k + 1}
  {
    ExponentsShl(w);
    ExponentsBelow(w << 1);
    NextExponent(Exponents(w << 1), TopBit(w), k);
  }

  lemma NextExponent(S: set<nat>, p: bool, k: nat)
    requires Shift({k}, 1) == S + Maybe(p, 64) && k < 63 && 64 !in S
    ensures S == {k + 1}
  {
    forall i: nat ensures i in Shift({k}, 1) <==> i == k + 1 { ShiftHas({k}, 1, i); }
    assert 64 !in Shift({k}, 1);
  }

  lemma SmallPowers()
    ensures Exponents(2) == {1} && Exponents(4) == {2} && Exponents(0x80) == {7}
  {
    ExponentsOfOne();
    NextPower(1, 0); NextPower(2, 1); NextPower(4, 2); NextPower(8, 3);
    NextPower(0x10, 4); NextPower(0x20, 5); NextPower(0x40, 6);
  }

  lemma ExponentsOf7()
    ensures Exponents(7) == {2, 1, 0}
  {
    ExponentsOfOne();
    SmallPowers();
    ExponentsXor(1, 2);
    ExponentsXor(3, 4);
  }

  /** The reduction constant stands for x^7 + x^2 + x + 1. */
  lemma ExponentsOf87()
    ensures Exponents(0x87) == {7, 2, 1, 0}
  {
    ExponentsOf7();
    SmallPowers();
    ExponentsXor(7, 0x80);
  }

  // ------------------------------------------------------------ the field

  type Gf = Pair<bv64>

  function Carry(w: bv64): bv64 { w >> 63 }

  ghost function Kit64(): Kit<bv64> { Kit(TopBit, ShiftLeft, Xor, Carry, 0x87, 0, Exponents) }

  /** The polynomial that an element stands for: bit i of lo is the coefficient of x^i, bit i of
      hi that of x^(64+i). */
  ghost function Polynomial(a: Gf): set<nat> { Coeffs(Kit64(), a) }

  lemma CarryBit(w: bv64)
    ensures w >> 63 == if TopBit(w) then 1 else 0
  {
  }

  lemma CarryExponent(w: bv64)
    ensures Exponents(w >> 63) == Maybe(TopBit(w), 0)
  {
    CarryBit(w);
    ExponentsOfOne();
    ExponentsZero();
  }

  lemma KitLawsAt(u: bv64, v: bv64)
    ensures KitAt(Kit64(), u, v)
  {
    ExponentsXor(u, v);
    ExponentsBelow(u);
    ExponentsShl(u);
    CarryExponent(u);
    if Exponents(u) == Exponents(v) { ExponentsInjective(u, v); }
  }

  lemma KitLaws()
    ensures IsKit(Kit64()) && Reads(Kit64())
  {
    ExponentsOf87();
    ExponentsZero();
    forall u: bv64, v: bv64 ensures KitAt(Kit64(), u, v) { KitLawsAt(u, v); }
  }

  /** gf128_add. */
  function AddGf(a: Gf, b: Gf): Gf {
    Pair(Xor(a.hi, b.hi), Xor(a.lo, b.lo))
  }

  /** gf128_mul2. */
  function Mul2(a: Gf): Gf {
    if a.hi & 0x8000_0000_0000_0000 != 0 then Pair((a.hi << 1) | (a.lo >> 63), (a.lo << 1) ^ 0x87)
    else Pair((a.hi << 1) | (a.lo >> 63), a.lo << 1)
  }

  /** The high word of a shifted element: no bit is set in both parts. */
  lemma CarryOr(hi: bv64, lo: bv64)
    ensures (hi << 1) | (lo >> 63) == Xor(ShiftLeft(hi), Carry(lo))
  {
  }

  lemma XorIdentity(w: bv64)
    ensures Xor(w, 0) == w
  {
  }

  lemma KitShift(a: Gf)
    ensures ShiftPair(Kit64(), a) == Pair(Xor(ShiftLeft(a.hi), Carry(a.lo)), ShiftLeft(a.lo))
  {
  }

  lemma KitFold(s: Gf)
    ensures Add(Kit64(), s, Pair(0, 0x87)) == Pair(s.hi, Xor(s.lo, 0x87))
  {
    XorIdentity(s.hi);
  }

  lemma Mul2Words(a: Gf)
    ensures Mul2(a) == Pair((a.hi << 1) | (a.lo >> 63), if TopBit(a.hi) then Xor(ShiftLeft(a.lo), 0x87) else ShiftLeft(a.lo))
  {
  }

  lemma Mul2Kit(a: Gf)
    ensures Mul2(a) == TimesX(Kit64(), a)
  {
    Mul2Words(a);
    CarryOr(a.hi, a.lo);
    KitShift(a);
    KitFold(ShiftPair(Kit64(), a));
  }

  lemma AddWords(a: Gf, b: Gf)
    ensures AddGf(a, b) == Add(Kit64(), a, b)
  {
  }

  /** gf128_add is addition of polynomials and gf128_mul2 multiplication by x. */
  lemma AddAndShift(a: Gf, b: Gf)
    ensures Polynomial(AddGf(a, b)) == Plus(Polynomial(a), Polynomial(b))
    ensures Congruent(Polynomial(Mul2(a)), Shift(Polynomial(a), 1))
  {
    KitLaws();
    AddWords(a, b);
    AddIsPlus(Kit64(), a, b);
    Mul2Kit(a);
    TimesXIsShift(Kit64(), a);
  }

  /** gf128_mul2 is multiplication by x modulo x^128 + x^7 + x^2 + x + 1, and nothing else is. */
  lemma Mul2IsTimesX(a: Gf, r: Gf)
    ensures r == Mul2(a) <==> Congruent(Polynomial(r), Shift(Polynomial(a), 1))
  {
    AddAndShift(a, a);
    if Congruent(Polynomial(r), Shift(Polynomial(a), 1)) {
      KitLaws();
      CongruentSym(Polynomial(Mul2(a)), Shift(Polynomial(a), 1));
      CongruentTrans(Polynomial(r), Shift(Polynomial(a), 1), Polynomial(Mul2(a)));
      SameElement(Kit64(), r, Mul2(a));
    }
  }

  /** The rounds of gf128_mul over the n leading bits of w. */
  function RoundsGf(r: Gf, a: Gf, w: bv64, n: nat): Gf
    decreases n
  {
    if n == 0 then r
    else RoundsGf(if TopBit(w) then AddGf(Mul2(r), a) else Mul2(r), a, ShiftLeft(w), n - 1)
  }

  function MulGf(a: Gf, b: Gf): Gf {
    RoundsGf(RoundsGf(Pair(0, 0), a, b.hi, 64), a, b.lo, 64)
  }

  /** gf128_mul: two loops over the words of b. */
  method Multiply(a: Gf, b: Gf) returns (r: Gf)
    ensures r == MulGf(a, b)
  {
    r := Pair(0, 0);
    r := MulWord(r, a, b.hi);
    r := MulWord(r, a, b.lo);
  }

  /** One of the two loops of gf128_mul. */
  method MulWord(r0: Gf, a: Gf, w0: bv64) returns (r: Gf)
    ensures r == RoundsGf(r0, a, w0, 64)
  {
    var w, i := w0, 0;
    r := r0;
    while i < 64
      invariant 0 <= i <= 64
      invariant RoundsGf(r, a, w, 64 - i) == RoundsGf(r0, a, w0, 64)
    {
      RoundsUnfold(r, a, w, 64 - i);
      r := Double(r);
      if TopBit(w) {
        r := AddGf(r, a);
      }
      w := ShiftLeft(w);
      i := i + 1;
    }
  }

  lemma RoundsUnfold(r: Gf, a: Gf, w: bv64, n: nat)
    requires n > 0
    ensures RoundsGf(r, a, w, n) == RoundsGf(if TopBit(w) then AddGf(Mul2(r), a) else Mul2(r), a, ShiftLeft(w), n - 1)
  {
  }

  /** The first half of the body: the two assignments to lo are separate statements there. */
  method Double(r0: Gf) returns (r: Gf)
    ensures r == Mul2(r0)
  {
    r := r0;
    if r.hi & 0x8000_0000_0000_0000 != 0 {
      r := Pair((r.hi << 1) | (r.lo >> 63), r.lo << 1);
      r := Pair(r.hi, r.lo ^ 0x87);
    } else {
      r := Pair((r.hi << 1) | (r.lo >> 63), r.lo << 1);
    }
  }

  lemma {:induction false} RoundsAgree(r: Gf, a: Gf, w: bv64, n: nat)
    ensures RoundsGf(r, a, w, n) == Rounds(Kit64(), r, a, w, n)
    decreases n
  {
    if n > 0 {
      RoundsUnfold(r, a, w, n);
      var next := if TopBit(w) then AddGf(Mul2(r), a) else Mul2(r);
      RoundStep(r, Mul2(r), next, a, w);
      RoundsAgree(next, a, ShiftLeft(w), n - 1);
      RoundsStep(r, a, w, n);
    }
  }

  lemma RoundStep(before: Gf, doubled: Gf, r: Gf, a: Gf, w: bv64)
    requires doubled == Mul2(before)
    requires r == if TopBit(w) then AddGf(doubled, a) else doubled
    ensures r == Round(Kit64(), before, a, TopBit(w))
  {
    Mul2Kit(before);
    AddWords(doubled, a);
  }

  lemma RoundsStep(r: Gf, a: Gf, w: bv64, n: nat)
    requires n > 0
    ensures Rounds(Kit64(), r, a, w, n) == Rounds(Kit64(), Round(Kit64(), r, a, TopBit(w)), a, ShiftLeft(w), n - 1)
  {
  }

  lemma MulAgrees(a: Gf, b: Gf)
    ensures MulGf(a, b) == Mul(Kit64(), a, b)
  {
    var r := RoundsGf(Pair(0, 0), a, b.hi, 64);
    RoundsAgree(Pair(0, 0), a, b.hi, 64);
    RoundsAgree(r, a, b.lo, 64);
  }

  /** gf128_mul is the polynomial product modulo x^128 + x^7 + x^2 + x + 1, and nothing else is. */
  lemma MulIsProduct(a: Gf, b: Gf, r: Gf)
    ensures r == MulGf(a, b) <==> Congruent(Polynomial(r), Times(Polynomial(a), Polynomial(b)))
  {
    KitLaws();
    MulAgrees(a, b);
    MulIsTimes(Kit64(), a, b);
    if Congruent(Polynomial(r), Times(Polynomial(a), Polynomial(b))) {
      ProductUnique(Kit64(), a, b, r);
    }
  }

  /** So multiplication is commutative, associative and distributes over gf128_add. */
  lemma Commutative(a: Gf, b: Gf)
    ensures MulGf(a, b) == MulGf(b, a)
  {
    KitLaws();
    MulAgrees(a, b);
    MulAgrees(b, a);
    MulCommutes(Kit64(), a, b);
  }

  lemma Associative(a: Gf, b: Gf, c: Gf)
    ensures MulGf(MulGf(a, b), c) == MulGf(a, MulGf(b, c))
  {
    KitLaws();
    MulAgrees(a, b);
    MulAgrees(b, c);
    MulAgrees(MulGf(a, b), c);
    MulAgrees(a, MulGf(b, c));
    MulAssociates(Kit64(), a, b, c);
  }

  lemma Distributive(a: Gf, b: Gf, c: Gf)
    ensures MulGf(AddGf(a, b), c) == AddGf(MulGf(a, c), MulGf(b, c))
  {
    KitLaws();
    AddWords(a, b);
    AddWords(MulGf(a, c), MulGf(b, c));
    MulAgrees(a, c);
    MulAgrees(b, c);
    MulAgrees(AddGf(a, b), c);
    MulDistributes(Kit64(), a, b, c);
  }
}
