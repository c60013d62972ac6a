/** GF(2^128) over words of any type that behave like 64-bit ones. */
module Gf128Algebra {
  import opened Gf2Poly
  import opened WordBits

  ghost function Join(H: set<nat>, L: set<nat>): set<nat> {
    Shift(H, 64) + L
  }

  lemma JoinHas(H: set<nat>, L: set<nat>, i: nat)
    requires forall j :: j in L ==> j < 64
    ensures i in Join(H, L) <==> if i < 64 then i in L else (i - 64) in H
  {
    ShiftHas(H, 64, i);
  }

  lemma JoinInjective(H: set<nat>, L: set<nat>, H': set<nat>, L': set<nat>)
    requires Join(H, L) == Join(H', L')
    requires (forall j :: j in L ==> j < 64) && (forall j :: j in L' ==> j < 64)
    ensures H == H' && L == L'
  {
    forall i: nat ensures i in L <==> i in L' {
      JoinHas(H, L, i); JoinHas(H', L', i);
      if i >= 64 { assert i !in L && i !in L'; }
    }
    forall i: nat ensures i in H <==> i in H' {
      JoinHas(H, L, i + 64); JoinHas(H', L', i + 64);
    }
  }

  lemma JoinPlus(H: set<nat>, L: set<nat>, H': set<nat>, L': set<nat>)
    requires forall i :: i in L + L' ==> i < 64
    ensures Join(Plus(H, H'), Plus(L, L')) == Plus(Join(H, L), Join(H', L'))
  {
    forall i: nat ensures i in Join(Plus(H, H'), Plus(L, L')) <==> i in Plus(Join(H, L), Join(H', L')) {
      JoinPlusAt(H, L, H', L', i);
    }
  }

  lemma JoinPlusAt(H: set<nat>, L: set<nat>, H': set<nat>, L': set<nat>, i: nat)
    requires forall i :: i in L + L' ==> i < 64
    ensures i in Join(Plus(H, H'), Plus(L, L')) <==> i in Plus(Join(H, L), Join(H', L'))
  {
    ShiftHas(Plus(H, H'), 64, i); ShiftHas(H, 64, i); ShiftHas(H', 64, i);
    assert i in L ==> i in L + L';
    assert i in L' ==> i in L + L';
  }

  /** Shifting both words, with the carry from the low one into the high one. */
  lemma JoinShift(H: set<nat>, L: set<nat>, H1: set<nat>, L1: set<nat>, p: bool, q: bool)
    requires Shift(H, 1) == H1 + Maybe(p, 64) && Shift(L, 1) == L1 + Maybe(q, 64) && 0 !in H1
    ensures Shift(Join(H, L), 1) == Join(Plus(H1, Maybe(q, 0)), L1) + Maybe(p, 128)
  {
    var R := Plus(H1, Maybe(q, 0));
    assert forall i: nat :: i in R <==> i in H1 || (q && i == 0);
    forall i: nat ensures i in Shift(Join(H, L), 1) <==> i in Join(R, L1) + Maybe(p, 128) {
      JoinShiftAt(H, L, H1, L1, R, p, q, i);
    }
  }

  lemma JoinShiftAt(H: set<nat>, L: set<nat>, H1: set<nat>, L1: set<nat>, R: set<nat>, p: bool, q: bool, i: nat)
    requires Shift(H, 1) == H1 + Maybe(p, 64) && Shift(L, 1) == L1 + Maybe(q, 64)
    requires forall i: nat :: i in R <==> i in H1 || (q && i == 0)
    ensures i in Shift(Join(H, L), 1) <==> i in Join(R, L1) + Maybe(p, 128)
  {
    ShiftHas(Join(H, L), 1, i);
    ShiftHas(R, 64, i);
    ShiftHas(L, 1, i);
    assert i in Shift(L, 1) <==> i in L1 || (q && i == 64);
    if i >= 1 { ShiftHas(H, 64, i - 1); }
    if i >= 64 {
      ShiftHas(H, 1, i - 64);
      assert i - 64 in Shift(H, 1) <==> i - 64 in H1 || (p && i == 128);
    }
  }

  // ------------------------------------------------------------ words and pairs of words

  /** A 64-bit word type with the coefficients of each word. carry moves the top bit to the
      bottom, fold is 0x87. */
  datatype Kit<!W> = Kit(top: W -> bool, shl: W -> W, xor: (W, W) -> W, carry: W -> W, fold: W, zero: W,
    exps: W -> set<nat>)

  ghost predicate KitAt<W(!new)>(m: Kit<W>, u: W, v: W) {
    && m.exps(m.xor(u, v)) == Plus(m.exps(u), m.exps(v))
    && (forall i :: i in m.exps(u) ==> i < 64)
    && Shift(m.exps(u), 1) == m.exps(m.shl(u)) + Maybe(m.top(u), 64) && 0 !in m.exps(m.shl(u))
    && m.exps(m.carry(u)) == Maybe(m.top(u), 0)
    && (m.exps(u) == m.exps(v) ==> u == v)
  }

  ghost predicate IsKit<W(!new)>(m: Kit<W>) {
    m.exps(m.fold) == {7, 2, 1, 0} && m.exps(m.zero) == {} && forall u, v :: KitAt(m, u, v)
  }

  datatype Pair<W> = Pair(hi: W, lo: W)

  ghost function Coeffs<W>(m: Kit<W>, a: Pair<W>): set<nat> { Join(m.exps(a.hi), m.exps(a.lo)) }

  lemma CoeffsBelow<W(!new)>(m: Kit<W>, a: Pair<W>)
    requires IsKit(m)
    ensures forall i :: i in Coeffs(m, a) ==> i < 128
  {
    assert KitAt(m, a.hi, a.hi) && KitAt(m, a.lo, a.lo);
    forall i | i in Coeffs(m, a) ensures i < 128 { JoinHas(m.exps(a.hi), m.exps(a.lo), i); }
  }

  /** Elements with the same coefficients are equal. */
  lemma CoeffsInjective<W(!new)>(m: Kit<W>, a: Pair<W>, b: Pair<W>)
    requires IsKit(m) && Coeffs(m, a) == Coeffs(m, b)
    ensures a == b
  {
    assert KitAt(m, a.lo, b.lo) && KitAt(m, b.lo, a.lo) && KitAt(m, a.hi, b.hi);
    JoinInjective(m.exps(a.hi), m.exps(a.lo), m.exps(b.hi), m.exps(b.lo));
  }

  ghost function Zero<W>(m: Kit<W>): Pair<W> { Pair(m.zero, m.zero) }

  ghost function Add<W>(m: Kit<W>, a: Pair<W>, b: Pair<W>): Pair<W> {
    Pair(m.xor(a.hi, b.hi), m.xor(a.lo, b.lo))
  }

  lemma AddIsPlus<W(!new)>(m: Kit<W>, a: Pair<W>, b: Pair<W>)
    requires IsKit(m)
    ensures Coeffs(m, Add(m, a, b)) == Plus(Coeffs(m, a), Coeffs(m, b))
  {
    assert KitAt(m, a.hi, b.hi) && KitAt(m, a.lo, b.lo) && KitAt(m, b.lo, a.lo);
    JoinPlus(m.exps(a.hi), m.exps(a.lo), m.exps(b.hi), m.exps(b.lo));
  }

  ghost function ShiftPair<W>(m: Kit<W>, a: Pair<W>): Pair<W> {
    Pair(m.xor(m.shl(a.hi), m.carry(a.lo)), m.shl(a.lo))
  }

  ghost function TimesX<W>(m: Kit<W>, a: Pair<W>): Pair<W> {
    if m.top(a.hi) then Add(m, ShiftPair(m, a), Pair(m.zero, m.fold)) else ShiftPair(m, a)
  }

  lemma ShiftedPair<W(!new)>(m: Kit<W>, a: Pair<W>)
    requires IsKit(m)
    ensures Shift(Coeffs(m, a), 1) == Coeffs(m, ShiftPair(m, a)) + Maybe(m.top(a.hi), 128)
  {
    assert KitAt(m, m.shl(a.hi), m.carry(a.lo)) && KitAt(m, a.hi, a.hi) && KitAt(m, a.lo, a.lo);
    JoinShift(m.exps(a.hi), m.exps(a.lo), m.exps(m.shl(a.hi)), m.exps(m.shl(a.lo)), m.top(a.hi), m.top(a.lo));
  }

  /** Multiplication by x, with x^128 folded back as x^7 + x^2 + x + 1. */
  lemma TimesXIsShift<W(!new)>(m: Kit<W>, a: Pair<W>)
    requires IsKit(m)
    ensures Congruent(Coeffs(m, TimesX(m, a)), Shift(Coeffs(m, a), 1))
  {
    var s := ShiftPair(m, a);
    ShiftedPair(m, a);
    CoeffsBelow(m, s);
    if m.top(a.hi) {
      AddIsPlus(m, s, Pair(m.zero, m.fold));
      ShiftEmpty(64);
      Reduce(Coeffs(m, s), Shift(Coeffs(m, a), 1), Coeffs(m, TimesX(m, a)));
    } else {
      assert Coeffs(m, s) + {} == Coeffs(m, s);
      CongruentSame(Coeffs(m, s));
    }
  }

  lemma Reduce(S: set<nat>, A: set<nat>, R: set<nat>)
    requires A == S + {128} && 128 !in S && R == Plus(S, {7, 2, 1, 0})
    ensures Congruent(R, A)
  {
    assert A - {128} == S;
    Fold(A);
    CongruentSym(A, R);
  }

  // ------------------------------------------------------------ multiplication

  /** One round of gf128_mul: r x, plus a when the next bit of b is set. */
  ghost function Round<W>(m: Kit<W>, r: Pair<W>, a: Pair<W>, bit: bool): Pair<W> {
    if bit then Add(m, TimesX(m, r), a) else TimesX(m, r)
  }

  /** n rounds over the leading bits of w. */
  ghost function Rounds<W>(m: Kit<W>, r: Pair<W>, a: Pair<W>, w: W, n: nat): Pair<W>
    decreases n
  {
    if n == 0 then r else Rounds(m, Round(m, r, a, m.top(w)), a, m.shl(w), n - 1)
  }

  ghost function Mul<W>(m: Kit<W>, a: Pair<W>, b: Pair<W>): Pair<W> {
    Rounds(m, Rounds(m, Zero(m), a, b.hi, 64), a, b.lo, 64)
  }

  /** The word operations that Top reads bits with. */
  ghost function Reader<W>(m: Kit<W>): Word<W> { Word(m.top, m.shl, m.xor, m.zero) }

  /** r is congruent to a times the polynomial P. */
  ghost predicate Multiplied<W>(m: Kit<W>, r: Pair<W>, P: set<nat>, a: Pair<W>) {
    Congruent(Coeffs(m, r), Times(P, Coeffs(m, a)))
  }

  lemma RoundIs<W(!new)>(m: Kit<W>, r: Pair<W>, a: Pair<W>, P: set<nat>, bit: bool)
    requires IsKit(m) && Multiplied(m, r, P, a)
    ensures Multiplied(m, Round(m, r, a, bit), Plus(Shift(P, 1), Maybe(bit, 0)), a)
  {
    var A, s := Coeffs(m, a), TimesX(m, r);
    TimesXIsShift(m, r);
    ShiftCongruent(Coeffs(m, r), Times(P, A), 1);
    CongruentTrans(Coeffs(m, s), Shift(Coeffs(m, r), 1), Shift(Times(P, A), 1));
    TimesShift(P, 1, A);
    if bit {
      TimesPlus(Shift(P, 1), {0}, A);
      TimesOne(A);
      CongruentSame(A);
      CongruentPlus(Coeffs(m, s), Times(Shift(P, 1), A), A, A);
      AddIsPlus(m, s, a);
    } else {
      assert Plus(Shift(P, 1), {}) == Shift(P, 1);
    }
  }

  lemma ShiftCongruent(A: set<nat>, B: set<nat>, n: nat)
    requires Congruent(A, B)
    ensures Congruent(Shift(A, n), Shift(B, n))
  {
    CongruentTimes({n}, A, B);
    TimesMonomial(n, A);
    TimesMonomial(n, B);
  }

  /** The multiplier P with the n leading bits of w appended, one by one. */
  ghost function Appended<W>(m: Kit<W>, P: set<nat>, w: W, n: nat): set<nat>
    decreases n
  {
    if n == 0 then P else Appended(m, Plus(Shift(P, 1), Maybe(m.top(w), 0)), m.shl(w), n - 1)
  }

  /** n rounds append the n leading bits of w to the multiplier P. */
  lemma {:induction false} RoundsAppend<W(!new)>(m: Kit<W>, r: Pair<W>, a: Pair<W>, w: W, n: nat, P: set<nat>)
    requires IsKit(m) && Multiplied(m, r, P, a)
    ensures Multiplied(m, Rounds(m, r, a, w, n), Appended(m, P, w, n), a)
    decreases n
  {
    if n > 0 {
      var bit := m.top(w);
      RoundIs(m, r, a, P, bit);
      RoundsAppend(m, Round(m, r, a, bit), a, m.shl(w), n - 1, Plus(Shift(P, 1), Maybe(bit, 0)));
    }
  }

  lemma {:induction false} AppendedBits<W>(m: Kit<W>, P: set<nat>, w: W, n: nat)
    ensures Appended(m, P, w, n) == Shift(P, n) + Top(Reader(m), w, n)
    decreases n
  {
    if n == 0 {
      NoBits(m, P, w);
    } else {
      AppendedBits(m, Plus(Shift(P, 1), Maybe(m.top(w), 0)), m.shl(w), n - 1);
      AppendWord(m, P, w, n, Top(Reader(m), m.shl(w), n - 1));
    }
  }

  lemma AppendWord<W>(m: Kit<W>, P: set<nat>, w: W, n: nat, T: set<nat>)
    requires n > 0 && T == Top(Reader(m), m.shl(w), n - 1)
    ensures Shift(Plus(Shift(P, 1), Maybe(m.top(w), 0)), n - 1) + T == Shift(P, n) + Top(Reader(m), w, n)
  {
    TopCons(Reader(m), w, n);
    AppendBits(P, m.top(w), T, n - 1);
  }

  lemma NoBits<W>(m: Kit<W>, P: set<nat>, w: W)
    ensures Shift(P, 0) + Top(Reader(m), w, 0) == P
  {
    assert Top(Reader(m), w, 0) == {};
    forall k: nat ensures k in Shift(P, 0) <==> k in P { ShiftHas(P, 0, k); }
  }

  lemma AppendBits(P: set<nat>, bit: bool, T: set<nat>, n: nat)
    ensures Shift(Plus(Shift(P, 1), Maybe(bit, 0)), n) + T == Shift(P, n + 1) + (Maybe(bit, n) + T)
  {
    AppendBit(P, bit, n);
  }

  lemma AppendBit(P: set<nat>, bit: bool, n: nat)
    ensures Shift(Plus(Shift(P, 1), Maybe(bit, 0)), n) == Shift(P, n + 1) + Maybe(bit, n)
  {
    forall k: nat ensures k in Shift(Plus(Shift(P, 1), Maybe(bit, 0)), n) <==> k in Shift(P, n + 1) + Maybe(bit, n) {
      ShiftHas(Plus(Shift(P, 1), Maybe(bit, 0)), n, k);
      ShiftHas(P, n + 1, k);
      if k >= n { ShiftHas(P, 1, k - n); }
    }
  }

  /** The coefficients of a word are its 64 bits. */
  ghost predicate Reads<W(!new)>(m: Kit<W>) {
    forall w :: m.exps(w) == Top(Reader(m), w, 64)
  }

  /** gf128_mul is the product of the polynomials modulo x^128 + x^7 + x^2 + x + 1. */
  lemma MulIsTimes<W(!new)>(m: Kit<W>, a: Pair<W>, b: Pair<W>)
    requires IsKit(m) && Reads(m)
    ensures Congruent(Coeffs(m, Mul(m, a, b)), Times(Coeffs(m, a), Coeffs(m, b)))
  {
    var A, z := Coeffs(m, a), Zero(m);
    ShiftEmpty(64);
    TimesEmpty(A);
    assert Coeffs(m, z) == {};
    CongruentSame({});
    var H := m.exps(b.hi);
    assert Shift({}, 64) + H == H;
    AppendedBits(m, {}, b.hi, 64);
    RoundsAppend(m, z, a, b.hi, 64, {});
    AppendedBits(m, H, b.lo, 64);
    RoundsAppend(m, Rounds(m, z, a, b.hi, 64), a, b.lo, 64, H);
    TimesCommutes(Coeffs(m, b), A);
  }

  /** Elements with congruent polynomials are equal. */
  lemma SameElement<W(!new)>(m: Kit<W>, r: Pair<W>, t: Pair<W>)
    requires IsKit(m) && Congruent(Coeffs(m, r), Coeffs(m, t))
    ensures r == t
  {
    CoeffsBelow(m, r);
    CoeffsBelow(m, t);
    ResidueUnique(Coeffs(m, r), Coeffs(m, t));
    CoeffsInjective(m, r, t);
  }

  /** The product is the only element congruent to the polynomial product. */
  lemma ProductUnique<W(!new)>(m: Kit<W>, a: Pair<W>, b: Pair<W>, r: Pair<W>)
    requires IsKit(m) && Reads(m) && Congruent(Coeffs(m, r), Times(Coeffs(m, a), Coeffs(m, b)))
    ensures r == Mul(m, a, b)
  {
    MulIsTimes(m, a, b);
    CongruentSym(Coeffs(m, Mul(m, a, b)), Times(Coeffs(m, a), Coeffs(m, b)));
    CongruentTrans(Coeffs(m, r), Times(Coeffs(m, a), Coeffs(m, b)), Coeffs(m, Mul(m, a, b)));
    SameElement(m, r, Mul(m, a, b));
  }

  lemma MulCommutes<W(!new)>(m: Kit<W>, a: Pair<W>, b: Pair<W>)
    requires IsKit(m) && Reads(m)
    ensures Mul(m, a, b) == Mul(m, b, a)
  {
    MulIsTimes(m, a, b);
    TimesCommutes(Coeffs(m, a), Coeffs(m, b));
    ProductUnique(m, b, a, Mul(m, a, b));
  }

  lemma MulAssociates<W(!new)>(m: Kit<W>, a: Pair<W>, b: Pair<W>, c: Pair<W>)
    requires IsKit(m) && Reads(m)
    ensures Mul(m, Mul(m, a, b), c) == Mul(m, a, Mul(m, b, c))
  {
    var A, B, C := Coeffs(m, a), Coeffs(m, b), Coeffs(m, c);
    var ab, bc := Mul(m, a, b), Mul(m, b, c);
    MulIsTimes(m, a, b); MulIsTimes(m, b, c); MulIsTimes(m, ab, c);
    CongruentTimes(C, Coeffs(m, ab), Times(A, B));
    CongruentTrans(Coeffs(m, Mul(m, ab, c)), Times(Coeffs(m, ab), C), Times(Times(A, B), C));
    TimesAssociates(A, B, C);
    CongruentTimes(A, Coeffs(m, bc), Times(B, C));
    CongruentSym(Times(A, Coeffs(m, bc)), Times(A, Times(B, C)));
    CongruentTrans(Coeffs(m, Mul(m, ab, c)), Times(A, Times(B, C)), Times(A, Coeffs(m, bc)));
    ProductUnique(m, a, bc, Mul(m, ab, c));
  }

  lemma MulDistributes<W(!new)>(m: Kit<W>, a: Pair<W>, b: Pair<W>, c: Pair<W>)
    requires IsKit(m) && Reads(m)
    ensures Mul(m, Add(m, a, b), c) == Add(m, Mul(m, a, c), Mul(m, b, c))
  {
    var A, B, C := Coeffs(m, a), Coeffs(m, b), Coeffs(m, c);
    var ac, bc := Mul(m, a, c), Mul(m, b, c);
    MulIsTimes(m, a, c); MulIsTimes(m, b, c);
    AddIsPlus(m, a, b);
    AddIsPlus(m, ac, bc);
    CongruentPlus(Coeffs(m, ac), Times(A, C), Coeffs(m, bc), Times(B, C));
    TimesPlus(A, B, C);
    ProductUnique(m, Add(m, a, b), c, Add(m, ac, bc));
  }
}
