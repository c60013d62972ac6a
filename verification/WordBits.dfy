/** The coefficients that the bits of a machine word stand for, read from the most significant
    bit on. The word type and its operations are parameters, so that nothing here depends on
    bit-vector arithmetic. */
module WordBits {
  import opened Gf2Poly

  /** The test of the top bit, the shift left by one, and exclusive or. */
  datatype Word<!W> = Word(top: W -> bool, shl: W -> W, xor: (W, W) -> W, zero: W)

  ghost function Maybe(b: bool, n: nat): set<nat> { if b then {n} else {} }

  /** n left shifts by one. */
  ghost function Shl<W>(m: Word<W>, w: W, n: nat): W
    decreases n
  {
    if n == 0 then w else Shl(m, m.shl(w), n - 1)
  }

  /** Bit i of the n most significant bits of w, counted from the least significant of them. */
  ghost predicate InTop<W>(m: Word<W>, w: W, n: nat, i: nat) {
    i < n && m.top(Shl(m, w, n - 1 - i))
  }

  /** The exponents of the n most significant bits of w, the last of them counting as x^0. */
  ghost function Top<W>(m: Word<W>, w: W, n: nat): set<nat> {
    set i | 0 <= i < n && InTop(m, w, n, i)
  }

  ghost predicate LawsAt<W(!new)>(m: Word<W>, u: W, v: W) {
    && (m.top(m.xor(u, v)) <==> (m.top(u) != m.top(v)))
    && m.shl(m.xor(u, v)) == m.xor(m.shl(u), m.shl(v))
    && (m.shl(u) == m.zero && !m.top(u) ==> u == m.zero)
    && (m.xor(u, v) == m.zero ==> u == v)
  }

  ghost predicate Laws<W(!new)>(m: Word<W>) {
    !m.top(m.zero) && m.shl(m.zero) == m.zero && forall u, v :: LawsAt(m, u, v)
  }

  lemma TopBelow<W>(m: Word<W>, w: W, n: nat)
    ensures forall i :: i in Top(m, w, n) ==> i < n
  {
  }

  lemma {:induction false} ShlXor<W(!new)>(m: Word<W>, u: W, v: W, n: nat)
    requires Laws(m)
    ensures Shl(m, m.xor(u, v), n) == m.xor(Shl(m, u, n), Shl(m, v, n))
    decreases n
  {
    if n > 0 {
      assert LawsAt(m, u, v);
      ShlXor(m, m.shl(u), m.shl(v), n - 1);
    }
  }

  /** Exclusive or adds the polynomials. */
  lemma TopXor<W(!new)>(m: Word<W>, u: W, v: W, n: nat)
    requires Laws(m)
    ensures Top(m, m.xor(u, v), n) == Plus(Top(m, u, n), Top(m, v, n))
  {
    forall i: nat ensures InTop(m, m.xor(u, v), n, i) <==> (InTop(m, u, n, i) != InTop(m, v, n, i)) {
      if i < n {
        ShlXor(m, u, v, n - 1 - i);
        assert LawsAt(m, Shl(m, u, n - 1 - i), Shl(m, v, n - 1 - i));
      }
    }
  }

  lemma {:induction false} ShlAdd<W>(m: Word<W>, w: W, j: nat, n: nat)
    ensures Shl(m, w, j + n) == Shl(m, Shl(m, w, j), n)
    decreases j
  {
    if j > 0 { ShlAdd(m, m.shl(w), j - 1, n); }
  }

  /** Reading n more bits shifts the first j ones up. */
  lemma TopSplit<W>(m: Word<W>, w: W, j: nat, n: nat)
    ensures Top(m, w, j + n) == Shift(Top(m, w, j), n) + Top(m, Shl(m, w, j), n)
  {
    forall i: nat ensures i in Top(m, w, j + n) <==> i in Shift(Top(m, w, j), n) + Top(m, Shl(m, w, j), n) {
      TopSplitAt(m, w, j, n, i);
      ShiftHas(Top(m, w, j), n, i);
    }
  }

  lemma TopSplitAt<W>(m: Word<W>, w: W, j: nat, n: nat, i: nat)
    ensures InTop(m, w, j + n, i) <==> if i >= n then InTop(m, w, j, i - n) else InTop(m, Shl(m, w, j), n, i)
  {
    if i < n {
      ShlAdd(m, w, j, n - 1 - i);
      assert j + (n - 1 - i) == j + n - 1 - i;
    } else {
      assert j - 1 - (i - n) == j + n - 1 - i;
    }
  }

  /** The first bit read counts most. */
  lemma TopCons<W>(m: Word<W>, w: W, n: nat)
    requires n > 0
    ensures Top(m, w, n) == Maybe(m.top(w), n - 1) + Top(m, m.shl(w), n - 1)
  {
    forall i: nat ensures i in Top(m, w, n) <==> i in Maybe(m.top(w), n - 1) + Top(m, m.shl(w), n - 1) {
      assert InTop(m, w, n, i) <==> (i == n - 1 && m.top(w)) || InTop(m, m.shl(w), n - 1, i);
    }
  }

  lemma ShiftMore(B: set<nat>, p: bool, j: nat, n: nat)
    ensures Shift(Maybe(p, j) + B, n) == Maybe(p, j + n) + Shift(B, n)
  {
    forall k: nat ensures k in Shift(Maybe(p, j) + B, n) <==> k in Maybe(p, j + n) + Shift(B, n) {
      ShiftHas(Maybe(p, j) + B, n, k); ShiftHas(B, n, k);
    }
  }

  lemma ShiftEmpty(n: nat)
    ensures Shift({}, n) == {}
  {
    forall k: nat ensures k !in Shift({}, n) { ShiftHas({}, n, k); }
  }

  lemma TopSnoc<W>(m: Word<W>, w: W, n: nat)
    ensures Top(m, w, n + 1) == Shift(Top(m, w, n), 1) + Maybe(m.top(Shl(m, w, n)), 0)
  {
    TopSplit(m, w, n, 1);
    TopCons(m, Shl(m, w, n), 1);
  }

  lemma {:induction false} ShlZero<W(!new)>(m: Word<W>, n: nat)
    requires Laws(m)
    ensures Shl(m, m.zero, n) == m.zero
  {
    if n > 0 { ShlZero(m, n - 1); }
  }

  lemma TopZero<W(!new)>(m: Word<W>, n: nat)
    requires Laws(m)
    ensures Top(m, m.zero, n) == {}
  {
    forall i: nat ensures !InTop(m, m.zero, n, i) {
      if i < n { ShlZero(m, n - 1 - i); }
    }
  }

  /** Zero is the only word without coefficients. */
  lemma {:induction false} TopEmpty<W(!new)>(m: Word<W>, w: W, n: nat)
    requires Laws(m) && Top(m, w, n) == {} && Shl(m, w, n) == m.zero
    ensures w == m.zero
    decreases n
  {
    if n > 0 {
      TopCons(m, w, n);
      assert (n - 1) !in Top(m, w, n);
      TopEmpty(m, m.shl(w), n - 1);
      assert LawsAt(m, w, w);
    }
  }

  /** Words of n bits with the same coefficients are equal. */
  lemma TopInjective<W(!new)>(m: Word<W>, u: W, v: W, n: nat)
    requires Laws(m) && Top(m, u, n) == Top(m, v, n) && Shl(m, m.xor(u, v), n) == m.zero
    ensures u == v
  {
    TopXor(m, u, v, n);
    assert LawsAt(m, u, v);
    TopEmpty(m, m.xor(u, v), n);
  }

  lemma EvenShift(B: set<nat>, p: bool, n: nat)
    ensures Shift(Maybe(p, n) + B, 1) == Shift(B, 1) + Maybe(false, 0) + Maybe(p, n + 1)
    ensures 0 !in Shift(B, 1) + Maybe(false, 0)
  {
    ShiftMore(B, p, n, 1);
    ShiftHas(B, 1, 0);
  }

  /** Shifting a word of n + 1 bits left multiplies by x and drops x^(n+1). */
  lemma TopShl1<W>(m: Word<W>, w: W, n: nat)
    requires !m.top(Shl(m, m.shl(w), n))
    ensures Shift(Top(m, w, n + 1), 1) == Top(m, m.shl(w), n + 1) + Maybe(m.top(w), n + 1)
    ensures 0 !in Top(m, m.shl(w), n + 1)
  {
    TopSnoc(m, m.shl(w), n);
    TopCons(m, w, n + 1);
    EvenShift(Top(m, m.shl(w), n), m.top(w), n);
  }

}
