/** Polynomials over GF(2), as the sets of exponents with coefficient one. */
module Gf2Poly {

  ghost function Plus(A: set<nat>, B: set<nat>): set<nat> {
    (A - B) + (B - A)
  }

  /** A number above every exponent. */
  ghost function Bound(A: set<nat>): (n: nat)
    ensures forall i :: i in A ==> i < n
  {
    if A == {} then 0
    else
      var i :| i in A;
      var n := Bound(A - {i});
      assert forall j :: j in A ==> j == i || j in A - {i};
      if i < n then n else i + 1
  }

  ghost predicate InShift(A: set<nat>, n: nat, k: nat) { n <= k && (k - n) in A }

  /** Multiplication by x^n. */
  ghost function Shift(A: set<nat>, n: nat): set<nat> {
    set k | 0 <= k < n + Bound(A) && InShift(A, n, k)
  }

  /** The ways to write k as an exponent of A plus one of B. */
  ghost function Pairs(A: set<nat>, B: set<nat>, k: nat): set<nat> {
    set i | i in A && i <= k && (k - i) in B
  }

  ghost predicate Odd(s: set<nat>) { |s| % 2 == 1 }

  /** The product: x^k has coefficient one when an odd number of pairs of terms yield it. */
  ghost function Times(A: set<nat>, B: set<nat>): set<nat> {
    set k | 0 <= k < Bound(A) + Bound(B) && Odd(Pairs(A, B, k))
  }

  lemma TimesHas(A: set<nat>, B: set<nat>, k: nat)
    ensures k in Times(A, B) <==> Odd(Pairs(A, B, k))
  {
    if Odd(Pairs(A, B, k)) {
      var i :| i in Pairs(A, B, k);
      assert i < Bound(A) && k - i < Bound(B);
    }
  }

  lemma ShiftHas(A: set<nat>, n: nat, k: nat)
    ensures k in Shift(A, n) <==> k >= n && (k - n) in A
  {
  }

  lemma SplitSize(S: set<nat>, T: set<nat>)
    ensures |S| == |S - T| + |S * T|
  {
    assert S == (S - T) + S * T;
  }

  lemma OddPlus(S: set<nat>, T: set<nat>)
    ensures Odd(Plus(S, T)) <==> (Odd(S) != Odd(T))
  {
    SplitSize(S, T);
    SplitSize(T, S);
    assert S * T == T * S;
    assert |Plus(S, T)| == |S - T| + |T - S|;
  }

  ghost predicate InMirror(S: set<nat>, k: nat, j: nat) { j <= k && (k - j) in S }

  /** Sets in bijection by k - i have the same size. */
  ghost function Mirror(S: set<nat>, k: nat): set<nat> {
    set j | 0 <= j <= k && InMirror(S, k, j)
  }

  lemma MirrorHas(S: set<nat>, k: nat, j: nat)
    ensures j in Mirror(S, k) <==> j <= k && (k - j) in S
  {
  }

  lemma {:induction false} MirrorSize(S: set<nat>, k: nat)
    requires forall i :: i in S ==> i <= k
    ensures |Mirror(S, k)| == |S|
  {
    if S != {} {
      var i :| i in S;
      var T := S - {i};
      MirrorSize(T, k);
      forall j: nat ensures j in Mirror(S, k) <==> j in Mirror(T, k) + {k - i} {
        MirrorHas(S, k, j); MirrorHas(T, k, j);
      }
      assert Mirror(S, k) == Mirror(T, k) + {k - i};
      MirrorHas(T, k, k - i);
    }
  }

  lemma {:induction false} ShiftSize(S: set<nat>, n: nat)
    ensures |Shift(S, n)| == |S|
  {
    if S != {} {
      var i :| i in S;
      var T := S - {i};
      ShiftSize(T, n);
      forall j: nat ensures j in Shift(S, n) <==> j in Shift(T, n) + {i + n} {
        ShiftHas(S, n, j); ShiftHas(T, n, j);
      }
      assert Shift(S, n) == Shift(T, n) + {i + n};
      ShiftHas(T, n, i + n);
    }
  }

  lemma TimesCommutes(A: set<nat>, B: set<nat>)
    ensures Times(A, B) == Times(B, A)
  {
    forall k: nat ensures k in Times(A, B) <==> k in Times(B, A) {
      TimesHas(A, B, k);
      TimesHas(B, A, k);
      MirrorSize(Pairs(A, B, k), k);
      MirrorIs(A, B, k);
    }
  }

  lemma MirrorIs(A: set<nat>, B: set<nat>, k: nat)
    ensures Mirror(Pairs(A, B, k), k) == Pairs(B, A, k)
  {
    forall j | j in Pairs(B, A, k) ensures j in Mirror(Pairs(A, B, k), k) {
      assert (k - j) in Pairs(A, B, k) && k - (k - j) == j;
    }
  }

  lemma TimesPlus(A: set<nat>, C: set<nat>, B: set<nat>)
    ensures Times(Plus(A, C), B) == Plus(Times(A, B), Times(C, B))
  {
    forall k: nat ensures k in Times(Plus(A, C), B) <==> k in Plus(Times(A, B), Times(C, B)) {
      TimesHas(A, B, k); TimesHas(C, B, k); TimesHas(Plus(A, C), B, k);
      assert Pairs(Plus(A, C), B, k) == Plus(Pairs(A, B, k), Pairs(C, B, k));
      OddPlus(Pairs(A, B, k), Pairs(C, B, k));
    }
  }

  lemma TimesShift(A: set<nat>, n: nat, B: set<nat>)
    ensures Times(Shift(A, n), B) == Shift(Times(A, B), n)
  {
    forall k: nat ensures k in Times(Shift(A, n), B) <==> k in Shift(Times(A, B), n) {
      TimesHas(Shift(A, n), B, k);
      ShiftHas(Times(A, B), n, k);
      if k >= n { TimesHas(A, B, k - n); }
      ShiftedPairs(A, n, B, k);
    }
  }

  lemma OddShift(S: set<nat>, n: nat)
    ensures Odd(Shift(S, n)) == Odd(S)
  {
    ShiftSize(S, n);
  }

  lemma NoPairs(A: set<nat>, n: nat, B: set<nat>, k: nat)
    requires k < n
    ensures !Odd(Pairs(Shift(A, n), B, k))
  {
    forall i | i in Shift(A, n) ensures i > k { ShiftHas(A, n, i); }
    assert Pairs(Shift(A, n), B, k) == {};
  }

  lemma ShiftedPairs(A: set<nat>, n: nat, B: set<nat>, k: nat)
    ensures Odd(Pairs(Shift(A, n), B, k)) <==> k >= n && Odd(Pairs(A, B, k - n))
  {
    if k >= n {
      PairsShift(A, n, B, k);
      OddShift(Pairs(A, B, k - n), n);
    } else {
      NoPairs(A, n, B, k);
    }
  }

  lemma PairsShift(A: set<nat>, n: nat, B: set<nat>, k: nat)
    requires k >= n
    ensures Pairs(Shift(A, n), B, k) == Shift(Pairs(A, B, k - n), n)
  {
    forall i: nat ensures i in Pairs(Shift(A, n), B, k) <==> i in Shift(Pairs(A, B, k - n), n) {
      ShiftHas(A, n, i);
      ShiftHas(Pairs(A, B, k - n), n, i);
      if i >= n { assert k - n - (i - n) == k - i; }
    }
  }

  lemma TimesEmpty(B: set<nat>)
    ensures Times({}, B) == {}
  {
  }

  lemma TimesOne(B: set<nat>)
    ensures Times({0}, B) == B
  {
    forall k: nat ensures k in Times({0}, B) <==> k in B {
      TimesHas({0}, B, k);
      OnePair(B, k);
    }
  }

  lemma OnePair(B: set<nat>, k: nat)
    ensures Odd(Pairs({0}, B, k)) <==> k in B
  {
    var S := Pairs({0}, B, k);
    assert k - 0 == k;
    assert forall i :: i in S ==> i == 0;
    if k in B {
      assert 0 in S;
      assert S == {0};
    } else {
      assert S == {};
    }
  }

  lemma ShiftOne(n: nat)
    ensures Shift({0}, n) == {n}
  {
    forall k: nat ensures k in Shift({0}, n) <==> k == n { ShiftHas({0}, n, k); }
  }

  lemma TimesMonomial(n: nat, B: set<nat>)
    ensures Times({n}, B) == Shift(B, n)
  {
    ShiftOne(n);
    TimesShift({0}, n, B);
    TimesOne(B);
  }

  lemma {:induction false} TimesAssociates(A: set<nat>, B: set<nat>, C: set<nat>)
    ensures Times(Times(A, B), C) == Times(A, Times(B, C))
  {
    if A == {} {
      TimesEmpty(B); TimesEmpty(C); TimesEmpty(Times(B, C));
    } else {
      var n :| n in A;
      var D := A - {n};
      assert A == Plus({n}, D);
      TimesAssociates(D, B, C);
      TimesPlus({n}, D, B);
      TimesPlus(Times({n}, B), Times(D, B), C);
      TimesPlus({n}, D, Times(B, C));
      TimesMonomial(n, B);
      TimesShift(B, n, C);
      TimesMonomial(n, Times(B, C));
    }
  }

  // ------------------------------------------------------------ congruence modulo F

  /** x^128 + x^7 + x^2 + x + 1. */
  ghost function Modulus(): set<nat> { {128, 7, 2, 1, 0} }

  /** A and B differ by the multiple Q of the modulus. */
  ghost predicate Differ(A: set<nat>, B: set<nat>, Q: set<nat>) {
    Plus(A, B) == Times(Q, Modulus())
  }

  ghost predicate Congruent(A: set<nat>, B: set<nat>) {
    exists Q :: Differ(A, B, Q)
  }

  lemma CongruentPlus(A: set<nat>, B: set<nat>, C: set<nat>, D: set<nat>)
    requires Congruent(A, B) && Congruent(C, D)
    ensures Congruent(Plus(A, C), Plus(B, D))
  {
    var P :| Differ(A, B, P);
    var Q :| Differ(C, D, Q);
    TimesPlus(P, Q, Modulus());
    assert Plus(Plus(A, C), Plus(B, D)) == Plus(Plus(A, B), Plus(C, D));
    assert Differ(Plus(A, C), Plus(B, D), Plus(P, Q));
  }

  lemma CongruentSame(A: set<nat>)
    ensures Congruent(A, A)
  {
    TimesEmpty(Modulus());
    assert Differ(A, A, {});
  }

  lemma CongruentSym(A: set<nat>, B: set<nat>)
    requires Congruent(A, B)
    ensures Congruent(B, A)
  {
    var Q :| Differ(A, B, Q);
    assert Plus(A, B) == Plus(B, A);
    assert Differ(B, A, Q);
  }

  lemma CongruentTrans(A: set<nat>, B: set<nat>, C: set<nat>)
    requires Congruent(A, B) && Congruent(B, C)
    ensures Congruent(A, C)
  {
    var P :| Differ(A, B, P);
    var Q :| Differ(B, C, Q);
    TimesPlus(P, Q, Modulus());
    assert Plus(Plus(A, B), Plus(B, C)) == Plus(A, C);
    assert Differ(A, C, Plus(P, Q));
  }

  lemma CongruentTimes(C: set<nat>, A: set<nat>, B: set<nat>)
    requires Congruent(A, B)
    ensures Congruent(Times(C, A), Times(C, B)) && Congruent(Times(A, C), Times(B, C))
  {
    var Q :| Differ(A, B, Q);
    TimesCommutes(C, A); TimesCommutes(C, B); TimesCommutes(C, Plus(A, B));
    TimesPlus(A, B, C);
    TimesAssociates(C, Q, Modulus());
    assert Differ(Times(C, A), Times(C, B), Times(C, Q));
  }

  lemma CongruentBy(A: set<nat>, B: set<nat>, Q: set<nat>)
    requires Plus(A, B) == Times(Q, Modulus())
    ensures Congruent(A, B)
  {
    assert Differ(A, B, Q);
  }

  /** A multiple of the modulus other than zero has degree at least 128. */
  lemma TopTerm(Q: set<nat>, m: nat)
    requires m in Q && forall i :: i in Q ==> i <= m
    ensures (m + 128) in Times(Q, Modulus())
  {
    TimesHas(Q, Modulus(), m + 128);
    var S := Pairs(Q, Modulus(), m + 128);
    assert m + 128 - m == 128;
    assert m in S;
    forall i | i in S ensures i == m {
      SmallTerm(m + 128 - i);
    }
    Singleton(S, m);
  }

  lemma SmallTerm(k: nat)
    requires k in Modulus()
    ensures k <= 128
  {
  }

  lemma Singleton(S: set<nat>, m: nat)
    requires m in S && forall i :: i in S ==> i == m
    ensures Odd(S)
  {
    assert S == {m};
  }

  /** Residues are unique: congruent polynomials of degree below 128 are equal. */
  lemma ResidueUnique(A: set<nat>, B: set<nat>)
    requires Congruent(A, B) && forall i :: i in A + B ==> i < 128
    ensures A == B
  {
    var Q :| Differ(A, B, Q);
    assert forall i :: i in Plus(A, B) ==> i in A + B;
    if Q != {} {
      var m := MaxOf(Q);
      TopTerm(Q, m);
    } else {
      TimesEmpty(Modulus());
      NoDifference(A, B);
    }
  }

  lemma NoDifference(A: set<nat>, B: set<nat>)
    requires Plus(A, B) == {}
    ensures A == B
  {
    forall i: nat ensures i in A <==> i in B { assert i !in Plus(A, B); }
  }

  lemma {:induction false} MaxOf(Q: set<nat>) returns (m: nat)
    requires Q != {}
    ensures m in Q && forall i :: i in Q ==> i <= m
  {
    m :| m in Q;
    var T := Q - {m};
    if T != {} {
      var k := MaxOf(T);
      assert forall i :: i in Q ==> i == m || i in T;
      if k > m { m := k; }
    } else {
      assert forall i :: i in Q ==> i == m || i in T;
    }
  }

  /** x^128 = x^7 + x^2 + x + 1. */
  lemma Fold(A: set<nat>)
    requires 128 in A
    ensures Congruent(A, Plus(A - {128}, {7, 2, 1, 0}))
  {
    var B := Plus(A - {128}, {7, 2, 1, 0});
    assert Plus(A, B) == Modulus();
    TimesOne(Modulus());
    CongruentBy(A, B, {0});
  }
}
