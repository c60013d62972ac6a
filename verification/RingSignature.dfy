/** The ring signature of sm2_ring.c: signing from any position of a ring of any size closes the
    ring that verification walks. */
module RingSignature {
  import opened Modular
  import opened Curve
  import opened PointMul
  import opened Scalars
  import Jacobian
  import Sm2Field
  import Sm2Order

  /** x coordinates as the program computes them: of k G, and of t P + s G. */
  datatype Ops = Ops(generator: int -> int, combine: (int, Point, int) -> int)

  ghost function X(A: Point): int { if A.Affine? then A.x else 0 }

  ghost predicate GeneratesAt(c: Params, o: Ops, k: int)
    requires Good(c)
  {
    k >= 0 ==> o.generator(k) == X(TimesG(c, k)) >= 0
  }

  /** The points of the curve are all that is said about P; PointMul.MulSum computes this. */
  ghost predicate CombinesAt(c: Params, o: Ops, t: int, P: Point, s: int)
    requires Good(c)
  {
    o.combine(t, P, s) >= 0 &&
    (t >= 0 && s >= 0 && OnCurve(P, c.p, c.b) ==>
      o.combine(t, P, s) == X(MultiplesSum(Multiple(t, P, c.p), TimesG(c, s), c.p)))
  }

  ghost predicate Proper(c: Params, o: Ops) {
    Good(c) && c.n > 3 && (forall k :: GeneratesAt(c, o, k)) && forall t, P, s :: CombinesAt(c, o, t, P, s)
  }

  /** sm2_fn_add and sm2_fn_sub: one correction, which does not reduce a first operand above n. */
  function FnAdd(a: int, b: int, n: int): int { if a + b >= n then a + b - n else a + b }

  function FnSub(a: int, b: int, n: int): int { if a >= b then a - b else a + n - b }

  // ------------------------------------------------------------ the walk

  /** r of the next position from r and s of one position. */
  function Step(c: Params, o: Ops, e: int, P: Point, s: int, r: int): int {
    FnAdd(o.combine(FnAdd(s, r, c.n), P, s), e, c.n)
  }

  function Walk(c: Params, o: Ops, e: int, keys: seq<Point>, s: seq<int>, lo: nat, hi: nat, r: int): int
    requires hi <= |keys| && hi <= |s|
    decreases hi
  {
    if hi <= lo then r else Step(c, o, e, keys[hi - 1], s[hi - 1], Walk(c, o, e, keys, s, lo, hi - 1, r))
  }

  lemma {:induction false} WalkFrame(c: Params, o: Ops, e: int, keys: seq<Point>, s: seq<int>, t: seq<int>, lo: nat, hi: nat, r: int)
    requires hi <= |keys| && hi <= |s| && hi <= |t| && forall i :: lo <= i < hi ==> s[i] == t[i]
    ensures Walk(c, o, e, keys, s, lo, hi, r) == Walk(c, o, e, keys, t, lo, hi, r)
    decreases hi
  {
    if lo < hi { WalkFrame(c, o, e, keys, s, t, lo, hi - 1, r); }
  }

  lemma {:induction false} WalkSplit(c: Params, o: Ops, e: int, keys: seq<Point>, s: seq<int>, lo: nat, mid: nat, hi: nat, r: int)
    requires lo <= mid <= hi <= |keys| && hi <= |s|
    ensures Walk(c, o, e, keys, s, lo, hi, r) == Walk(c, o, e, keys, s, mid, hi, Walk(c, o, e, keys, s, lo, mid, r))
    decreases hi
  {
    if mid < hi { WalkSplit(c, o, e, keys, s, lo, mid, hi - 1, r); }
  }

  function Digest(dgst: int, n: int): int { if dgst >= n then dgst - n else dgst }

  /** sm2_ring_do_verify. */
  method DoVerify(c: Params, o: Ops, keys: seq<Point>, dgst: int, r0: int, s: seq<int>) returns (ret: int)
    requires |s| == |keys|
    ensures ret == if Walk(c, o, Digest(dgst, c.n), keys, s, 0, |keys|, r0) == r0 then 1 else 0
  {
    var e := dgst;
    if e >= c.n { e := e - c.n; }
    var r, i := r0, 0;
    while i < |keys|
      invariant 0 <= i <= |keys| && r == Walk(c, o, e, keys, s, 0, i, r0)
    {
      var t := FnAdd(s[i], r, c.n);
      var x := o.combine(t, keys[i], s[i]);
      r := FnAdd(x, e, c.n);
      i := i + 1;
    }
    ret := if r0 != r then 0 else 1;
  }

  // ------------------------------------------------------------ signing

  /** (k - r d) / (1 + d) as the program computes it. */
  function Response(n: int, k: int, r: int, d: int): int
    requires n > 3
  {
    MMul(FnSub(k, MMul(r, d, n), n), Inverse(FnAdd(d, 1, n), n), n)
  }

  /** What signing at position at puts out: r of position 0 is reached by walking from k G at the next
      position to the end of the ring, and the response answers the r reached at the position itself. */
  predicate Signed(c: Params, o: Ops, e: int, keys: seq<Point>, at: nat, d: int, k: int, r0: int, s: seq<int>) {
    at < |keys| == |s| && c.n > 3 &&
    r0 == Walk(c, o, e, keys, s, at + 1, |keys|, FnAdd(o.generator(k), e, c.n)) &&
    s[at] == Response(c.n, k, Walk(c, o, e, keys, s, 0, at, r0), d)
  }

  /** The chain on its way around the ring; pos counts positions without wrapping. */
  ghost predicate Chain(c: Params, o: Ops, e: int, keys: seq<Point>, at: nat, r1: int, z: seq<int>, pos: nat, x: int, r0: int) {
    at < |keys| == |z| && at < pos <= at + |keys| &&
    if pos <= |keys| then FnAdd(x, e, c.n) == Walk(c, o, e, keys, z, at + 1, pos, r1)
    else r0 == Walk(c, o, e, keys, z, at + 1, |keys|, r1) && FnAdd(x, e, c.n) == Walk(c, o, e, keys, z, 0, pos - |keys|, r0)
  }

  lemma ChainStep(c: Params, o: Ops, e: int, keys: seq<Point>, at: nat, r1: int, z: seq<int>, pos: nat, i: nat, x: int, r0: int, s: int)
    requires Chain(c, o, e, keys, at, r1, z, pos, x, r0) && pos < at + |keys| && i == pos % |keys|
    ensures i == if pos < |keys| then pos else pos - |keys|
    ensures var r := FnAdd(x, e, c.n);
      Chain(c, o, e, keys, at, r1, z[i := s], pos + 1, o.combine(FnAdd(s, r, c.n), keys[i], s), if i == 0 then r else r0)
  {
    Wrapped(pos, |keys|);
    var r, u, N := FnAdd(x, e, c.n), z[i := s], |keys|;
    if pos < N {
      WalkFrame(c, o, e, keys, z, u, at + 1, pos, r1);
    } else {
      WalkFrame(c, o, e, keys, z, u, at + 1, N, r1);
      WalkFrame(c, o, e, keys, z, u, 0, i, if i == 0 then r else r0);
    }
  }

  lemma Wrapped(pos: nat, n: nat)
    requires 0 < n && pos < 2 * n
    ensures pos % n == if pos < n then pos else pos - n
  {
    if pos < n { ModUnique(pos, 0, pos, n); } else { ModUnique(pos, 1, pos - n, n); }
  }

  lemma NextIndex(pos: nat, n: nat)
    requires 0 < n && pos + 1 < 2 * n
    ensures (pos % n + 1) % n == (pos + 1) % n
  {
    Wrapped(pos, n);
    Wrapped(pos + 1, n);
    if pos + 1 < n { Wrapped(pos + 1, n); } else { Wrapped(pos % n + 1, n); }
  }

  lemma ChainEnd(c: Params, o: Ops, e: int, keys: seq<Point>, at: nat, r1: int, z: seq<int>, x: int, r0: int, s: int)
    requires Chain(c, o, e, keys, at, r1, z, at + |keys|, x, r0)
    ensures var r := FnAdd(x, e, c.n); var first := if at == 0 then r else r0; var u := z[at := s];
      first == Walk(c, o, e, keys, u, at + 1, |keys|, r1) && r == Walk(c, o, e, keys, u, 0, at, first)
  {
    var r := FnAdd(x, e, c.n);
    var first := if at == 0 then r else r0;
    WalkFrame(c, o, e, keys, z, z[at := s], at + 1, |keys|, r1);
    WalkFrame(c, o, e, keys, z, z[at := s], 0, at, first);
  }

  /** The place of the signer's key, or the size of the ring. */
  method FindSigner(keys: seq<Point>, own: Point) returns (at: nat)
    ensures at <= |keys| && (at < |keys| ==> keys[at] == own) && (at == |keys| ==> own !in keys)
  {
    at := 0;
    while at < |keys|
      invariant 0 <= at <= |keys| && own !in keys[..at]
    {
      if keys[at] == own { return; }
      at := at + 1;
    }
  }

  /** sm2_ring_do_sign, with the random k and the random response of every other position. */
  method DoSign(c: Params, o: Ops, d: int, own: Point, keys: seq<Point>, dgst: int, k: int, rand: nat -> int, sVec: array<int>)
    returns (ret: int, r0: int, ghost at: nat)
    requires c.n > 3 && sVec.Length == |keys|
    modifies sVec
    ensures ret == if own in keys then 1 else -1
    ensures ret == 1 ==> at < |keys| && keys[at] == own && Signed(c, o, Digest(dgst, c.n), keys, at, d, k, r0, sVec[..])
  {
    r0, at := 0, 0;
    var e := dgst;
    if e >= c.n { e := e - c.n; }
    var signIndex := FindSigner(keys, own);
    if signIndex >= |keys| {
      return -1, 0, 0;
    }
    at := signIndex;
    var x := o.generator(k);
    ghost var r1, z, pos := FnAdd(x, e, c.n), sVec[..], signIndex + 1;
    var i := (signIndex + 1) % |keys|;
    while i != signIndex
      invariant z == sVec[..] && i == pos % |keys| && Chain(c, o, e, keys, at, r1, z, pos, x, r0)
      decreases at + |keys| - pos
    {
      NotAround(at, pos, |keys|);
      ChainStep(c, o, e, keys, at, r1, z, pos, i, x, r0, rand(i));
      var r := FnAdd(x, e, c.n);
      if i == 0 {
        r0 := r;
      }
      var s := rand(i);
      sVec[i] := s;
      var t := FnAdd(s, r, c.n);
      x := o.combine(t, keys[i], s);
      z := z[i := s];
      NextIndex(pos, |keys|);
      i, pos := (i + 1) % |keys|, pos + 1;
    }
    Around(at, pos, |keys|);
    var r := FnAdd(x, e, c.n);
    ghost var before := r0;
    if i == 0 {
      r0 := r;
    }
    var s := FnSub(k, MMul(r, d, c.n), c.n);
    var inv := Inverse(FnAdd(d, 1, c.n), c.n);
    s := MMul(s, inv, c.n);
    sVec[i] := s;
    ChainEnd(c, o, e, keys, at, r1, z, x, before, s);
    assert sVec[..] == z[at := s];
    ret := 1;
  }

  lemma NotAround(at: nat, pos: nat, n: nat)
    requires at < n && at < pos <= at + n && pos % n != at
    ensures pos < at + n
  {
    Wrapped(at + n, n);
  }

  lemma Around(at: nat, pos: nat, n: nat)
    requires at < n && at < pos <= at + n && pos % n == at
    ensures pos == at + n
  {
    Wrapped(pos, n);
  }

  // ------------------------------------------------------------ closing the ring

  lemma {:induction false} WalkPositive(c: Params, o: Ops, e: int, keys: seq<Point>, s: seq<int>, hi: nat, r: int)
    requires Proper(c, o) && hi <= |keys| && hi <= |s| && 0 <= e && 0 <= r
    ensures Walk(c, o, e, keys, s, 0, hi, r) >= 0
  {
    if hi > 0 {
      var r' := Walk(c, o, e, keys, s, 0, hi - 1, r);
      assert CombinesAt(c, o, FnAdd(s[hi - 1], r', c.n), keys[hi - 1], s[hi - 1]);
    }
  }

  lemma FnOps(a: int, b: int, n: int)
    requires n > 0
    ensures Cong(FnAdd(a, b, n), a + b, n) && Cong(FnSub(a, b, n), a - b, n)
  {
    CongFrom(a + b - n, a + b, -1, n);
    CongFrom(a + n - b, a - b, 1, n);
  }

  /** s (1 + d) = k - r d */
  lemma ResponseQuotient(n: int, k: int, r: int, d: int, s: int)
    requires Field(n) && 0 <= d < n - 1 && s == Response(n, k, r, d)
    ensures 0 <= s < n && Cong(s * (d + 1), k - r * d, n)
  {
    var rd := MMul(r, d, n);
    CongMod(r * d, n);
    FnOps(k, rd, n);
    CongAdd(k, k, rd, r * d, n);
    CongZero(d + 1, n);
    assert FnAdd(d, 1, n) == d + 1;
    Quotient(FnSub(k, rd, n), d + 1, s, n);
  }

  /** The response satisfies s + (s + r) d = k. */
  lemma ResponseEquation(n: int, k: int, r: int, d: int, s: int)
    requires Field(n) && 0 <= d < n - 1 && s == Response(n, k, r, d)
    ensures 0 <= s < n && Cong(s + FnAdd(s, r, n) * d, k, n)
  {
    var t := FnAdd(s, r, n);
    ResponseQuotient(n, k, r, d, s);
    FnOps(s, r, n);
    CongMul(t, s + r, d, d, n);
    CongAdd(s, s, t * d, (s + r) * d, n);
    Regroup(s, r, d);
    CongAdd(s * (d + 1), k - r * d, r * d, r * d, n);
  }

  lemma Regroup(s: int, r: int, d: int)
    ensures s + (s + r) * d == s * (d + 1) + r * d
  {
  }

  /** t P + s G = k G for the public key P = d G. */
  lemma SignerPoint(c: Params, d: nat, k: nat, r: nat, s: nat)
    requires Good(c) && c.n > 3 && 0 < d < c.n - 1 && s == Response(c.n, k, r, d) && FnAdd(s, r, c.n) % c.n != 0
    ensures var t := FnAdd(s, r, c.n); var P := TimesG(c, d);
      t >= 0 && OnCurve(P, c.p, c.b) && Multiple(t, P, c.p).Affine? && Add(TimesG(c, s), Multiple(t, P, c.p), c.p) == TimesG(c, k)
  {
    var t := FnAdd(s, r, c.n);
    ResponseEquation(c.n, k, r, d, s);
    OnIt(c, d);
    MultipleOfMultiple(c, t, d);
    ModUnique(d, 0, d, c.n);
    NonZeroProduct(t, d, c.n);
    Vanishes(c, t * d);
    Sum(c, s, t * d);
    SameResidue(c, s + t * d, k);
  }

  /** r of position 0 is never negative. */
  lemma FirstPositive(c: Params, o: Ops, e: int, keys: seq<Point>, at: nat, d: int, k: nat, r0: int, s: seq<int>)
    requires Proper(c, o) && 0 <= e && Signed(c, o, e, keys, at, d, k, r0, s)
    ensures r0 >= 0
  {
    assert GeneratesAt(c, o, k);
    if at + 1 < |keys| {
      var hi := |keys| - 1;
      var r := Walk(c, o, e, keys, s, at + 1, hi, FnAdd(o.generator(k), e, c.n));
      assert CombinesAt(c, o, FnAdd(s[hi], r, c.n), keys[hi], s[hi]);
    }
  }

  /** s + r vanishes exactly if k + r does, and the response is then k. */
  lemma VanishingResponse(n: int, k: int, r: int, d: int, s: int)
    requires Field(n) && 0 <= d < n - 1 && s == Response(n, k, r, d)
    ensures FnAdd(s, r, n) % n == 0 <==> (k + r) % n == 0
    ensures (k + r) % n == 0 ==> s == k % n
  {
    ResponseQuotient(n, k, r, d, s);
    FnOps(s, r, n);
    CongZero(d + 1, n);
    ModUnique(0, 0, 0, n);
    var u := (s + r) * (d + 1);
    CongAdd(s * (d + 1), k - r * d, r * d + r, r * d + r, n);
    assert u == s * (d + 1) + (r * d + r) by { Distribute(s, r, d + 1); Distribute(d, 1, r); }
    if Cong(s + r, 0, n) { CongMul(s + r, 0, d + 1, d + 1, n); }
    if Cong(u, 0, n) {
      Euclid(n, s + r, d + 1);
      CongAdd(s + r, k + r, r, r, n);
      ModUnique(s, 0, s, n);
    }
  }

  lemma Distribute(x: int, y: int, z: int)
    ensures (x + y) * z == x * z + y * z
  {
  }

  /** The point whose x coordinate verification finds at the signer: k G again, unless k + r vanishes. */
  ghost function Found(c: Params, k: nat, r: int): Point
    requires Good(c)
  {
    if (k + r) % c.n != 0 then TimesG(c, k) else PlusOrigin(TimesG(c, k), c.p)
  }

  /** The step of verification at the signer. */
  lemma SignerStep(c: Params, o: Ops, e: int, d: nat, k: nat, r: nat, s: int)
    requires Proper(c, o) && 0 < d < c.n - 1 && s == Response(c.n, k, r, d)
    ensures Step(c, o, e, TimesG(c, d), s, r) == FnAdd(X(Found(c, k, r)), e, c.n)
  {
    var t, P := FnAdd(s, r, c.n), TimesG(c, d);
    ResponseEquation(c.n, k, r, d, s);
    VanishingResponse(c.n, k, r, d, s);
    assert CombinesAt(c, o, t, P, s);
    if t % c.n != 0 {
      SignerPoint(c, d, k, r, s);
    } else {
      OnIt(c, d);
      MultipleOfMultiple(c, t, d);
      ModUnique(0, 0, 0, c.n);
      CongMul(t, 0, d, d, c.n);
      Vanishes(c, t * d);
      CongMod(k, c.n);
      SameResidue(c, s, k);
    }
  }

  /** Which signatures are accepted, for every ring size and position: all for which k + r does not vanish
      modulo n at the signer, and the others if both values lead through the rest of the ring to the
      same r. */
  lemma Closes(c: Params, o: Ops, e: int, keys: seq<Point>, at: nat, d: nat, k: nat, r0: int, s: seq<int>)
    requires Proper(c, o) && 0 <= e && Signed(c, o, e, keys, at, d, k, r0, s) && keys[at] == TimesG(c, d) && 0 < d < c.n - 1
    ensures var r := Walk(c, o, e, keys, s, 0, at, r0); var A := TimesG(c, k);
      Walk(c, o, e, keys, s, 0, |keys|, r0) == r0 <==>
      (k + r) % c.n != 0 ||
      Walk(c, o, e, keys, s, at + 1, |keys|, FnAdd(X(PlusOrigin(A, c.p)), e, c.n))
      == Walk(c, o, e, keys, s, at + 1, |keys|, FnAdd(X(A), e, c.n))
  {
    var r := Walk(c, o, e, keys, s, 0, at, r0);
    FirstPositive(c, o, e, keys, at, d, k, r0, s);
    WalkPositive(c, o, e, keys, s, at, r0);
    SignerStep(c, o, e, d, k, r, s[at]);
    assert GeneratesAt(c, o, k);
    WalkSplit(c, o, e, keys, s, 0, at + 1, |keys|, r0);
  }

  /** Every signature is accepted unless 1 + d or k + r vanishes modulo n at the signer. */
  lemma Accepted(c: Params, o: Ops, e: int, keys: seq<Point>, at: nat, d: nat, k: nat, r0: int, s: seq<int>)
    requires Proper(c, o) && 0 <= e && Signed(c, o, e, keys, at, d, k, r0, s) && keys[at] == TimesG(c, d) && 0 < d < c.n - 1
    requires (k + Walk(c, o, e, keys, s, 0, at, r0)) % c.n != 0
    ensures Walk(c, o, e, keys, s, 0, |keys|, r0) == r0
  {
    Closes(c, o, e, keys, at, d, k, r0, s);
  }

  /** A signer in the last place, or alone: a signature with k + r = 0 is accepted exactly if the response
      is 0, or the x coordinate of k G is 0, or (b - 3 x) / x^2 gives the same r as x. */
  lemma LastPlace(c: Params, o: Ops, e: int, keys: seq<Point>, d: nat, k: nat, r0: int, s: seq<int>)
    requires keys != [] && Proper(c, o) && 0 <= e && Signed(c, o, e, keys, |keys| - 1, d, k, r0, s)
    requires keys[|keys| - 1] == TimesG(c, d) && 0 < d < c.n - 1
    requires (k + Walk(c, o, e, keys, s, 0, |keys| - 1, r0)) % c.n == 0
    ensures var A := TimesG(c, k);
      (A.Infinity? <==> s[|keys| - 1] == 0) &&
      (Walk(c, o, e, keys, s, 0, |keys|, r0) == r0 <==>
      A.Infinity? || A.x == 0 || FnAdd(OriginX(A.x, c.p, c.b), e, c.n) == FnAdd(A.x, e, c.n))
  {
    var at := |keys| - 1;
    Closes(c, o, e, keys, at, d, k, r0, s);
    VanishingResponse(c.n, k, Walk(c, o, e, keys, s, 0, at, r0), d, s[at]);
    Vanishes(c, k);
    OnIt(c, k);
    PlusOriginX(TimesG(c, k), c.p, c.b);
  }

  /** (b - 3 x) / x^2 is x itself exactly if x^3 + 3 x = b. */
  lemma OriginFixed(x: int, p: int, b: int)
    requires Field(p) && 0 < x < p
    ensures OriginX(x, p, b) == x <==> Cong(x * x * x + 3 * x, b, p)
  {
    var u := OriginX(x, p, b);
    CongZero(x, p);
    Jacobian.NonZeroFourth(x, p);
    Quotient(b - 3 * x, x * x, u, p);
    assert x * (x * x) == x * x * x;
    if u == x { CongAdd(x * x * x, b - 3 * x, 3 * x, 3 * x, p); }
    if Cong(x * x * x + 3 * x, b, p) {
      CongAdd(x * x * x + 3 * x, b, 3 * x, 3 * x, p);
      assert (x * x) * u == u * (x * x) && (x * x) * x == x * x * x;
      Cancel(p, x * x, u, x);
      CongEqual(u, x, p);
    }
  }

  /** The digest for which k + r vanishes in a ring of one. */
  ghost function Unlucky(c: Params, k: nat): int
    requires Good(c)
  {
    (0 - k - X(TimesG(c, k))) % c.n
  }

  /** In a ring of one every k has a digest for which k + r vanishes; the signature is k. */
  lemma Alone(c: Params, o: Ops, d: nat, k: nat)
    requires Proper(c, o) && 0 < d < c.n - 1
    ensures var e := Unlucky(c, k); var P := TimesG(c, d); var A := TimesG(c, k); var r0 := FnAdd(X(A), e, c.n);
      0 <= e < c.n && Signed(c, o, e, [P], 0, d, k, r0, [k % c.n]) &&
      (Walk(c, o, e, [P], [k % c.n], 0, 1, r0) == r0 <==>
      A.Infinity? || A.x == 0 || FnAdd(OriginX(A.x, c.p, c.b), e, c.n) == FnAdd(A.x, e, c.n))
  {
    var e, x, P := Unlucky(c, k), X(TimesG(c, k)), TimesG(c, d);
    var r0 := FnAdd(x, e, c.n);
    assert GeneratesAt(c, o, k);
    FnOps(x, e, c.n);
    CongMod(0 - k - x, c.n);
    CongAdd(x, x, e, 0 - k - x, c.n);
    CongAdd(k, k, r0, 0 - k, c.n);
    ModUnique(0, 0, 0, c.n);
    VanishingResponse(c.n, k, r0, d, Response(c.n, k, r0, d));
    LastPlace(c, o, e, [P], d, k, r0, [k % c.n]);
  }

  // ------------------------------------------------------------ a signature that is refused

  const B: int := 0x28e9fa9e_9d9f5e34_4d5a9e4b_cf6509a7_f39789f5_15ab8f92_ddbcbd41_4d940e93
  const GX: int := 0x32c4ae2c_1f198119_5f990446_6a39c994_8fe30bbf_f2660be1_715a4589_334c74c7
  const GY: int := 0xbc3736a2_f4f6779c_59bdcee3_6b692153_d0a9877c_c62a4740_02df32e5_2139f0a0

  /** SM2_P, SM2_B, SM2_N and SM2_G. */
  const SM2: Params := Params(Sm2Field.P, B, Sm2Order.N, Affine(GX, GY))

  lemma GeneratorNotFixed()
    ensures !Cong(GX * GX * GX + 3 * GX, B, Sm2Field.P) && 0 < GX < Sm2Order.N - 1 && Sm2Field.P < GX + Sm2Order.N
    ensures GX < Sm2Field.P
  {
  }

  /** On the curve of SM2 the random number 1 and the digest n - 1 - x(G) make a ring of one sign with the
      response 1, for every private key d, and verification refuses that. */
  lemma Refused(o: Ops, d: nat)
    requires Good(SM2) && Proper(SM2, o) && 0 < d < Sm2Order.N - 1
    ensures var e := Sm2Order.N - 1 - GX; var P := TimesG(SM2, d); var r0 := Sm2Order.N - 1;
      Digest(e, Sm2Order.N) == e && Signed(SM2, o, e, [P], 0, d, 1, r0, [1]) &&
      Walk(SM2, o, e, [P], [1], 0, 1, r0) != r0
  {
    GeneratorNotFixed();
    assert TimesG(SM2, 1) == Affine(GX, GY) by { assert Multiple(0, SM2.G, SM2.p) == Infinity; }
    ModUnique(-1 - GX, -1, Sm2Order.N - 1 - GX, Sm2Order.N);
    ModUnique(1, 0, 1, Sm2Order.N);
    Alone(SM2, o, d, 1);
    OriginFixed(GX, SM2.p, B);
    InRange(B - 3 * GX, GX * GX, SM2.p);
  }

  lemma InRange(x: int, y: int, p: int)
    requires p > 3
    ensures 0 <= MMul(x, Inverse(y, p), p) < p
  {
  }
}
