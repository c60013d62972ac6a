/** Commutative rings given by their operations, and a decision procedure for identities in
    commutative monoids and groups: two expressions agree when their leaves count the same. */
module Ring {

  datatype Group<!T> = Group(unit: T, op: (T, T) -> T, inv: T -> T)

  ghost predicate MonoidAt<T(!new)>(G: Group<T>, x: T, y: T, z: T) {
    && G.op(x, y) == G.op(y, x)
    && G.op(G.op(x, y), z) == G.op(x, G.op(y, z))
    && G.op(x, G.unit) == x
  }

  ghost predicate IsMonoid<T(!new)>(G: Group<T>) {
    forall x, y, z :: MonoidAt(G, x, y, z)
  }

  ghost predicate InverseAt<T(!new)>(G: Group<T>, x: T) {
    G.op(x, G.inv(x)) == G.unit
  }

  ghost predicate IsGroup<T(!new)>(G: Group<T>) {
    IsMonoid(G) && forall x :: InverseAt(G, x)
  }

  // ------------------------------------------------------------ expressions over one operation

  datatype Expr = Leaf(i: nat) | Op(l: Expr, r: Expr) | Inv(e: Expr)

  ghost function Eval<T>(G: Group<T>, g: seq<T>, e: Expr): T
    requires Within(e, |g|)
    decreases e
  {
    match e
    case Leaf(i) => g[i]
    case Op(l, r) => G.op(Eval(G, g, l), Eval(G, g, r))
    case Inv(f) => G.inv(Eval(G, g, f))
  }

  ghost predicate Within(e: Expr, n: nat)
    decreases e
  {
    match e
    case Leaf(i) => i < n
    case Op(l, r) => Within(l, n) && Within(r, n)
    case Inv(f) => Within(f, n)
  }

  /** No inverses: such expressions make sense in a monoid. */
  ghost predicate Plain(e: Expr)
    decreases e
  {
    match e
    case Leaf(_) => true
    case Op(l, r) => Plain(l) && Plain(r)
    case Inv(_) => false
  }

  /** How often generator i occurs, inverses counting negatively. */
  ghost function Count(e: Expr, i: nat): int
    decreases e
  {
    match e
    case Leaf(j) => if i == j then 1 else 0
    case Op(l, r) => Count(l, i) + Count(r, i)
    case Inv(f) => -Count(f, i)
  }

  /** The n-fold multiple of x. */
  ghost function Times<T>(G: Group<T>, n: int, x: T): T
    decreases if n < 0 then -n else n
  {
    if n == 0 then G.unit
    else if n > 0 then G.op(x, Times(G, n - 1, x))
    else G.op(G.inv(x), Times(G, n + 1, x))
  }

  lemma MonoidLaws<T(!new)>(G: Group<T>, x: T, y: T, z: T)
    requires IsMonoid(G)
    ensures MonoidAt(G, x, y, z)
  {
  }

  /** (w x) (y z) = (w y) (x z). */
  lemma Interchange<T(!new)>(G: Group<T>, w: T, x: T, y: T, z: T)
    requires IsMonoid(G)
    ensures G.op(G.op(w, x), G.op(y, z)) == G.op(G.op(w, y), G.op(x, z))
  {
    MonoidLaws(G, w, x, G.op(y, z));
    MonoidLaws(G, x, y, z);
    MonoidLaws(G, y, x, z);
    MonoidLaws(G, w, y, G.op(x, z));
  }

  lemma {:induction false} TimesSucc<T(!new)>(G: Group<T>, n: int, x: T)
    requires IsMonoid(G) && (n >= 0 || IsGroup(G))
    ensures Times(G, n + 1, x) == G.op(x, Times(G, n, x))
  {
    if n < 0 {
      var y, t := G.inv(x), Times(G, n + 1, x);
      assert InverseAt(G, x);
      MonoidLaws(G, x, y, t);
      MonoidLaws(G, t, G.unit, G.unit);
      MonoidLaws(G, G.unit, t, t);
    }
  }

  lemma TimesPred<T(!new)>(G: Group<T>, n: int, x: T)
    requires IsGroup(G)
    ensures Times(G, n - 1, x) == G.op(G.inv(x), Times(G, n, x))
  {
    if n > 0 {
      var y, t := G.inv(x), Times(G, n - 1, x);
      assert InverseAt(G, x);
      MonoidLaws(G, y, x, t);
      MonoidLaws(G, t, G.unit, G.unit);
      MonoidLaws(G, G.unit, t, t);
    }
  }

  lemma {:induction false} TimesAdd<T(!new)>(G: Group<T>, m: int, n: int, x: T)
    requires IsMonoid(G) && ((m >= 0 && n >= 0) || IsGroup(G))
    ensures Times(G, m + n, x) == G.op(Times(G, m, x), Times(G, n, x))
    decreases if m < 0 then -m else m
  {
    var t := Times(G, n, x);
    if m == 0 {
      MonoidLaws(G, G.unit, t, t);
      MonoidLaws(G, t, G.unit, G.unit);
    } else if m > 0 {
      TimesAdd(G, m - 1, n, x);
      TimesSucc(G, m - 1 + n, x);
      MonoidLaws(G, x, Times(G, m - 1, x), t);
    } else {
      TimesAdd(G, m + 1, n, x);
      TimesPred(G, m + 1 + n, x);
      MonoidLaws(G, G.inv(x), Times(G, m + 1, x), t);
    }
  }

  /** The combination of the first k generators with the counts of e as coefficients. */
  ghost function Combine<T>(G: Group<T>, g: seq<T>, e: Expr, k: nat): T
    requires k <= |g|
  {
    if k == 0 then G.unit else G.op(Combine(G, g, e, k - 1), Times(G, Count(e, k - 1), g[k - 1]))
  }

  lemma {:induction false} PlainCount(e: Expr, i: nat)
    requires Plain(e)
    ensures Count(e, i) >= 0
    decreases e
  {
    if e.Op? { PlainCount(e.l, i); PlainCount(e.r, i); }
  }

  lemma SplitTimes<T(!new)>(G: Group<T>, l: Expr, r: Expr, i: nat, x: T)
    requires IsMonoid(G) && (Plain(Op(l, r)) || IsGroup(G))
    ensures Times(G, Count(Op(l, r), i), x) == G.op(Times(G, Count(l, i), x), Times(G, Count(r, i), x))
  {
    if Plain(Op(l, r)) { PlainCount(l, i); PlainCount(r, i); }
    TimesAdd(G, Count(l, i), Count(r, i), x);
  }

  lemma {:induction false} CombineOp<T(!new)>(G: Group<T>, g: seq<T>, l: Expr, r: Expr, k: nat)
    requires k <= |g| && IsMonoid(G) && (Plain(Op(l, r)) || IsGroup(G))
    ensures Combine(G, g, Op(l, r), k) == G.op(Combine(G, g, l, k), Combine(G, g, r, k))
  {
    if k == 0 {
      MonoidLaws(G, G.unit, G.unit, G.unit);
    } else {
      CombineOp(G, g, l, r, k - 1);
      var m, n, x := Count(l, k - 1), Count(r, k - 1), g[k - 1];
      SplitTimes(G, l, r, k - 1, x);
      Interchange(G, Combine(G, g, l, k - 1), Combine(G, g, r, k - 1), Times(G, m, x), Times(G, n, x));
    }
  }

  lemma {:induction false} CombineLeaf<T(!new)>(G: Group<T>, g: seq<T>, i: nat, k: nat)
    requires k <= |g| && IsMonoid(G) && i < |g|
    ensures Combine(G, g, Leaf(i), k) == if i < k then g[i] else G.unit
  {
    if k > 0 {
      CombineLeaf(G, g, i, k - 1);
      var x := g[k - 1];
      MonoidLaws(G, x, G.unit, G.unit);
      MonoidLaws(G, g[i], G.unit, G.unit);
      MonoidLaws(G, G.unit, G.unit, G.unit);
      assert Times(G, 1, x) == G.op(x, Times(G, 0, x));
    }
  }

  /** Inverses are unique. */
  lemma InverseUnique<T(!new)>(G: Group<T>, x: T, y: T)
    requires IsGroup(G) && G.op(x, y) == G.unit
    ensures y == G.inv(x)
  {
    var z := G.inv(x);
    assert InverseAt(G, x);
    MonoidLaws(G, z, x, y);
    MonoidLaws(G, z, G.unit, G.unit);
    MonoidLaws(G, G.unit, y, y);
    MonoidLaws(G, y, G.unit, G.unit);
    MonoidLaws(G, x, z, z);
  }

  lemma {:induction false} CombineInv<T(!new)>(G: Group<T>, g: seq<T>, e: Expr, k: nat)
    requires k <= |g| && IsGroup(G)
    ensures Combine(G, g, Inv(e), k) == G.inv(Combine(G, g, e, k))
  {
    CombineOp(G, g, e, Inv(e), k);
    CombineZero(G, g, Op(e, Inv(e)), k);
    InverseUnique(G, Combine(G, g, e, k), Combine(G, g, Inv(e), k));
  }

  lemma {:induction false} CombineZero<T(!new)>(G: Group<T>, g: seq<T>, e: Expr, k: nat)
    requires k <= |g| && IsMonoid(G) && forall i: nat :: i < k ==> Count(e, i) == 0
    ensures Combine(G, g, e, k) == G.unit
  {
    MonoidLaws(G, G.unit, G.unit, G.unit);
    if k > 0 { CombineZero(G, g, e, k - 1); }
  }

  lemma {:induction false} Normalize<T(!new)>(G: Group<T>, g: seq<T>, e: Expr)
    requires Within(e, |g|) && IsMonoid(G) && (Plain(e) || IsGroup(G))
    ensures Eval(G, g, e) == Combine(G, g, e, |g|)
    decreases e
  {
    match e
    case Leaf(i) =>
      CombineLeaf(G, g, i, |g|);
    case Op(l, r) =>
      Normalize(G, g, l);
      Normalize(G, g, r);
      CombineOp(G, g, l, r, |g|);
    case Inv(f) =>
      Normalize(G, g, f);
      CombineInv(G, g, f, |g|);
  }

  lemma {:induction false} CombineSame<T(!new)>(G: Group<T>, g: seq<T>, e: Expr, f: Expr, k: nat)
    requires k <= |g| && forall i: nat :: i < k ==> Count(e, i) == Count(f, i)
    ensures Combine(G, g, e, k) == Combine(G, g, f, k)
  {
    if k > 0 { CombineSame(G, g, e, f, k - 1); }
  }

  /** Expressions whose generators count the same are equal in every commutative monoid, and
      with inverses in every commutative group. */
  lemma Identity<T(!new)>(G: Group<T>, g: seq<T>, e: Expr, f: Expr)
    requires Within(e, |g|) && Within(f, |g|)
    requires IsMonoid(G) && ((Plain(e) && Plain(f)) || IsGroup(G))
    requires forall i: nat :: i < |g| ==> Count(e, i) == Count(f, i)
    ensures Eval(G, g, e) == Eval(G, g, f)
  {
    Normalize(G, g, e);
    Normalize(G, g, f);
    CombineSame(G, g, e, f, |g|);
  }

  // ------------------------------------------------------------ rings

  /** times.inv need only invert the elements that have an inverse. */
  datatype Ring<!T> = Ring(plus: Group<T>, times: Group<T>) {
    function Zero(): T { plus.unit }
    function One(): T { times.unit }
    function Add(x: T, y: T): T { plus.op(x, y) }
    function Neg(x: T): T { plus.inv(x) }
    function Sub(x: T, y: T): T { plus.op(x, plus.inv(y)) }
    function Dbl(x: T): T { plus.op(x, x) }
    function Mul(x: T, y: T): T { times.op(x, y) }
    function Recip(x: T): T { times.inv(x) }
  }

  ghost predicate DistributesAt<T(!new)>(R: Ring<T>, x: T, y: T, z: T) {
    R.Mul(x, R.Add(y, z)) == R.Add(R.Mul(x, y), R.Mul(x, z))
  }

  ghost predicate IsRing<T(!new)>(R: Ring<T>) {
    IsGroup(R.plus) && IsMonoid(R.times) && forall x, y, z :: DistributesAt(R, x, y, z)
  }

  ghost predicate RingAt<T(!new)>(R: Ring<T>, x: T, y: T, z: T) {
    MonoidAt(R.plus, x, y, z) && InverseAt(R.plus, x) && MonoidAt(R.times, x, y, z) && DistributesAt(R, x, y, z)
  }

  lemma FromLaws<T(!new)>(R: Ring<T>)
    requires forall x, y, z :: RingAt(R, x, y, z)
    ensures IsRing(R)
  {
    forall x, y, z ensures MonoidAt(R.plus, x, y, z) && MonoidAt(R.times, x, y, z) && DistributesAt(R, x, y, z) {
      assert RingAt(R, x, y, z);
    }
    forall x ensures InverseAt(R.plus, x) { assert RingAt(R, x, x, x); }
  }

  lemma Distributes<T(!new)>(R: Ring<T>, x: T, y: T, z: T)
    requires IsRing(R)
    ensures DistributesAt(R, x, y, z)
  {
  }

  lemma MulZero<T(!new)>(R: Ring<T>, x: T)
    requires IsRing(R)
    ensures R.Mul(x, R.Zero()) == R.Zero() && R.Mul(R.Zero(), x) == R.Zero()
  {
    var z, t := R.Zero(), R.Mul(x, R.Zero());
    MonoidLaws(R.plus, z, z, z);
    Distributes(R, x, z, z);
    Idempotent(R.plus, t);
    MonoidLaws(R.times, x, z, z);
  }

  lemma Idempotent<T(!new)>(G: Group<T>, t: T)
    requires IsGroup(G) && G.op(t, t) == t
    ensures t == G.unit
  {
    assert InverseAt(G, t);
    MonoidLaws(G, t, t, G.inv(t));
    MonoidLaws(G, t, G.unit, G.unit);
  }

  lemma MulNeg<T(!new)>(R: Ring<T>, x: T, y: T)
    requires IsRing(R)
    ensures R.Mul(x, R.Neg(y)) == R.Neg(R.Mul(x, y)) && R.Mul(R.Neg(y), x) == R.Neg(R.Mul(x, y))
  {
    assert InverseAt(R.plus, y);
    Distributes(R, x, y, R.Neg(y));
    MulZero(R, x);
    InverseUnique(R.plus, R.Mul(x, y), R.Mul(x, R.Neg(y)));
    MonoidLaws(R.times, x, R.Neg(y), x);
  }

  lemma MulSub<T(!new)>(R: Ring<T>, x: T, y: T, z: T)
    requires IsRing(R)
    ensures R.Mul(x, R.Sub(y, z)) == R.Sub(R.Mul(x, y), R.Mul(x, z))
  {
    Distributes(R, x, y, R.Neg(z));
    MulNeg(R, x, z);
  }

  lemma Commutes<T(!new)>(R: Ring<T>, x: T, y: T)
    requires IsRing(R)
    ensures R.Mul(x, y) == R.Mul(y, x)
  {
    MonoidLaws(R.times, x, y, y);
  }

  // ------------------------------------------------------------ small identities

  lemma SubSelf<T(!new)>(R: Ring<T>, x: T)
    requires IsRing(R)
    ensures R.Sub(x, x) == R.Zero() && R.Add(x, R.Zero()) == x && R.Add(R.Zero(), x) == x && R.Sub(x, R.Zero()) == x
  {
    assert InverseAt(R.plus, x);
    MonoidLaws(R.plus, x, R.Zero(), x);
    MonoidLaws(R.plus, R.Zero(), R.Zero(), x);
    InverseUnique(R.plus, R.Zero(), R.Zero());
  }

  /** x (y z) = y (x z). */
  lemma MulSwap<T(!new)>(R: Ring<T>, x: T, y: T, z: T)
    requires IsRing(R)
    ensures R.Mul(x, R.Mul(y, z)) == R.Mul(y, R.Mul(x, z))
  {
    Identity(R.times, [x, y, z], Op(Leaf(0), Op(Leaf(1), Leaf(2))), Op(Leaf(1), Op(Leaf(0), Leaf(2))));
  }

  lemma MulDbl<T(!new)>(R: Ring<T>, x: T, y: T)
    requires IsRing(R)
    ensures R.Mul(x, R.Dbl(y)) == R.Dbl(R.Mul(x, y))
  {
    Distributes(R, x, y, y);
  }

  /** (x + y)^2 and (x - y)^2. */
  lemma SquareSum<T(!new)>(R: Ring<T>, x: T, y: T)
    requires IsRing(R)
    ensures var u, s, t := R.Mul(x, x), R.Mul(x, y), R.Mul(y, y);
      R.Mul(R.Add(x, y), R.Add(x, y)) == R.Add(R.Add(u, R.Dbl(s)), t) &&
      R.Mul(R.Sub(x, y), R.Sub(x, y)) == R.Add(R.Sub(u, R.Dbl(s)), t)
  {
    var u, s, t, z := R.Mul(x, x), R.Mul(x, y), R.Mul(y, y), R.Neg(y);
    Binomial(R, x, y);
    Binomial(R, x, z);
    MulNeg(R, x, y); MulNeg(R, z, y); MulNeg(R, y, y);
    assert R.Mul(z, z) == R.Neg(R.Neg(t));
    Identity(R.plus, [u, s, t],
      Op(Op(Leaf(0), Op(Inv(Leaf(1)), Inv(Leaf(1)))), Inv(Inv(Leaf(2)))),
      Op(Op(Leaf(0), Inv(Op(Leaf(1), Leaf(1)))), Leaf(2)));
  }

  lemma Binomial<T(!new)>(R: Ring<T>, x: T, y: T)
    requires IsRing(R)
    ensures R.Mul(R.Add(x, y), R.Add(x, y)) == R.Add(R.Add(R.Mul(x, x), R.Dbl(R.Mul(x, y))), R.Mul(y, y))
  {
    var w, u, s, t := R.Add(x, y), R.Mul(x, x), R.Mul(x, y), R.Mul(y, y);
    Distributes(R, w, x, y);
    Commutes(R, w, x); Commutes(R, w, y); Commutes(R, x, y);
    Distributes(R, x, x, y);
    Distributes(R, y, x, y);
    Identity(R.plus, [u, s, t],
      Op(Op(Leaf(0), Leaf(1)), Op(Leaf(1), Leaf(2))), Op(Op(Leaf(0), Op(Leaf(1), Leaf(1))), Leaf(2)));
  }

  /** Where 2 has an inverse, doubling is injective. */
  lemma CancelTwo<T(!new)>(R: Ring<T>, h: T, x: T, y: T)
    requires IsRing(R) && R.Dbl(h) == R.One() && R.Dbl(x) == R.Dbl(y)
    ensures x == y
  {
    HalfOfDouble(R, h, x);
    HalfOfDouble(R, h, y);
  }

  lemma HalfOfDouble<T(!new)>(R: Ring<T>, h: T, x: T)
    requires IsRing(R) && R.Dbl(h) == R.One()
    ensures R.Mul(h, R.Dbl(x)) == x
  {
    MulDbl(R, h, x); MulDbl(R, x, h);
    Commutes(R, h, x);
    MonoidLaws(R.times, x, x, x);
  }
}
