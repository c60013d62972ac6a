/** The two forms of the SM4 round function over words and bytes of any type: S-boxes followed by
    the linear map L, and one table lookup per byte with rotations. */
module Sm4Box {
  import opened Ring
  import opened Sm4Rounds

  /** G is exclusive or. byte k is the k-th byte of a word counted from the low end, low the low
      byte, shr8 a shift by one byte; s and t are the two tables; up k places an S-box value at
      byte k and turn k rotates a table word so that byte 3 becomes byte k. */
  datatype Box<!W, !B> = Box(G: Group<W>, byte: (W, int) -> B, low: W -> B, shr8: W -> W,
    s: B -> W, t: B -> W, up: (W, int) -> W, turn: (W, int) -> W, rol: (W, int) -> W)

  function Sum4<W>(G: Group<W>, a: W, b: W, c: W, d: W): W { G.op(G.op(G.op(a, b), c), d) }

  /** x with its rotations by 2, 10, 18 and 24. */
  function L<W, B>(m: Box<W, B>, x: W): W {
    m.G.op(Sum4(m.G, x, m.rol(x, 2), m.rol(x, 10), m.rol(x, 18)), m.rol(x, 24))
  }

  function Placed<W, B>(m: Box<W, B>, x: W, k: int): W { m.up(m.s(m.byte(x, k)), k) }

  /** L32 of S32, as in ROUND_SBOX. */
  function SboxT<W, B>(m: Box<W, B>, x: W): W {
    L(m, Sum4(m.G, Placed(m, x, 3), Placed(m, x, 2), Placed(m, x, 1), Placed(m, x, 0)))
  }

  function Looked<W, B>(m: Box<W, B>, x: W, k: int): W { m.turn(m.t(m.byte(x, k)), k) }

  /** The lookups of ROUND_TBOX. */
  function TboxT<W, B>(m: Box<W, B>, x: W): W {
    Sum4(m.G, Looked(m, x, 0), Looked(m, x, 1), Looked(m, x, 2), Looked(m, x, 3))
  }

  ghost predicate RolAt<W(!new), B>(m: Box<W, B>, x: W, y: W, n: int) {
    m.rol(m.G.op(x, y), n) == m.G.op(m.rol(x, n), m.rol(y, n))
  }

  /** A turned table word is L of the S-box value in its place. */
  ghost predicate TableAt<W(!new), B(!new)>(m: Box<W, B>, b: B, k: int) {
    0 <= k < 4 ==> m.turn(m.t(b), k) == L(m, m.up(m.s(b), k))
  }

  ghost predicate BytesAt<W(!new), B>(m: Box<W, B>, x: W) {
    m.low(x) == m.byte(x, 0) && m.low(m.shr8(x)) == m.byte(x, 1) &&
    m.low(m.shr8(m.shr8(x))) == m.byte(x, 2) && m.low(m.shr8(m.shr8(m.shr8(x)))) == m.byte(x, 3)
  }

  ghost predicate RolAll<W(!new), B>(m: Box<W, B>, x: W, y: W) {
    RolAt(m, x, y, 2) && RolAt(m, x, y, 10) && RolAt(m, x, y, 18) && RolAt(m, x, y, 24)
  }

  ghost predicate Laws<W(!new), B(!new)>(m: Box<W, B>) {
    && IsMonoid(m.G) && (forall x, y :: RolAll(m, x, y)) && (forall x :: BytesAt(m, x))
    && forall b, k :: TableAt(m, b, k)
  }

  /** L is linear. */
  lemma LAdds<W(!new), B(!new)>(m: Box<W, B>, x: W, y: W)
    requires Laws(m)
    ensures L(m, m.G.op(x, y)) == m.G.op(L(m, x), L(m, y))
  {
    assert RolAll(m, x, y);
    Identity(m.G, [x, m.rol(x, 2), m.rol(x, 10), m.rol(x, 18), m.rol(x, 24), y, m.rol(y, 2), m.rol(y, 10), m.rol(y, 18), m.rol(y, 24)],
      Op(Op(Op(Op(Op(Leaf(0), Leaf(5)), Op(Leaf(1), Leaf(6))), Op(Leaf(2), Leaf(7))), Op(Leaf(3), Leaf(8))), Op(Leaf(4), Leaf(9))),
      Op(Op(Op(Op(Op(Leaf(0), Leaf(1)), Leaf(2)), Leaf(3)), Leaf(4)),
         Op(Op(Op(Op(Leaf(5), Leaf(6)), Leaf(7)), Leaf(8)), Leaf(9))));
  }

  lemma Backwards<W(!new)>(G: Group<W>, a: W, b: W, c: W, d: W)
    requires IsMonoid(G)
    ensures Sum4(G, a, b, c, d) == Sum4(G, d, c, b, a)
  {
    Identity(G, [a, b, c, d], Op(Op(Op(Leaf(0), Leaf(1)), Leaf(2)), Leaf(3)), Op(Op(Op(Leaf(3), Leaf(2)), Leaf(1)), Leaf(0)));
  }

  /** ROUND_TBOX equals ROUND_SBOX for every word. */
  lemma TboxIsSbox<W(!new), B(!new)>(m: Box<W, B>, x: W)
    requires Laws(m)
    ensures TboxT(m, x) == SboxT(m, x)
  {
    var a, b, c, d := Placed(m, x, 3), Placed(m, x, 2), Placed(m, x, 1), Placed(m, x, 0);
    assert TableAt(m, m.byte(x, 0), 0) && TableAt(m, m.byte(x, 1), 1);
    assert TableAt(m, m.byte(x, 2), 2) && TableAt(m, m.byte(x, 3), 3);
    assert BytesAt(m, x);
    LAdds(m, m.G.op(m.G.op(a, b), c), d);
    LAdds(m, m.G.op(a, b), c);
    LAdds(m, a, b);
    assert L(m, a) == Looked(m, x, 3) by { TopByte(m, x); }
    Backwards(m.G, L(m, a), L(m, b), L(m, c), L(m, d));
  }

  lemma TopByte<W(!new), B(!new)>(m: Box<W, B>, x: W)
    requires Laws(m)
    ensures L(m, Placed(m, x, 3)) == Looked(m, x, 3)
  {
    assert TableAt(m, m.byte(x, 3), 3);
  }

  /** f is exclusive or and the T of the lookups. */
  ghost predicate Tabled<W(!new), B>(m: Box<W, B>, f: Words<W>) {
    f.xor == m.G.op && forall x :: f.t(x) == TboxT(m, x)
  }

  /** ROUND_TBOX as written: x0 accumulates the lookups and x4 loses a byte at a time. */
  method RoundTbox<W(!new), B(!new)>(m: Box<W, B>, ghost f: Words<W>, y0: W, x1: W, x2: W, x3: W, rk: W) returns (x4: W, x0: W)
    requires Laws(m) && Tabled(m, f)
    ensures x4 == Next(f, y0, x1, x2, x3, rk)
  {
    x0 := y0;
    x4 := m.G.op(m.G.op(m.G.op(x1, x2), x3), rk);
    ghost var w := x4;
    assert BytesAt(m, w);
    var t0 := m.turn(m.t(m.low(x4)), 0);
    x4 := m.shr8(x4);
    x0 := m.G.op(x0, t0);
    t0 := m.turn(m.t(m.low(x4)), 1);
    x4 := m.shr8(x4);
    x0 := m.G.op(x0, t0);
    t0 := m.turn(m.t(m.low(x4)), 2);
    x4 := m.shr8(x4);
    x0 := m.G.op(x0, t0);
    var t1 := m.turn(m.t(m.low(x4)), 3);
    Identity(m.G, [y0, Looked(m, w, 0), Looked(m, w, 1), Looked(m, w, 2), Looked(m, w, 3)],
      Op(Op(Op(Op(Leaf(0), Leaf(1)), Leaf(2)), Leaf(3)), Leaf(4)),
      Op(Leaf(0), Op(Op(Op(Leaf(1), Leaf(2)), Leaf(3)), Leaf(4))));
    x4 := m.G.op(x0, t1);
  }

  // ------------------------------------------------------------ five registers

  /** Five lines of ROUNDS: after them every register has the role it started with. */
  method FiveRounds<W(!new), B(!new)>(m: Box<W, B>, ghost f: Words<W>, rk: seq<W>, i: nat, ghost s: State<W>, y0: W, y1: W, y2: W, y3: W)
    returns (x0: W, x1: W, x2: W, x3: W)
    requires Laws(m) && Tabled(m, f) && i + 5 <= |rk| && After(f, rk, i, s, y0, y1, y2, y3)
    ensures After(f, rk, i + 5, s, x0, x1, x2, x3)
  {
    x0, x1, x2, x3 := y0, y1, y2, y3;
    var x4;
    x4, x0 := Line(m, f, rk, i, s, x0, x1, x2, x3);
    x0, x1 := Line(m, f, rk, i + 1, s, x1, x2, x3, x4);
    x1, x2 := Line(m, f, rk, i + 2, s, x2, x3, x4, x0);
    x2, x3 := Line(m, f, rk, i + 3, s, x3, x4, x0, x1);
    x3, x4 := Line(m, f, rk, i + 4, s, x4, x0, x1, x2);
  }

  /** One line: the register in front is used up, and overwritten by the next line. */
  method Line<W(!new), B(!new)>(m: Box<W, B>, ghost f: Words<W>, rk: seq<W>, i: nat, ghost s: State<W>, y0: W, x1: W, x2: W, x3: W)
    returns (x4: W, x0: W)
    requires Laws(m) && Tabled(m, f) && i < |rk| && After(f, rk, i, s, y0, x1, x2, x3)
    ensures After(f, rk, i + 1, s, x1, x2, x3, x4)
  {
    x4, x0 := RoundTbox(m, f, y0, x1, x2, x3, rk[i]);
    Prefix(f, s, rk, i);
  }

  /** ROUNDS and the output order of sm4_encrypt: the registers hold the flipped last state. */
  method Rounds<W(!new), B(!new)>(m: Box<W, B>, ghost f: Words<W>, rk: seq<W>, s: State<W>) returns (r: State<W>)
    requires Laws(m) && Tabled(m, f) && |rk| == 32
    ensures r == Crypt(f, s, rk)
  {
    var x0, x1, x2, x3 := s.a, s.b, s.c, s.d;
    FirstState(f, rk, s);
    x0, x1, x2, x3 := FiveRounds(m, f, rk, 0, s, x0, x1, x2, x3);
    x0, x1, x2, x3 := FiveRounds(m, f, rk, 5, s, x0, x1, x2, x3);
    x0, x1, x2, x3 := FiveRounds(m, f, rk, 10, s, x0, x1, x2, x3);
    x0, x1, x2, x3 := FiveRounds(m, f, rk, 15, s, x0, x1, x2, x3);
    x0, x1, x2, x3 := FiveRounds(m, f, rk, 20, s, x0, x1, x2, x3);
    x0, x1, x2, x3 := FiveRounds(m, f, rk, 25, s, x0, x1, x2, x3);
    var x4;
    x4, x0 := Line(m, f, rk, 30, s, x0, x1, x2, x3);
    x0, x1 := Line(m, f, rk, 31, s, x1, x2, x3, x4);
    assert rk[..32] == rk;
    r := State(x0, x4, x3, x2);
  }
}
