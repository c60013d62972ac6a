/** The loop of reverse_bits over words of any type. */
module Reversal {

  /** The low bit, taking it over into the result, and the two shifts. */
  datatype Mover<!W> = Mover(low: W -> bool, take: (W, W) -> W, shl: W -> W, shr: W -> W)

  /** The loop from n rounds before its end. */
  function ReverseFrom<W>(m: Mover<W>, r: W, a: W, n: nat): W
    decreases n
  {
    if n == 0 then m.take(r, a) else ReverseFrom(m, m.shl(m.take(r, a)), m.shr(a), n - 1)
  }

  /** What each operation does to bit i, where has tells the bits of a word. */
  ghost predicate ShrAt<W>(m: Mover<W>, has: (W, int) -> bool, a: W, i: nat) {
    has(a, i) <==> if i == 0 then m.low(a) else has(m.shr(a), i - 1)
  }

  ghost predicate ShlAt<W>(m: Mover<W>, has: (W, int) -> bool, r: W, i: nat) {
    !m.low(m.shl(r)) && (has(m.shl(r), i) <==> 1 <= i < 64 && has(r, i - 1))
  }

  ghost predicate TakeAt<W>(m: Mover<W>, has: (W, int) -> bool, r: W, a: W, i: nat) {
    !m.low(r) ==> (has(m.take(r, a), i) <==> if i == 0 then m.low(a) else has(r, i))
  }

  ghost predicate MoverAt<W>(m: Mover<W>, has: (W, int) -> bool, r: W, a: W, i: nat) {
    ShrAt(m, has, a, i) && ShlAt(m, has, r, i) && TakeAt(m, has, r, a, i)
  }

  /** r is even and leaves room for n more rounds. */
  ghost predicate Room<W>(m: Mover<W>, has: (W, int) -> bool, r: W, n: nat) {
    n <= 63 && !m.low(r) && forall j: nat :: has(r, j) ==> j < 64 - n
  }

  /** Bits up to n of a are in out, mirrored, below those of r. */
  ghost predicate Mirrored<W>(has: (W, int) -> bool, out: W, r: W, a: W, n: nat, i: nat) {
    has(out, i) <==> i < 64 && if i <= n then has(a, n - i) else has(r, i - n)
  }

  lemma {:induction false} ReverseFromIs<W(!new)>(m: Mover<W>, has: (W, int) -> bool, r: W, a: W, n: nat, i: nat)
    requires Room(m, has, r, n) && forall r, a, i :: MoverAt(m, has, r, a, i)
    ensures Mirrored(has, ReverseFrom(m, r, a, n), r, a, n, i)
    decreases n
  {
    assert MoverAt(m, has, r, a, 0);
    if n == 0 {
      assert MoverAt(m, has, r, a, i);
    } else {
      var s := m.take(r, a);
      forall j: nat | has(m.shl(s), j) ensures j < 64 - (n - 1) {
        assert MoverAt(m, has, s, a, j);
        if j > 0 { assert MoverAt(m, has, r, a, j - 1); }
      }
      assert MoverAt(m, has, s, a, 0);
      ReverseFromIs(m, has, m.shl(s), m.shr(a), n - 1, i);
      if i < n {
        assert MoverAt(m, has, r, a, n - i);
      } else {
        assert MoverAt(m, has, s, a, i - (n - 1)) && MoverAt(m, has, r, a, i - n);
      }
    }
  }
}

/** The byte form of field elements: gf128_from_bytes, gf128_to_bytes and reverse_bits. */
module Gf128Bytes {
  import opened Gf2Poly
  import opened WordBits
  import opened Gf128Algebra
  import opened Gf128
  import opened Reversal

  function LowBit(a: bv64): bool { a & 1 == 1 }

  function TakeBit(r: bv64, a: bv64): bv64 { r | (a & 1) }

  function ShiftRight(a: bv64): bv64 { a >> 1 }

  function Reverser(): Mover<bv64> { Mover(LowBit, TakeBit, ShiftLeft, ShiftRight) }

  function ReverseBits(a: bv64): bv64 { ReverseFrom(Reverser(), 0, a, 63) }

  method Reverse(a0: bv64) returns (r: bv64)
    ensures r == ReverseBits(a0)
  {
    var a, i := a0, 0;
    r := 0;
    while i < 63
      invariant 0 <= i <= 63 && ReverseFrom(Reverser(), r, a, 63 - i) == ReverseBits(a0)
    {
      ReverseUnfold(r, a, 63 - i);
      r := TakeBit(r, a);
      r := ShiftLeft(r);
      a := ShiftRight(a);
      i := i + 1;
    }
    r := TakeBit(r, a);
  }

  lemma ReverseUnfold(r: bv64, a: bv64, n: nat)
    requires n > 0
    ensures ReverseFrom(Reverser(), r, a, n) == ReverseFrom(Reverser(), ShiftLeft(TakeBit(r, a)), ShiftRight(a), n - 1)
  {
  }

  // ------------------------------------------------------------ reversal mirrors the exponents

  /** A word from its upper bits, shifted back, and its low bit. */
  ghost predicate Parts(a: bv64, half: bv64, even: bv64, low: bv64) {
    a == even ^ low && even == half << 1 && low == a & 1 && !TopBit(half)
  }

  lemma LowSplit(a: bv64)
    ensures Parts(a, a >> 1, a >> 1 << 1, a & 1)
  {
  }

  lemma LowWord(a: bv64)
    ensures a & 1 == if LowBit(a) then 1 else 0
  {
  }

  lemma LowExponent(a: bv64)
    ensures Exponents(a & 1) == Maybe(LowBit(a), 0)
  {
    LowWord(a);
    ExponentsOfOne();
    ExponentsZero();
  }

  lemma ShrParts(a: bv64, half: bv64, even: bv64, low: bv64)
    requires Parts(a, half, even, low)
    ensures Exponents(a) == Shift(Exponents(half), 1) + Maybe(LowBit(a), 0)
  {
    ExponentsXor(even, low);
    ExponentsShl(half);
    LowExponent(a);
    AddLow(Exponents(even), LowBit(a));
  }

  ghost function Has(w: bv64, i: int): bool { i >= 0 && i in Exponents(w) }

  /** A right shift drops x^0 and divides the rest by x. */
  lemma HasShr(a: bv64, i: nat)
    ensures Has(a, i) <==> if i == 0 then LowBit(a) else Has(a >> 1, i - 1)
  {
    LowSplit(a);
    HasShrParts(a, a >> 1, a >> 1 << 1, a & 1, i);
  }

  lemma HasShrParts(a: bv64, half: bv64, even: bv64, low: bv64, i: nat)
    requires Parts(a, half, even, low)
    ensures Has(a, i) <==> if i == 0 then LowBit(a) else Has(half, i - 1)
  {
    ShrParts(a, half, even, low);
    ShiftHas(Exponents(half), 1, i);
  }

  lemma AddLow(S: set<nat>, p: bool)
    requires 0 !in S
    ensures Plus(S, Maybe(p, 0)) == S + Maybe(p, 0) && S + Maybe(false, 64) == S
  {
  }

  lemma OrLow(r: bv64, a: bv64)
    requires !LowBit(r)
    ensures r | (a & 1) == r ^ (a & 1)
  {
  }

  lemma NextEven(s: bv64)
    ensures !LowBit(s << 1)
  {
  }

  lemma EvenExponents(r: bv64)
    requires !LowBit(r)
    ensures 0 !in Exponents(r)
  {
    HasShr(r, 0);
  }

  /** out is the even word r with the bit p put in at the bottom. */
  ghost predicate Appended(r: bv64, out: bv64, p: bool) {
    Exponents(out) == Exponents(r) + Maybe(p, 0) && 0 !in Exponents(r)
  }

  lemma TakeIs(r: bv64, a: bv64)
    requires !LowBit(r)
    ensures Appended(r, TakeBit(r, a), LowBit(a))
  {
    OrLow(r, a);
    EvenExponents(r);
    OrParts(r, a, a & 1);
  }

  lemma OrParts(r: bv64, a: bv64, low: bv64)
    requires low == a & 1 && 0 !in Exponents(r)
    ensures Exponents(r ^ low) == Exponents(r) + Maybe(LowBit(a), 0)
  {
    ExponentsXor(r, low);
    LowExponent(a);
    AddLow(Exponents(r), LowBit(a));
  }

  lemma HasShl(r: bv64, i: nat)
    ensures Has(ShiftLeft(r), i) <==> 1 <= i < 64 && Has(r, i - 1)
  {
    ExponentsShl(r);
    ExponentsBelow(ShiftLeft(r));
    ShiftHas(Exponents(r), 1, i);
  }

  lemma HasTake(r: bv64, a: bv64, i: nat)
    requires !LowBit(r)
    ensures Has(TakeBit(r, a), i) <==> if i == 0 then LowBit(a) else Has(r, i)
  {
    TakeIs(r, a);
    TakeParts(r, TakeBit(r, a), LowBit(a), i);
  }

  lemma TakeParts(r: bv64, out: bv64, p: bool, i: nat)
    requires Appended(r, out, p)
    ensures Has(out, i) <==> if i == 0 then p else Has(r, i)
  {
  }

  lemma MoverShr(a: bv64, i: nat)
    ensures ShrAt(Reverser(), Has, a, i)
  {
    HasShr(a, i);
  }

  lemma MoverShl(r: bv64, i: nat)
    ensures ShlAt(Reverser(), Has, r, i)
  {
    HasShl(r, i);
    NextEven(r);
  }

  lemma MoverTake(r: bv64, a: bv64, i: nat)
    ensures TakeAt(Reverser(), Has, r, a, i)
  {
    if !LowBit(r) { HasTake(r, a, i); }
  }

  lemma MoverLawsAt(r: bv64, a: bv64, i: nat)
    ensures MoverAt(Reverser(), Has, r, a, i)
  {
    MoverShr(a, i);
    MoverShl(r, i);
    MoverTake(r, a, i);
  }

  /** reverse_bits puts bit 63 - i where bit i was. */
  lemma ReverseMirrors(a: bv64, i: nat)
    requires i < 64
    ensures Has(ReverseBits(a), i) <==> Has(a, 63 - i)
  {
    ExponentsZero();
    assert !LowBit(0);
    forall r: bv64, b: bv64, j: nat ensures MoverAt(Reverser(), Has, r, b, j) { MoverLawsAt(r, b, j); }
    ReverseFromIs(Reverser(), Has, 0, a, 63, i);
    assert Mirrored(Has, ReverseBits(a), 0, a, 63, i);
  }

  lemma ReverseTwice(a: bv64)
    ensures ReverseBits(ReverseBits(a)) == a
  {
    var b := ReverseBits(a);
    ExponentsBelow(a);
    ExponentsBelow(ReverseBits(b));
    forall i: nat ensures i in Exponents(ReverseBits(b)) <==> i in Exponents(a) {
      if i < 64 {
        ReverseMirrors(b, i);
        ReverseMirrors(a, 63 - i);
        assert Has(ReverseBits(b), i) <==> Has(a, i);
      }
    }
    ExponentsInjective(ReverseBits(b), a);
  }

  // ------------------------------------------------------------ bytes

  type byte = bv8

  function GetU64(p: seq<byte>): bv64
    requires |p| == 8
  {
    ((p[0] as bv64) << 56) | ((p[1] as bv64) << 48) | ((p[2] as bv64) << 40) | ((p[3] as bv64) << 32) |
    ((p[4] as bv64) << 24) | ((p[5] as bv64) << 16) | ((p[6] as bv64) << 8) | (p[7] as bv64)
  }

  function ByteOf(w: bv64): byte { (w & 0xff) as byte }

  function PutU64(w: bv64): (p: seq<byte>)
    ensures |p| == 8
  {
    [ByteOf(w >> 56), ByteOf(w >> 48), ByteOf(w >> 40), ByteOf(w >> 32),
     ByteOf(w >> 24), ByteOf(w >> 16), ByteOf(w >> 8), ByteOf(w)]
  }

  function FromBytes(p: seq<byte>): Gf
    requires |p| == 16
  {
    Pair(ReverseBits(GetU64(p[8..])), ReverseBits(GetU64(p[..8])))
  }

  function ToBytes(a: Gf): (p: seq<byte>)
    ensures |p| == 16
  {
    PutU64(ReverseBits(a.lo)) + PutU64(ReverseBits(a.hi))
  }

  lemma BytesOfWord(a: byte, b: byte, c: byte, d: byte, e: byte, f: byte, g: byte, h: byte)
    ensures var w := ((a as bv64) << 56) | ((b as bv64) << 48) | ((c as bv64) << 40) | ((d as bv64) << 32) |
              ((e as bv64) << 24) | ((f as bv64) << 16) | ((g as bv64) << 8) | (h as bv64);
      ByteOf(w >> 56) == a && ByteOf(w >> 48) == b && ByteOf(w >> 40) == c && ByteOf(w >> 32) == d &&
      ByteOf(w >> 24) == e && ByteOf(w >> 16) == f && ByteOf(w >> 8) == g && ByteOf(w) == h
  {
  }

  lemma PutGet(p: seq<byte>)
    requires |p| == 8
    ensures PutU64(GetU64(p)) == p
  {
    BytesOfWord(p[0], p[1], p[2], p[3], p[4], p[5], p[6], p[7]);
    assert p == [p[0], p[1], p[2], p[3], p[4], p[5], p[6], p[7]];
  }

  /** The byte form loses nothing. */
  lemma BytesRoundTrip(p: seq<byte>)
    requires |p| == 16
    ensures ToBytes(FromBytes(p)) == p
  {
    ReverseTwice(GetU64(p[8..]));
    ReverseTwice(GetU64(p[..8]));
    PutGet(p[8..]);
    PutGet(p[..8]);
    assert p[..8] + p[8..] == p;
  }
}
