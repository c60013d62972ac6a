/** The coefficients of the polynomial that a block of 16 bytes stands for. */
module Gf128Coefficients {
  import opened Gf2Poly
  import opened Gf128Algebra
  import opened Gf128
  import opened Gf128Bytes

  /** Bit k of a byte, bit 0 the lowest. */
  predicate Bit(b: byte, k: nat)
    requires k < 8
  {
    match k
    case 0 => b & 1 != 0
    case 1 => b & 2 != 0
    case 2 => b & 4 != 0
    case 3 => b & 8 != 0
    case 4 => b & 0x10 != 0
    case 5 => b & 0x20 != 0
    case 6 => b & 0x40 != 0
    case _ => b & 0x80 != 0
  }

  /** has tells the bits of a word: bit 0 is the low bit, and a shift to the right moves the others down. */
  ghost predicate ShiftAt(has: (bv64, int) -> bool, w: bv64, i: nat) {
    has(w, i) <==> if i == 0 then LowBit(w) else has(w >> 1, i - 1)
  }

  ghost predicate TellsBits(has: (bv64, int) -> bool) { forall w: bv64, i: nat :: ShiftAt(has, w, i) }

  lemma HasTellsBits()
    ensures TellsBits(Has)
  {
    forall w: bv64, i: nat ensures ShiftAt(Has, w, i) { HasShr(w, i); }
  }

  lemma ShiftTwice(w: bv64)
    ensures w >> 1 >> 1 == w >> 2 && w >> 2 >> 1 == w >> 3 && w >> 3 >> 1 == w >> 4 && w >> 4 >> 4 == w >> 8
  {
  }

  predicate LowAt(w: bv64, k: nat)
    requires k < 4
  {
    match k
    case 0 => LowBit(w)
    case 1 => LowBit(w >> 1)
    case 2 => LowBit(w >> 2)
    case _ => LowBit(w >> 3)
  }

  lemma LowBits(has: (bv64, int) -> bool, w: bv64, k: nat)
    requires TellsBits(has) && k < 4
    ensures has(w, k) <==> LowAt(w, k)
  {
    ShiftTwice(w);
    assert ShiftAt(has, w, k);
    if k > 0 { assert ShiftAt(has, w >> 1, k - 1); }
    if k > 1 { assert ShiftAt(has, w >> 2, k - 2); }
    if k > 2 { assert ShiftAt(has, w >> 3, k - 3); }
  }

  lemma HasShr4(has: (bv64, int) -> bool, w: bv64, k: nat)
    requires TellsBits(has)
    ensures has(w, 4 + k) <==> has(w >> 4, k)
  {
    ShiftTwice(w);
    assert ShiftAt(has, w, 4 + k) && ShiftAt(has, w >> 1, 3 + k) && ShiftAt(has, w >> 2, 2 + k) && ShiftAt(has, w >> 3, 1 + k);
  }

  lemma HasShr8(has: (bv64, int) -> bool, w: bv64, k: nat)
    requires TellsBits(has)
    ensures has(w, 8 + k) <==> has(w >> 8, k)
  {
    HasShr4(has, w, 4 + k);
    HasShr4(has, w >> 4, k);
    ShiftTwice(w);
  }

  lemma LowNibble(w: bv64, k: nat)
    requires k < 4
    ensures LowAt(w, k) <==> Bit(ByteOf(w), k)
  {
  }

  lemma HighNibble(w: bv64, k: nat)
    requires k < 4
    ensures LowAt(w >> 4, k) <==> Bit(ByteOf(w), 4 + k)
  {
  }

  /** The low bits of a word are those of its low byte. */
  lemma LowByte(has: (bv64, int) -> bool, w: bv64, k: nat)
    requires TellsBits(has) && k < 8
    ensures has(w, k) <==> Bit(ByteOf(w), k)
  {
    if k < 4 {
      LowBits(has, w, k);
      LowNibble(w, k);
    } else {
      HasShr4(has, w, k - 4);
      LowBits(has, w >> 4, k - 4);
      HighNibble(w, k - 4);
    }
  }

  /** w shifted to the right by m bytes. */
  function Bytes(w: bv64, m: nat): bv64 { if m == 0 then w else Bytes(w >> 8, m - 1) }

  lemma {:induction false} HasBytes(has: (bv64, int) -> bool, w: bv64, m: nat, k: nat)
    requires TellsBits(has)
    ensures has(w, 8 * m + k) <==> has(Bytes(w, m), k)
    decreases m
  {
    if m > 0 {
      HasShr8(has, w, 8 * (m - 1) + k);
      HasBytes(has, w >> 8, m - 1, k);
    }
  }

  lemma {:induction false} BytesAdd(w: bv64, m: nat, n: nat)
    ensures Bytes(w, m + n) == Bytes(Bytes(w, m), n)
  {
    if m > 0 {
      BytesAdd(w >> 8, m - 1, n);
    }
  }

  lemma ShiftBytes(w: bv64)
    ensures w >> 8 >> 8 == w >> 16 && w >> 16 >> 8 == w >> 24 && w >> 24 >> 8 == w >> 32
    ensures w >> 32 >> 8 == w >> 40 && w >> 32 >> 16 == w >> 48 && w >> 32 >> 24 == w >> 56
  {
  }

  lemma FirstBytes(w: bv64)
    ensures Bytes(w, 0) == w && Bytes(w, 1) == w >> 8 && Bytes(w, 2) == w >> 16 && Bytes(w, 3) == w >> 24
  {
    ShiftBytes(w);
    BytesAdd(w, 1, 1);
    BytesAdd(w, 2, 1);
    assert Bytes(w >> 8, 0) == w >> 8 && Bytes(w >> 16, 0) == w >> 16 && Bytes(w >> 24, 0) == w >> 24;
  }

  lemma LastBytes(w: bv64)
    ensures Bytes(w, 4) == w >> 32 && Bytes(w, 5) == w >> 40 && Bytes(w, 6) == w >> 48 && Bytes(w, 7) == w >> 56
  {
    ShiftBytes(w);
    FirstBytes(w);
    BytesAdd(w, 3, 1);
    assert Bytes(w >> 32, 0) == w >> 32;
    FirstBytes(w >> 32);
    BytesAdd(w, 4, 1);
    BytesAdd(w, 4, 2);
    BytesAdd(w, 4, 3);
  }

  /** Byte i of a stored word, from the top. */
  lemma ByteAt(w: bv64, i: nat)
    requires i < 8
    ensures PutU64(w)[i] == ByteOf(Bytes(w, 7 - i))
  {
    if i < 4 {
      LastBytes(w);
      assert i == 0 || i == 1 || i == 2 || i == 3;
    } else {
      FirstBytes(w);
      assert i == 4 || i == 5 || i == 6 || i == 7;
    }
  }

  lemma ByteBit(has: (bv64, int) -> bool, w: bv64, b: byte, m: nat, k: nat)
    requires TellsBits(has) && k < 8 && b == ByteOf(Bytes(w, m))
    ensures has(w, 8 * m + k) <==> Bit(b, k)
  {
    HasBytes(has, w, m, k);
    LowByte(has, Bytes(w, m), k);
  }

  lemma ByteStored(p: seq<byte>, w: bv64, i: nat)
    requires |p| == 8 && w == GetU64(p) && i < 8
    ensures p[i] == ByteOf(Bytes(w, 7 - i))
  {
    PutGet(p);
    ByteAt(w, i);
  }

  /** Bit j of byte i from the top, in a reversed word. */
  lemma WordBit(p: seq<byte>, i: nat, j: nat)
    requires |p| == 8 && i < 8 && j < 8
    ensures Has(ReverseBits(GetU64(p)), 8 * i + j) <==> Bit(p[i], 7 - j)
  {
    var w := GetU64(p);
    ByteStored(p, w, i);
    ReverseMirrors(w, 8 * i + j);
    HasTellsBits();
    MirroredBit(Has, ReverseBits(w), w, p[i], i, j);
  }

  lemma MirroredBit(has: (bv64, int) -> bool, r: bv64, w: bv64, b: byte, i: nat, j: nat)
    requires TellsBits(has) && i < 8 && j < 8 && b == ByteOf(Bytes(w, 7 - i))
    requires has(r, 8 * i + j) <==> has(w, 63 - (8 * i + j))
    ensures has(r, 8 * i + j) <==> Bit(b, 7 - j)
  {
    assert 63 - (8 * i + j) == 8 * (7 - i) + (7 - j);
    ByteBit(has, w, b, 7 - i, 7 - j);
  }

  /** x^(8 i + j) has the bit 7 - j of byte i for its coefficient, and there are no higher powers. */
  lemma CoefficientIs(p: seq<byte>, i: nat, j: nat)
    requires |p| == 16 && i < 16 && j < 8
    ensures 8 * i + j in Polynomial(FromBytes(p)) <==> Bit(p[i], 7 - j)
    ensures forall n :: n in Polynomial(FromBytes(p)) ==> n < 128
  {
    var a := FromBytes(p);
    KitLaws();
    CoeffsBelow(Kit64(), a);
    ExponentsBelow(a.lo);
    JoinHas(Exponents(a.hi), Exponents(a.lo), 8 * i + j);
    if i < 8 {
      WordBit(p[..8], i, j);
    } else {
      WordBit(p[8..], i - 8, j);
    }
  }
}
