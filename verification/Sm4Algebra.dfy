/** The S-box of SM4 by its definition: an affine map, the inverse in GF(2^8), and the same affine map. */
module Sm4Algebra {
  import opened Sm4Tables

  function Rotl(x: bv8, n: bv8): bv8
    requires 0 < n < 8
  {
    (x << n) | (x >> (8 - n))
  }

  /** A circulant matrix and the constant 11010011. */
  function Affine(x: bv8): bv8 { x ^ Rotl(x, 1) ^ Rotl(x, 3) ^ Rotl(x, 6) ^ Rotl(x, 7) ^ 0xd3 }

  /** Multiplication by x modulo x^8 + x^7 + x^6 + x^5 + x^4 + x^2 + 1. */
  function TimesX(a: bv8): bv8 { (a << 1) ^ (if a & 0x80 != 0 then 0xf5 else 0) }

  function Horner(r: bv8, a: bv8, bit: bv8): bv8 { TimesX(r) ^ (if bit != 0 then a else 0) }

  /** The product in GF(2^8), the bits of b from the top. */
  function Product(a: bv8, b: bv8): bv8 {
    var r := Horner(Horner(Horner(Horner(0, a, b & 0x80), a, b & 0x40), a, b & 0x20), a, b & 0x10);
    Horner(Horner(Horner(Horner(r, a, b & 8), a, b & 4), a, b & 2), a, b & 1)
  }

  /** v is the inverse of u, 0 being its own. */
  ghost predicate Inverses(u: bv8, v: bv8) { if u == 0 then v == 0 else Product(u, v) == 1 }

  function Unaffine(y: bv8): bv8 {
    var x := y ^ 0xd3;
    x ^ Rotl(x, 2) ^ Rotl(x, 7)
  }

  lemma AffineBack(y: bv8)
    ensures Affine(Unaffine(y)) == y
  {
  }

  /** s is the value of the S-box at b by its definition. */
  ghost predicate Defined(b: bv8, s: bv8) { Inverses(Affine(b), Unaffine(s)) }

  function Low(c: nat): bv8
    requires c < 16
  {
    [0, 1, 2, 3, 4, 5, 6, 7, 8, 9, 10, 11, 12, 13, 14, 15][c]
  }

  lemma Row0Start(b: bv8, s: bv8, c: nat)
    requires c < 8 && b == Low(c) && s == SRow0(c)
    ensures Defined(b, s)
  {
    if c < 2 { } else if c < 4 { } else if c < 6 { }
  }

  lemma Row0(b: bv8, s: bv8, c: nat)
    requires c < 16 && b == Low(c) && s == SRow0(c)
    ensures Defined(b, s)
  {
    if c < 8 { Row0Start(b, s, c); } else if c < 10 { } else if c < 12 { } else if c < 14 { }
  }

  lemma Row1(b: bv8, s: bv8, c: nat)
    requires c < 16 && b == 0x10 | Low(c) && s == SRow1(c)
    ensures Defined(b, s)
  {
    if c < 2 { } else if c < 4 { } else if c < 6 { } else if c < 8 { } else if c < 10 { } else if c < 12 { } else if c < 14 { }
  }

  lemma Row2(b: bv8, s: bv8, c: nat)
    requires c < 16 && b == 0x20 | Low(c) && s == SRow2(c)
    ensures Defined(b, s)
  {
    if c < 2 { } else if c < 4 { } else if c < 6 { } else if c < 8 { } else if c < 10 { } else if c < 12 { } else if c < 14 { }
  }

  lemma Row3(b: bv8, s: bv8, c: nat)
    requires c < 16 && b == 0x30 | Low(c) && s == SRow3(c)
    ensures Defined(b, s)
  {
    if c < 2 { } else if c < 4 { } else if c < 6 { } else if c < 8 { } else if c < 10 { } else if c < 12 { } else if c < 14 { }
  }

  lemma Row4(b: bv8, s: bv8, c: nat)
    requires c < 16 && b == 0x40 | Low(c) && s == SRow4(c)
    ensures Defined(b, s)
  {
    if c < 2 { } else if c < 4 { } else if c < 6 { } else if c < 8 { } else if c < 10 { } else if c < 12 { } else if c < 14 { }
  }

  lemma Row5(b: bv8, s: bv8, c: nat)
    requires c < 16 && b == 0x50 | Low(c) && s == SRow5(c)
    ensures Defined(b, s)
  {
    if c < 2 { } else if c < 4 { } else if c < 6 { } else if c < 8 { } else if c < 10 { } else if c < 12 { } else if c < 14 { }
  }

  lemma Row6(b: bv8, s: bv8, c: nat)
    requires c < 16 && b == 0x60 | Low(c) && s == SRow6(c)
    ensures Defined(b, s)
  {
    if c < 2 { } else if c < 4 { } else if c < 6 { } else if c < 8 { } else if c < 10 { } else if c < 12 { } else if c < 14 { }
  }

  lemma Row7(b: bv8, s: bv8, c: nat)
    requires c < 16 && b == 0x70 | Low(c) && s == SRow7(c)
    ensures Defined(b, s)
  {
    if c < 2 { } else if c < 4 { } else if c < 6 { } else if c < 8 { } else if c < 10 { } else if c < 12 { } else if c < 14 { }
  }

  lemma Row8(b: bv8, s: bv8, c: nat)
    requires c < 16 && b == 0x80 | Low(c) && s == SRow8(c)
    ensures Defined(b, s)
  {
    if c < 2 { } else if c < 4 { } else if c < 6 { } else if c < 8 { } else if c < 10 { } else if c < 12 { } else if c < 14 { }
  }

  lemma Row9(b: bv8, s: bv8, c: nat)
    requires c < 16 && b == 0x90 | Low(c) && s == SRow9(c)
    ensures Defined(b, s)
  {
    if c < 2 { } else if c < 4 { } else if c < 6 { } else if c < 8 { } else if c < 10 { } else if c < 12 { } else if c < 14 { }
  }

  lemma Row10(b: bv8, s: bv8, c: nat)
    requires c < 16 && b == 0xa0 | Low(c) && s == SRow10(c)
    ensures Defined(b, s)
  {
    if c < 2 { } else if c < 4 { } else if c < 6 { } else if c < 8 { } else if c < 10 { } else if c < 12 { } else if c < 14 { }
  }

  lemma Row11(b: bv8, s: bv8, c: nat)
    requires c < 16 && b == 0xb0 | Low(c) && s == SRow11(c)
    ensures Defined(b, s)
  {
    if c < 2 { } else if c < 4 { } else if c < 6 { } else if c < 8 { } else if c < 10 { } else if c < 12 { } else if c < 14 { }
  }

  lemma Row12(b: bv8, s: bv8, c: nat)
    requires c < 16 && b == 0xc0 | Low(c) && s == SRow12(c)
    ensures Defined(b, s)
  {
    if c < 2 { } else if c < 4 { } else if c < 6 { } else if c < 8 { } else if c < 10 { } else if c < 12 { } else if c < 14 { }
  }

  lemma Row13(b: bv8, s: bv8, c: nat)
    requires c < 16 && b == 0xd0 | Low(c) && s == SRow13(c)
    ensures Defined(b, s)
  {
    if c < 2 { } else if c < 4 { } else if c < 6 { } else if c < 8 { } else if c < 10 { } else if c < 12 { } else if c < 14 { }
  }

  lemma Row14(b: bv8, s: bv8, c: nat)
    requires c < 16 && b == 0xe0 | Low(c) && s == SRow14(c)
    ensures Defined(b, s)
  {
    if c < 2 { } else if c < 4 { } else if c < 6 { } else if c < 8 { } else if c < 10 { } else if c < 12 { } else if c < 14 { }
  }

  lemma Row15(b: bv8, s: bv8, c: nat)
    requires c < 16 && b == 0xf0 | Low(c) && s == SRow15(c)
    ensures Defined(b, s)
  {
    if c < 2 { } else if c < 4 { } else if c < 6 { } else if c < 8 { } else if c < 10 { } else if c < 12 { } else if c < 14 { }
  }

  /** The rows of the table, as Row0 to Row15 above have them. */
  function SRow(r: nat, c: nat): bv8
    requires r < 16 && c < 16
  {
    if r < 8 then UpperRow(r, c) else LowerRow(r, c)
  }

  function UpperRow(r: nat, c: nat): bv8
    requires r < 8 && c < 16
  {
    match r
    case 0 => SRow0(c)
    case 1 => SRow1(c)
    case 2 => SRow2(c)
    case 3 => SRow3(c)
    case 4 => SRow4(c)
    case 5 => SRow5(c)
    case 6 => SRow6(c)
    case _ => SRow7(c)
  }

  function LowerRow(r: nat, c: nat): bv8
    requires 8 <= r < 16 && c < 16
  {
    match r
    case 8 => SRow8(c)
    case 9 => SRow9(c)
    case 10 => SRow10(c)
    case 11 => SRow11(c)
    case 12 => SRow12(c)
    case 13 => SRow13(c)
    case 14 => SRow14(c)
    case _ => SRow15(c)
  }

  lemma Place(r: nat, c: nat)
    requires r < 16 && c < 16
    ensures 16 * r + c < 256 && (16 * r + c) / 16 == r && (16 * r + c) % 16 == c
  {
  }

  lemma RowOf(r: nat, c: nat)
    requires r < 16 && c < 16
    ensures 16 * r + c < 256 && SM4_S(16 * r + c) == SRow(r, c)
  {
    Place(r, c);
  }

  lemma Upper(b: bv8, s: bv8, r: nat, c: nat)
    requires r < 8 && c < 16 && b == (Low(r) << 4) | Low(c) && s == UpperRow(r, c)
    ensures Defined(b, s)
  {
    match r
    case 0 => Row0(b, s, c);
    case 1 => Row1(b, s, c);
    case 2 => Row2(b, s, c);
    case 3 => Row3(b, s, c);
    case 4 => Row4(b, s, c);
    case 5 => Row5(b, s, c);
    case 6 => Row6(b, s, c);
    case _ => Row7(b, s, c);
  }

  lemma Lower(b: bv8, s: bv8, r: nat, c: nat)
    requires 8 <= r < 16 && c < 16 && b == (Low(r) << 4) | Low(c) && s == LowerRow(r, c)
    ensures Defined(b, s)
  {
    match r
    case 8 => Row8(b, s, c);
    case 9 => Row9(b, s, c);
    case 10 => Row10(b, s, c);
    case 11 => Row11(b, s, c);
    case 12 => Row12(b, s, c);
    case 13 => Row13(b, s, c);
    case 14 => Row14(b, s, c);
    case _ => Row15(b, s, c);
  }

  lemma LowIs(b: bv8)
    requires b < 16
    ensures (b as nat) < 16 && Low(b as nat) == b
  {
  }

  lemma Split(b: bv8)
    ensures b as nat == 16 * ((b >> 4) as nat) + ((b & 0xf) as nat) && b == ((b >> 4) << 4) | (b & 0xf)
    ensures b >> 4 < 16 && b & 0xf < 16
  {
  }

  lemma Places(b: bv8) returns (r: nat, c: nat)
    ensures r < 16 && c < 16 && b == (Low(r) << 4) | Low(c) && SM4_S(b as nat) == SRow(r, c)
  {
    Split(b);
    LowIs(b >> 4);
    LowIs(b & 0xf);
    r, c := (b >> 4) as nat, (b & 0xf) as nat;
    RowOf(r, c);
  }

  lemma AtByte(b: bv8)
    ensures Defined(b, SM4_S(b as nat))
  {
    var r, c := Places(b);
    var s := SM4_S(b as nat);
    if r < 8 {
      Upper(b, s, r, c);
    } else {
      Lower(b, s, r, c);
    }
  }

  /** SM4_S at b is the affine map of the inverse of the affine map of b. */
  lemma SboxIs(b: bv8) returns (v: bv8)
    ensures Inverses(Affine(b), v) && SM4_S(b as nat) == Affine(v)
  {
    v := Unaffine(SM4_S(b as nat));
    AtByte(b);
    AffineBack(SM4_S(b as nat));
  }
}
