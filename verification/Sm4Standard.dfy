/** What SM4 computes, as its standard GB/T 32907-2016 defines it, and the example of the standard. */
module Sm4Standard {
  import opened Ring
  import opened Sm4Box
  import opened Sm4Rounds
  import opened Sm4Tables
  import opened Sm4Algebra
  import opened Sm4

  // ------------------------------------------------------------ the maps of a round

  function Bit(x: bv32, i: bv32): bv32
    requires i < 32
  {
    (x >> i) & 1
  }

  /** The cipher's linear map: rotations to the left by 0, 2, 10, 18 and 24. */
  lemma LinearMap(x: bv32, i: bv32)
    requires i < 32
    ensures Bit(L32(x), i) == Bit(x, i) ^ Bit(x, (i - 2) & 31) ^ Bit(x, (i - 10) & 31) ^ Bit(x, (i - 18) & 31) ^ Bit(x, (i - 24) & 31)
  {
    Turned2(x, i);
    Turned10(x, i);
    Turned18(x, i);
    Turned24(x, i);
  }

  /** That of the key schedule: 0, 13 and 23. */
  lemma KeyMap(x: bv32, i: bv32)
    requires i < 32
    ensures Bit(KeyMix(x), i) == Bit(x, i) ^ Bit(x, (i - 13) & 31) ^ Bit(x, (i - 23) & 31)
  {
    Turned13(x, i);
    Turned23(x, i);
  }

  lemma Turned2(x: bv32, i: bv32)
    requires i < 32
    ensures Bit(Rol2(x), i) == Bit(x, (i - 2) & 31)
  {
  }

  lemma Turned10(x: bv32, i: bv32)
    requires i < 32
    ensures Bit(Rol10(x), i) == Bit(x, (i - 10) & 31)
  {
  }

  lemma Turned13(x: bv32, i: bv32)
    requires i < 32
    ensures Bit(Rol13(x), i) == Bit(x, (i - 13) & 31)
  {
  }

  lemma Turned18(x: bv32, i: bv32)
    requires i < 32
    ensures Bit(Rol18(x), i) == Bit(x, (i - 18) & 31)
  {
  }

  lemma Turned23(x: bv32, i: bv32)
    requires i < 32
    ensures Bit(Rol23(x), i) == Bit(x, (i - 23) & 31)
  {
  }

  lemma Turned24(x: bv32, i: bv32)
    requires i < 32
    ensures Bit(Rol24(x), i) == Bit(x, (i - 24) & 31)
  {
  }

  /** The S-box by its definition: affine map, inverse in GF(2^8), affine map. */
  lemma BoxIs(b: bv8) returns (v: bv8)
    ensures Inverses(Affine(b), v) && S(b) == Affine(v) as bv32
  {
    v := SboxIs(b);
  }

  lemma SmallS(b: bv8)
    ensures S(b) < 256
  {
    var v := BoxIs(b);
  }

  /** The bytes of x from the top. */
  ghost predicate BytesAre(x: bv32, a: bv32, b: bv32, c: bv32, d: bv32) {
    ByteOf(x, 3) as bv32 == a && ByteOf(x, 2) as bv32 == b && ByteOf(x, 1) as bv32 == c && ByteOf(x, 0) as bv32 == d
  }

  /** Every byte of a word goes through the S-box in its place. */
  lemma BytesSubstituted(x: bv32)
    ensures BytesAre(S32(x), S(ByteOf(x, 3)), S(ByteOf(x, 2)), S(ByteOf(x, 1)), S(ByteOf(x, 0)))
  {
    SmallS(ByteOf(x, 3));
    SmallS(ByteOf(x, 2));
    SmallS(ByteOf(x, 1));
    SmallS(ByteOf(x, 0));
    Joined(S(ByteOf(x, 3)), S(ByteOf(x, 2)), S(ByteOf(x, 1)), S(ByteOf(x, 0)));
  }

  lemma Joined(a: bv32, b: bv32, c: bv32, d: bv32)
    requires a < 256 && b < 256 && c < 256 && d < 256
    ensures BytesAre(Join(a, b, c, d), a, b, c, d)
  {
    Joined2(a, b);
    Joined3(Xor32(Up(a, 3), Up(b, 2)), a, b, c);
    Joined4(Xor32(Xor32(Up(a, 3), Up(b, 2)), Up(c, 1)), a, b, c, d);
  }

  ghost predicate Two(x: bv32, a: bv32, b: bv32) { x >> 24 == a && (x >> 16) & 0xff == b && x & 0xffff == 0 }

  ghost predicate Three(x: bv32, a: bv32, b: bv32, c: bv32) {
    x >> 24 == a && (x >> 16) & 0xff == b && (x >> 8) & 0xff == c && x & 0xff == 0
  }

  lemma Joined2(a: bv32, b: bv32)
    requires a < 256 && b < 256
    ensures Two(Xor32(Up(a, 3), Up(b, 2)), a, b)
  {
  }

  lemma Joined3(x: bv32, a: bv32, b: bv32, c: bv32)
    requires c < 256 && Two(x, a, b)
    ensures Three(Xor32(x, Up(c, 1)), a, b, c)
  {
  }

  lemma Joined4(x: bv32, a: bv32, b: bv32, c: bv32, d: bv32)
    requires d < 256 && Three(x, a, b, c)
    ensures BytesAre(Xor32(x, Up(d, 0)), a, b, c, d)
  {
  }

  /** The T of the lookups: the S-box, then the linear map. */
  lemma RoundIs(x: bv32)
    ensures RoundT(x) == L32(S32(x))
  {
    TboxEqualsSbox(x);
    LIs(S32(x));
    SumSubstitutes(S, T, x);
  }

  lemma SumSubstitutes(s: bv8 -> bv32, t: bv8 -> bv32, x: bv32)
    ensures
      var m := Box(XorGroup(), ByteOf, LowByte, Shr8, s, t, Up, Turn, Rotate);
      Sum4(m.G, Placed(m, x, 3), Placed(m, x, 2), Placed(m, x, 1), Placed(m, x, 0)) == Substitute(s, x)
  {
    SumIs4(Up(s(ByteOf(x, 3)), 3), Up(s(ByteOf(x, 2)), 2), Up(s(ByteOf(x, 1)), 1), Up(s(ByteOf(x, 0)), 0));
  }

  lemma SumIs4(a: bv32, b: bv32, c: bv32, d: bv32)
    ensures Sum4(XorGroup(), a, b, c, d) == Xor32(Xor32(Xor32(a, b), c), d)
  {
  }

  // ------------------------------------------------------------ constants, keys and blocks

  /** The bytes of the constants CK go up in steps of 7. */
  lemma CkBytes(i: nat, j: int)
    requires i < 32 && 0 <= j < 4
    ensures ByteOf(CK()[i], 3 - j) as nat == 7 * (4 * i + j) % 256
  {
    if i < 8 { Ck0(i, j); } else if i < 16 { Ck8(i, j); } else if i < 24 { Ck16(i, j); } else { Ck24(i, j); }
  }

  lemma Ck0(i: nat, j: int)
    requires 0 <= i < 8 && 0 <= j < 4
    ensures ByteOf(CK()[i], 3 - j) as nat == 7 * (4 * i + j) % 256
  {
    if i < 1 { } else if i < 2 { } else if i < 3 { } else if i < 4 { } else if i < 5 { } else if i < 6 { } else if i < 7 { }
  }

  lemma Ck8(i: nat, j: int)
    requires 8 <= i < 16 && 0 <= j < 4
    ensures ByteOf(CK()[i], 3 - j) as nat == 7 * (4 * i + j) % 256
  {
    if i < 9 { } else if i < 10 { } else if i < 11 { } else if i < 12 { } else if i < 13 { } else if i < 14 { } else if i < 15 { }
  }

  lemma Ck16(i: nat, j: int)
    requires 16 <= i < 24 && 0 <= j < 4
    ensures ByteOf(CK()[i], 3 - j) as nat == 7 * (4 * i + j) % 256
  {
    if i < 17 { } else if i < 18 { } else if i < 19 { } else if i < 20 { } else if i < 21 { } else if i < 22 { } else if i < 23 { }
  }

  lemma Ck24(i: nat, j: int)
    requires 24 <= i < 32 && 0 <= j < 4
    ensures ByteOf(CK()[i], 3 - j) as nat == 7 * (4 * i + j) % 256
  {
    if i < 25 { } else if i < 26 { } else if i < 27 { } else if i < 28 { } else if i < 29 { } else if i < 30 { } else if i < 31 { }
  }

  /** The round function of the key schedule, and that of the cipher. */
  function KeyRound(x: bv32): bv32 { KeyMix(S32(x)) }

  function BlockRound(x: bv32): bv32 { L32(S32(x)) }

  /** Words K[0] to K[n + 3] of the key schedule. */
  ghost predicate KeyWordsOf(userKey: seq<byte>, n: nat, w: seq<bv32>)
    requires |userKey| == 16 && n <= 32
  {
    Recurrence(Xor32, KeyRound, CK()[..n], w) &&
    w[0] == GetU32(userKey[..4]) ^ 0xa3b1bac6 && w[1] == GetU32(userKey[4..8]) ^ 0x56aa3350 &&
    w[2] == GetU32(userKey[8..12]) ^ 0x677d9197 && w[3] == GetU32(userKey[12..]) ^ 0xb27022dc
  }

  /** Words X[0] to X[35] of a block under the round keys rk. */
  ghost predicate BlockWordsOf(rk: seq<bv32>, b: seq<byte>, w: seq<bv32>)
    requires |rk| == 32 && |b| == 16
  {
    Recurrence(Xor32, BlockRound, rk, w) &&
    w[0] == GetU32(b[..4]) && w[1] == GetU32(b[4..8]) && w[2] == GetU32(b[8..12]) && w[3] == GetU32(b[12..])
  }

  /** The round keys are K[4], K[5] and so on. */
  lemma RoundKeysAre(userKey: seq<byte>, n: nat, w: seq<bv32>)
    requires |userKey| == 16 && n <= 32 && KeyWordsOf(userKey, n, w)
    ensures RoundKeys(userKey)[..n] == w[4..]
  {
    KeyRoundIs();
    RecurrenceTrails(KeyWords(), KeyRound, CK()[..n], w);
    TrailKeys(KeyWords(), CK(), w, n);
  }

  lemma KeyRoundIs()
    ensures forall x :: KeyRound(x) == KeyT(x)
  {
  }

  /** The block comes out as X[35], X[34], X[33], X[32]. */
  lemma BlockIs(rk: seq<bv32>, b: seq<byte>, w: seq<bv32>)
    requires |rk| == 32 && |b| == 16 && BlockWordsOf(rk, b, w)
    ensures EncryptBlock(rk, b) == PutU32(w[35]) + PutU32(w[34]) + PutU32(w[33]) + PutU32(w[32])
  {
    BlockRoundIs();
    RecurrenceTrails(CipherWords(), BlockRound, rk, w);
    TrailEnds(CipherWords(), rk, w);
  }

  lemma BlockRoundIs()
    ensures forall x :: BlockRound(x) == RoundT(x)
  {
    forall x ensures BlockRound(x) == RoundT(x) { RoundIs(x); }
  }

  // ------------------------------------------------------------ the example of the standard

  /** s is the S-box, row by row. */
  ghost predicate Looked(s: bv8 -> bv32, b: bv8, r: nat, c: nat)
    requires r < 16 && c < 16
  {
    b as nat == 16 * r + c ==> s(b) == SRow(r, c) as bv32
  }

  ghost predicate Tabled(s: bv8 -> bv32) {
    forall b: bv8, r: nat, c: nat | r < 16 && c < 16 :: Looked(s, b, r, c)
  }

  lemma STabled()
    ensures Tabled(S)
  {
    forall b: bv8, r: nat, c: nat | r < 16 && c < 16 ensures Looked(S, b, r, c) { SLooked(b, r, c); }
  }

  lemma SLooked(b: bv8, r: nat, c: nat)
    requires r < 16 && c < 16
    ensures Looked(S, b, r, c)
  {
    if b as nat == 16 * r + c { SValue(b, r, c); }
  }

  lemma SValue(b: bv8, r: nat, c: nat)
    requires r < 16 && c < 16 && b as nat == 16 * r + c
    ensures S(b) == SRow(r, c) as bv32
  {
    RowOf(r, c);
    SNumber(b, 16 * r + c);
  }

  lemma SNumber(b: bv8, n: nat)
    requires b as nat == n
    ensures n < 256 && S(b) == SM4_S(n) as bv32
  {
  }

  lemma Value(s: bv8 -> bv32, b: bv8, r: nat, c: nat, v: bv8)
    requires Tabled(s) && r < 16 && c < 16 && b as nat == 16 * r + c && SRow(r, c) == v
    ensures s(b) == v as bv32
  {
    assert Looked(s, b, r, c);
  }

  lemma Evaluate(s: bv8 -> bv32, x: bv32, a: bv8, b: bv8, c: bv8, d: bv8, p: bv32, q: bv32, r: bv32, v: bv32)
    requires ByteOf(x, 3) == a && ByteOf(x, 2) == b && ByteOf(x, 1) == c && ByteOf(x, 0) == d
    requires s(a) == p && s(b) == q && s(c) == r && s(d) == v
    ensures Substitute(s, x) == Join(p, q, r, v)
  {
  }

  lemma Example0(s: bv8 -> bv32)
    requires Tabled(s)
    ensures KeyMix(Substitute(s, 0x8283cb69)) == 0x53b37958
  {
    Value(s, 0x82, 8, 2, 0x8a);
    Value(s, 0x83, 8, 3, 0xd2);
    Value(s, 0xcb, 12, 11, 0x41);
    Value(s, 0x69, 6, 9, 0x22);
    Evaluate(s, 0x8283cb69, 0x82, 0x83, 0xcb, 0x69, 0x8a, 0xd2, 0x41, 0x22);
  }

  lemma Example1(s: bv8 -> bv32)
    requires Tabled(s)
    ensures KeyMix(Substitute(s, 0xb087970b)) == 0x9e67d5de
  {
    Value(s, 0xb0, 11, 0, 0xd5);
    Value(s, 0x87, 8, 7, 0xb5);
    Value(s, 0x97, 9, 7, 0x55);
    Value(s, 0x0b, 0, 11, 0xc2);
    Evaluate(s, 0xb087970b, 0xb0, 0x87, 0x97, 0x0b, 0xd5, 0xb5, 0x55, 0xc2);
  }

  lemma Example2(s: bv8 -> bv32)
    requires Tabled(s)
    ensures KeyMix(Substitute(s, 0x4c5cfb19)) == 0xc3cb9a95
  {
    Value(s, 0x4c, 4, 12, 0xe6);
    Value(s, 0x5c, 5, 12, 0x70);
    Value(s, 0xfb, 15, 11, 0x3e);
    Value(s, 0x19, 1, 9, 0x44);
    Evaluate(s, 0x4c5cfb19, 0x4c, 0x5c, 0xfb, 0x19, 0xe6, 0x70, 0x3e, 0x44);
  }

  lemma Example3(s: bv8 -> bv32)
    requires Tabled(s)
    ensures KeyMix(Substitute(s, 0xbe767e6b)) == 0xbf8d30bb
  {
    Value(s, 0xbe, 11, 14, 0x5b);
    Value(s, 0x76, 7, 6, 0x27);
    Value(s, 0x7e, 7, 14, 0xc8);
    Value(s, 0x6b, 6, 11, 0x3b);
    Evaluate(s, 0xbe767e6b, 0xbe, 0x76, 0x7e, 0x6b, 0x5b, 0x27, 0xc8, 0x3b);
  }

  ghost predicate ExampleAt(t: bv32 -> bv32) {
    t(0x8283cb69) == 0x53b37958 && t(0xb087970b) == 0x9e67d5de && t(0x4c5cfb19) == 0xc3cb9a95 && t(0xbe767e6b) == 0xbf8d30bb
  }

  lemma ExampleRounds()
    ensures ExampleAt(KeyRound)
  {
    STabled();
    Example0(S);
    Example1(S);
    Example2(S);
    Example3(S);
  }

  /** The key 0123456789abcdeffedcba9876543210 has the round keys of the standard. */
  lemma ExampleKeys(userKey: seq<byte>)
    requires userKey == [0x01, 0x23, 0x45, 0x67, 0x89, 0xab, 0xcd, 0xef, 0xfe, 0xdc, 0xba, 0x98, 0x76, 0x54, 0x32, 0x10]
    ensures RoundKeys(userKey)[..4] == [0xf12186f9, 0x41662b61, 0x5a6ab19a, 0x7ba92077]
  {
    ExampleWords(userKey);
    ExampleRounds();
    var w: seq<bv32> := [0xa292ffa1, 0xdf01febf, 0x99a12b0f, 0xc42410cc, 0xf12186f9, 0x41662b61, 0x5a6ab19a, 0x7ba92077];
    var k := CK()[..4];
    forall i | 0 <= i < 4 ensures RoundAt(Xor32, KeyRound, k, w, i) { ExampleRound(KeyRound, k, w, i); }
    RoundKeysAre(userKey, 4, w);
  }

  lemma ExampleRound(t: bv32 -> bv32, k: seq<bv32>, w: seq<bv32>, i: nat)
    requires ExampleAt(t) && i < 4 && k == [0x00070e15, 0x1c232a31, 0x383f464d, 0x545b6269]
    requires w == [0xa292ffa1, 0xdf01febf, 0x99a12b0f, 0xc42410cc, 0xf12186f9, 0x41662b61, 0x5a6ab19a, 0x7ba92077]
    ensures RoundAt(Xor32, t, k, w, i)
  {
    if i < 2 { }
  }

  lemma ExampleWords(userKey: seq<byte>)
    requires userKey == [0x01, 0x23, 0x45, 0x67, 0x89, 0xab, 0xcd, 0xef, 0xfe, 0xdc, 0xba, 0x98, 0x76, 0x54, 0x32, 0x10]
    ensures GetU32(userKey[..4]) ^ 0xa3b1bac6 == 0xa292ffa1 && GetU32(userKey[4..8]) ^ 0x56aa3350 == 0xdf01febf
    ensures GetU32(userKey[8..12]) ^ 0x677d9197 == 0x99a12b0f && GetU32(userKey[12..]) ^ 0xb27022dc == 0xc42410cc
  {
  }
}
