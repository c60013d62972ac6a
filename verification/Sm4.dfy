/** SM4: the round functions of sm4_enc.c and sm4_setkey.c on 32-bit words, the byte form of the
    cipher, and decryption inverting encryption for every key and block. */
module Sm4 {
  import opened Ring
  import opened Sm4Box
  import opened Sm4Rounds
  import opened Sm4Tables

  type byte = bv8

  // ------------------------------------------------------------ words and their operations

  function Same(x: bv32): bv32 { x }

  /** Byte k of a word, the least significant being byte 0. */
  function ByteOf(x: bv32, k: int): bv8 {
    if k == 3 then (x >> 24) as bv8
    else if k == 2 then ((x >> 16) & 0xff) as bv8
    else if k == 1 then ((x >> 8) & 0xff) as bv8
    else (x & 0xff) as bv8
  }

  function LowByte(x: bv32): bv8 { (x & 0xff) as bv8 }

  function Shr8(x: bv32): bv32 { x >> 8 }

  function S(b: bv8): bv32 { SM4_S(b as nat) as bv32 }

  function T(b: bv8): bv32 { SM4_T(b as nat) }

  function Up(x: bv32, k: int): bv32 {
    if k == 3 then x << 24 else if k == 2 then x << 16 else if k == 1 then x << 8 else x
  }

  function Turn(x: bv32, k: int): bv32 {
    if k == 0 then Rol8(x) else if k == 1 then Rol16(x) else if k == 2 then Rol24(x) else x
  }

  function Rotate(x: bv32, n: int): bv32 {
    if n == 2 then Rol2(x) else if n == 10 then Rol10(x) else if n == 18 then Rol18(x)
    else if n == 24 then Rol24(x) else x
  }

  function XorGroup(): Group<bv32> { Group(0, Xor32, Same) }

  function Box32(): Box<bv32, bv8> { Box(XorGroup(), ByteOf, LowByte, Shr8, S, T, Up, Turn, Rotate) }

  // ------------------------------------------------------------ their laws

  lemma XorCommutes(x: bv32, y: bv32)
    ensures Xor32(x, y) == Xor32(y, x)
  {
  }

  lemma XorAssociates(x: bv32, y: bv32, z: bv32)
    ensures Xor32(Xor32(x, y), z) == Xor32(x, Xor32(y, z))
  {
  }

  lemma XorCancels(x: bv32, y: bv32)
    ensures Xor32(Xor32(x, y), y) == x && Xor32(x, 0) == x && Xor32(x, x) == 0
  {
  }

  lemma XorMonoidAt(x: bv32, y: bv32, z: bv32)
    ensures MonoidAt(XorGroup(), x, y, z)
  {
    XorCommutes(x, y);
    XorAssociates(x, y, z);
    XorCancels(x, y);
  }

  lemma Additive2(x: bv32, y: bv32)
    ensures RolAt(Box32(), x, y, 2)
  {
  }

  lemma Additive10(x: bv32, y: bv32)
    ensures RolAt(Box32(), x, y, 10)
  {
  }

  lemma Additive18(x: bv32, y: bv32)
    ensures RolAt(Box32(), x, y, 18)
  {
  }

  lemma Additive24(x: bv32, y: bv32)
    ensures RolAt(Box32(), x, y, 24)
  {
  }

  lemma RolLaws(x: bv32, y: bv32)
    ensures RolAll(Box32(), x, y)
  {
    Additive2(x, y);
    Additive10(x, y);
    Additive18(x, y);
    Additive24(x, y);
  }

  lemma ByteLaws(x: bv32)
    ensures BytesAt(Box32(), x)
  {
  }

  /** L of the generic form is L32. */
  lemma LIs(x: bv32)
    ensures L(Box32(), x) == L32(x)
  {
    SumIs(x, Rol2(x), Rol10(x), Rol18(x), Rol24(x));
  }

  lemma SumIs(a: bv32, b: bv32, c: bv32, d: bv32, e: bv32)
    ensures XorGroup().op(Sum4(XorGroup(), a, b, c, d), e) == Xor32(Xor32(Xor32(Xor32(a, b), c), d), e)
  {
  }

  lemma Rotated0(s: bv8)
    ensures Rol8(L32((s as bv32) << 24)) == L32(s as bv32)
  {
  }

  lemma Rotated1(s: bv8)
    ensures Rol16(L32((s as bv32) << 24)) == L32((s as bv32) << 8)
  {
  }

  lemma Rotated2(s: bv8)
    ensures Rol24(L32((s as bv32) << 24)) == L32((s as bv32) << 16)
  {
  }

  /** A table word t, turned to byte k, is L of the S-box value there. */
  ghost predicate Turned(t: bv32, s: bv32, k: int) {
    Turn(t, k) == L32(Up(s, k))
  }

  lemma TurnedAll(t: bv32, s: bv8, k: int)
    requires Entry(t, s) && 0 <= k < 4
    ensures Turned(t, s as bv32, k)
  {
    if k == 0 { Rotated0(s); } else if k == 1 { Rotated1(s); } else if k == 2 { Rotated2(s); }
  }

  lemma TurnedEntry(b: bv8, k: int)
    requires 0 <= k < 4
    ensures Turned(T(b), S(b), k)
  {
    TableEntry(b as nat);
    TurnedAll(SM4_T(b as nat), SM4_S(b as nat), k);
  }

  /** The table SM4_T serves all four byte positions, turned. */
  lemma TableLaws(b: bv8, k: int)
    ensures TableAt(Box32(), b, k)
  {
    if 0 <= k < 4 {
      LIs(Up(S(b), k));
      TurnedEntry(b, k);
    }
  }

  lemma BoxLaws()
    ensures Sm4Box.Laws(Box32())
  {
    forall x: bv32, y: bv32, z: bv32 ensures MonoidAt(XorGroup(), x, y, z) { XorMonoidAt(x, y, z); }
    forall x: bv32, y: bv32 ensures RolAll(Box32(), x, y) { RolLaws(x, y); }
    forall x: bv32 ensures BytesAt(Box32(), x) { ByteLaws(x); }
    forall b: bv8, k: int ensures TableAt(Box32(), b, k) { TableLaws(b, k); }
  }

  /** ROUND_TBOX equals ROUND_SBOX on every word, and computes the round of the recurrence. */
  lemma TboxEqualsSbox(x: bv32)
    ensures TboxT(Box32(), x) == SboxT(Box32(), x)
  {
    BoxLaws();
    TboxIsSbox(Box32(), x);
  }

  // ------------------------------------------------------------ the cipher on words

  function RoundT(x: bv32): bv32 { TboxT(Box32(), x) }

  function CipherWords(): Words<bv32> { Words(Xor32, RoundT) }

  lemma CipherTabled()
    ensures Tabled(Box32(), CipherWords())
  {
  }

  lemma XorLawsAt(t: bv32 -> bv32, x: bv32, y: bv32, z: bv32)
    ensures LawsAt(Words(Xor32, t), x, y, z)
  {
    XorCommutes(x, y);
    XorAssociates(x, y, z);
    XorCancels(x, y);
  }

  lemma WordLaws(t: bv32 -> bv32)
    ensures Sm4Rounds.Laws(Words(Xor32, t))
  {
    forall x: bv32, y: bv32, z: bv32 ensures LawsAt(Words(Xor32, t), x, y, z) { XorLawsAt(t, x, y, z); }
  }

  // ------------------------------------------------------------ bytes

  function GetU32(p: seq<byte>): bv32
    requires |p| == 4
  {
    ((p[0] as bv32) << 24) | ((p[1] as bv32) << 16) | ((p[2] as bv32) << 8) | (p[3] as bv32)
  }

  function PutU32(w: bv32): (p: seq<byte>)
    ensures |p| == 4
  {
    [ByteOf(w, 3), ByteOf(w, 2), ByteOf(w, 1), ByteOf(w, 0)]
  }

  lemma GetOfBytes(a: byte, b: byte, c: byte, d: byte)
    ensures var w := ((a as bv32) << 24) | ((b as bv32) << 16) | ((c as bv32) << 8) | (d as bv32);
      ByteOf(w, 3) == a && ByteOf(w, 2) == b && ByteOf(w, 1) == c && ByteOf(w, 0) == d
  {
  }

  lemma PutGet(p: seq<byte>)
    requires |p| == 4
    ensures PutU32(GetU32(p)) == p
  {
    GetOfBytes(p[0], p[1], p[2], p[3]);
    assert p == [p[0], p[1], p[2], p[3]];
  }

  lemma BytesOfWord(w: bv32)
    ensures ((ByteOf(w, 3) as bv32) << 24) | ((ByteOf(w, 2) as bv32) << 16) | ((ByteOf(w, 1) as bv32) << 8)
      | (ByteOf(w, 0) as bv32) == w
  {
  }

  lemma GetPut(w: bv32)
    ensures GetU32(PutU32(w)) == w
  {
    BytesOfWord(w);
  }

  function Load(b: seq<byte>): State<bv32>
    requires |b| == 16
  {
    State(GetU32(b[..4]), GetU32(b[4..8]), GetU32(b[8..12]), GetU32(b[12..]))
  }

  function Store(s: State<bv32>): (b: seq<byte>)
    ensures |b| == 16
  {
    PutU32(s.a) + PutU32(s.b) + PutU32(s.c) + PutU32(s.d)
  }

  lemma StoreLoad(b: seq<byte>)
    requires |b| == 16
    ensures Store(Load(b)) == b
  {
    PutGet(b[..4]); PutGet(b[4..8]); PutGet(b[8..12]); PutGet(b[12..]);
    assert b == b[..4] + b[4..8] + b[8..12] + b[12..];
  }

  lemma LoadStore(s: State<bv32>)
    ensures Load(Store(s)) == s
  {
    GetPut(s.a); GetPut(s.b); GetPut(s.c); GetPut(s.d);
    var b := Store(s);
    assert b[..4] == PutU32(s.a) && b[4..8] == PutU32(s.b) && b[8..12] == PutU32(s.c) && b[12..] == PutU32(s.d);
  }

  // ------------------------------------------------------------ keys and blocks

  const FK: State<bv32> := State(0xa3b1bac6, 0x56aa3350, 0x677d9197, 0xb27022dc)

  function CK(): (r: seq<bv32>)
    ensures |r| == 32
  {
    [0x00070e15, 0x1c232a31, 0x383f464d, 0x545b6269, 0x70777e85, 0x8c939aa1, 0xa8afb6bd, 0xc4cbd2d9,
     0xe0e7eef5, 0xfc030a11, 0x181f262d, 0x343b4249, 0x50575e65, 0x6c737a81, 0x888f969d, 0xa4abb2b9,
     0xc0c7ced5, 0xdce3eaf1, 0xf8ff060d, 0x141b2229, 0x30373e45, 0x4c535a61, 0x686f767d, 0x848b9299,
     0xa0a7aeb5, 0xbcc3cad1, 0xd8dfe6ed, 0xf4fb0209, 0x10171e25, 0x2c333a41, 0x484f565d, 0x646b7279]
  }

  function Join(a: bv32, b: bv32, c: bv32, d: bv32): bv32 { Xor32(Xor32(Xor32(Up(a, 3), Up(b, 2)), Up(c, 1)), Up(d, 0)) }

  /** The four bytes of a word through an S-box. */
  function Substitute(s: bv8 -> bv32, x: bv32): bv32 {
    Join(s(ByteOf(x, 3)), s(ByteOf(x, 2)), s(ByteOf(x, 1)), s(ByteOf(x, 0)))
  }

  /** S32 of sm4_lcl.h. */
  function S32(x: bv32): bv32 { Substitute(S, x) }

  /** L32_ of sm4_setkey.c. */
  function KeyMix(y: bv32): bv32 { y ^ Rol13(y) ^ Rol23(y) }

  /** The T of the key schedule. */
  function KeyT(x: bv32): bv32 { KeyMix(S32(x)) }

  function KeyWords(): Words<bv32> { Words(Xor32, KeyT) }

  function KeyState(userKey: seq<byte>): State<bv32>
    requires |userKey| == 16
  {
    var s := Load(userKey);
    State(s.a ^ FK.a, s.b ^ FK.b, s.c ^ FK.c, s.d ^ FK.d)
  }

  /** The 32 round keys in encryption order. */
  function RoundKeys(userKey: seq<byte>): (r: seq<bv32>)
    requires |userKey| == 16
    ensures |r| == 32
  {
    Keys(KeyWords(), KeyState(userKey), CK())
  }

  method SetEncryptKey(rk: array<bv32>, userKey: seq<byte>)
    requires rk.Length == 32 && |userKey| == 16
    modifies rk
    ensures rk[..] == RoundKeys(userKey)
  {
    SetKey(KeyWords(), CK(), KeyState(userKey), rk, false);
  }

  method SetDecryptKey(rk: array<bv32>, userKey: seq<byte>)
    requires rk.Length == 32 && |userKey| == 16
    modifies rk
    ensures rk[..] == Reversed(RoundKeys(userKey))
  {
    SetKey(KeyWords(), CK(), KeyState(userKey), rk, true);
  }

  function EncryptBlock(rk: seq<bv32>, b: seq<byte>): (r: seq<byte>)
    requires |b| == 16
    ensures |r| == 16
  {
    Store(Crypt(CipherWords(), Load(b), rk))
  }

  /** sm4_encrypt. */
  method Encrypt(rk: array<bv32>, input: seq<byte>) returns (out: seq<byte>)
    requires rk.Length == 32 && |input| == 16
    ensures out == EncryptBlock(rk[..], input)
  {
    BoxLaws();
    CipherTabled();
    var r := Rounds(Box32(), CipherWords(), rk[..], Load(input));
    out := Store(r);
  }

  /** sm4_encrypt with the decryption key undoes sm4_encrypt with the encryption key. */
  lemma DecryptInverts(userKey: seq<byte>, b: seq<byte>)
    requires |userKey| == 16 && |b| == 16
    ensures EncryptBlock(Reversed(RoundKeys(userKey)), EncryptBlock(RoundKeys(userKey), b)) == b
  {
    var rk := RoundKeys(userKey);
    WordLaws(RoundT);
    LoadStore(Crypt(CipherWords(), Load(b), rk));
    CryptInverts(CipherWords(), Load(b), rk);
    StoreLoad(b);
  }
}
