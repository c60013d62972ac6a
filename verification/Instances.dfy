/** The modes with SM4 and GHASH with gf128.c: the concrete functions satisfy the laws that the
    generic modules ask for. */
module Instances {
  import opened BlockModes
  import opened CipherModes
  import Sm4
  import Sm4Rounds
  import Ghash
  import Gcm
  import Gf128
  import Gf128Algebra
  import Gf128Bytes

  function XorByte(a: byte, b: byte): byte { a ^ b }

  function PlusOne(b: byte): byte { b + 1 }

  function PadByte(n: nat): byte { if n < 256 then n as bv8 else 0 }

  function UnpadByte(b: byte): nat { b as nat }

  // ------------------------------------------------------------ the counter

  /** The big-endian successor; all bytes wrap. */
  function Incr(a: seq<byte>): (r: seq<byte>)
    ensures |r| == |a|
  {
    if a == [] then []
    else
      var last := PlusOne(a[|a| - 1]);
      (if last == 0 then Incr(a[..|a| - 1]) else a[..|a| - 1]) + [last]
  }

  /** ctr_incr: bytes from the end, until one does not wrap. */
  method CtrIncr(a: array<byte>)
    modifies a
    ensures a[..] == Incr(old(a[..]))
  {
    var i := a.Length;
    ghost var before, done := a[..], [];
    assert before[..i] == before && before + [] == before && Incr(before) + [] == Incr(before);
    while i > 0
      invariant 0 <= i <= a.Length && |before| == a.Length
      invariant a[..] == before[..i] + done && Incr(before) == Incr(before[..i]) + done
    {
      i := i - 1;
      ghost var now := a[..];
      SetByte(before, i, done, PlusOne(a[i]));
      IncrStep(before, i, PlusOne(before[i]), done);
      a[i] := PlusOne(a[i]);
      assert a[..] == now[i := a[i]];
      done := [a[i]] + done;
      if a[i] != 0 {
        return;
      }
    }
  }

  lemma SetByte(before: seq<byte>, i: nat, done: seq<byte>, last: byte)
    requires i < |before|
    ensures (before[..i + 1] + done)[i] == before[i]
    ensures (before[..i + 1] + done)[i := last] == before[..i] + ([last] + done)
  {
  }

  lemma IncrStep(before: seq<byte>, i: nat, last: byte, done: seq<byte>)
    requires i < |before| && last == PlusOne(before[i])
    ensures Incr(before[..i + 1]) + done == (if last == 0 then Incr(before[..i]) else before[..i]) + ([last] + done)
  {
    var p := before[..i + 1];
    assert p[..i] == before[..i] && p[i] == before[i];
    Assoc(if last == 0 then Incr(before[..i]) else before[..i], [last], done);
  }

  // ------------------------------------------------------------ SM4

  function OrZeros(b: seq<byte>): (r: seq<byte>)
    ensures |r| == 16
  {
    if |b| == 16 then b else Ghash.Zeros(16)
  }

  function EncBlock(userKey: seq<byte>, b: seq<byte>): (r: seq<byte>)
    requires |userKey| == 16
    ensures |r| == 16
  {
    Sm4.EncryptBlock(Sm4.RoundKeys(userKey), OrZeros(b))
  }

  function DecBlock(userKey: seq<byte>, b: seq<byte>): (r: seq<byte>)
    requires |userKey| == 16
    ensures |r| == 16
  {
    Sm4.EncryptBlock(Sm4Rounds.Reversed(Sm4.RoundKeys(userKey)), OrZeros(b))
  }

  /** SM4 under one user key, as the modes use it. */
  function Sm4Cipher(userKey: seq<byte>): Cipher
    requires |userKey| == 16
  {
    Cipher.Cipher(b => EncBlock(userKey, b), b => DecBlock(userKey, b), XorByte, Incr, PadByte, UnpadByte)
  }

  lemma XorByteLaws(a: byte, b: byte)
    ensures XorByte(XorByte(a, b), b) == a && XorByte(a, b) == XorByte(b, a)
  {
  }

  lemma PadLaw(n: nat)
    requires 1 <= n <= 16
    ensures UnpadByte(PadByte(n)) == n
  {
    if n < 5 {
      assert n == 1 || n == 2 || n == 3 || n == 4;
    } else if n < 9 {
      assert n == 5 || n == 6 || n == 7 || n == 8;
    } else if n < 13 {
      assert n == 9 || n == 10 || n == 11 || n == 12;
    } else {
      assert n == 13 || n == 14 || n == 15 || n == 16;
    }
  }

  lemma BlockLaw(userKey: seq<byte>, b: seq<byte>)
    requires |userKey| == 16 && |b| == 16
    ensures DecBlock(userKey, EncBlock(userKey, b)) == b
  {
    Sm4.DecryptInverts(userKey, b);
  }

  /** So every result about the modes holds for SM4 with any key. */
  lemma Sm4Laws(userKey: seq<byte>)
    requires |userKey| == 16
    ensures Laws(Sm4Cipher(userKey))
  {
    var k := Sm4Cipher(userKey);
    forall b: seq<byte> ensures BlockAt(k, b) {
      if |b| == 16 { BlockLaw(userKey, b); }
    }
    forall a: byte, b: byte ensures XorAt(k, a, b) { XorByteLaws(a, b); }
    forall n: nat ensures PadAt(k, n) {
      if 1 <= n <= 16 { PadLaw(n); }
    }
  }

  // ------------------------------------------------------------ GHASH

  function FromBlock(b: seq<byte>): Gf128.Gf { Gf128Bytes.FromBytes(OrZeros(b)) }

  function ByteOf(v: nat): byte { (v % 256) as bv8 }

  /** PUTU64: the n low bytes of v, the most significant first. */
  function PutBytes(n: nat, v: nat): (r: seq<byte>)
    ensures |r| == n
  {
    if n == 0 then [] else PutBytes(n - 1, v / 256) + [ByteOf(v)]
  }

  /** The two bit lengths, each modulo 2^64. */
  function Lengths(a: nat, c: nat): (r: seq<byte>)
    ensures |r| == 16
  {
    PutBytes(8, a * 8) + PutBytes(8, c * 8)
  }

  function ZeroGf(): Gf128.Gf { Gf128Algebra.Pair(0, 0) }

  function GhashField(): Ghash.Field<Gf128.Gf> {
    Ghash.Field(ZeroGf(), FromBlock, Gf128Bytes.ToBytes, Gf128.AddGf, Gf128.MulGf, Lengths)
  }

  lemma AddAssociates(a: Gf128.Gf, b: Gf128.Gf, c: Gf128.Gf)
    ensures Gf128.AddGf(Gf128.AddGf(a, b), c) == Gf128.AddGf(a, Gf128.AddGf(b, c))
  {
    Gf128.XorAssociates(a.hi, b.hi, c.hi);
    Gf128.XorAssociates(a.lo, b.lo, c.lo);
  }

  lemma FieldLawsAt(x: Gf128.Gf, y: Gf128.Gf, z: Gf128.Gf)
    ensures Ghash.LawsAt(GhashField(), x, y, z)
  {
    Gf128.Associative(x, y, z);
    Gf128.Distributive(x, y, z);
    AddAssociates(x, y, z);
  }

  lemma GhashFieldLaws()
    ensures Ghash.Laws(GhashField())
  {
    forall x: Gf128.Gf, y: Gf128.Gf, z: Gf128.Gf ensures Ghash.LawsAt(GhashField(), x, y, z) { FieldLawsAt(x, y, z); }
  }

  /** gf128.c satisfies what the sum form of GHASH and the GCM functions ask for. */
  lemma GhashLaws(userKey: seq<byte>)
    requires |userKey| == 16
    ensures Ghash.Laws(GhashField()) && Gcm.Proper(Sm4Cipher(userKey), GhashField())
  {
    GhashFieldLaws();
    forall x: Gf128.Gf ensures Gcm.ToAt(GhashField(), x) { ToLaw(x); }
    Sm4Laws(userKey);
  }

  lemma ToLaw(x: Gf128.Gf)
    ensures Gcm.ToAt(GhashField(), x)
  {
  }
}
