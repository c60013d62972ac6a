/** What SM4-GCM computes, byte by byte: section 6 of NIST SP 800-38D with SM4 for the block cipher. */
module GcmStandard {
  import opened BlockModes
  import opened CipherModes
  import opened Gf128Coefficients
  import opened ModeBytes
  import opened Modular
  import Octets
  import Ghash
  import Gcm
  import Gf128
  import Gf128Bytes
  import opened Instances

  // ------------------------------------------------------------ numbers

  /** The number of a byte string, the most significant byte first. */
  function Number(b: seq<byte>): nat {
    if b == [] then 0 else 256 * Number(b[..|b| - 1]) + b[|b| - 1] as nat
  }

  lemma PlusOneIs(b: byte)
    ensures PlusOne(b) as nat == if b as nat == 255 then 0 else b as nat + 1
  {
  }

  lemma ZeroByte(b: byte)
    ensures b == 0 <==> b as nat == 0
  {
  }

  lemma {:induction false} NumberBelow(b: seq<byte>)
    ensures Number(b) < Octets.Pow256(|b|)
  {
    if b != [] {
      NumberBelow(b[..|b| - 1]);
    }
  }

  /** Incr is the successor modulo 256^n of n bytes. */
  lemma {:induction false} IncrIs(a: seq<byte>)
    ensures Number(Incr(a)) == Plus(Number(a), 1, Octets.Pow256(|a|))
  {
    if a == [] {
      assert Number([]) == 0;
    } else {
      IncrIs(a[..|a| - 1]);
      NumberBelow(a[..|a| - 1]);
      IncrLast(a);
      Carry(Number(a[..|a| - 1]), a[|a| - 1] as nat, Octets.Pow256(|a| - 1));
    }
  }

  lemma IncrLast(a: seq<byte>)
    requires a != []
    ensures
      var front, d := a[..|a| - 1], a[|a| - 1] as nat;
      Number(a) == 256 * Number(front) + d &&
      Number(Incr(a)) == if d == 255 then 256 * Number(Incr(front)) else 256 * Number(front) + d + 1
  {
    var front, last := a[..|a| - 1], a[|a| - 1];
    PlusOneIs(last);
    ZeroByte(PlusOne(last));
    NumberAppend(if PlusOne(last) == 0 then Incr(front) else front, PlusOne(last));
  }

  function Plus(n: nat, d: nat, m: nat): nat
    requires m > 0
  {
    (n + d) % m
  }

  lemma NumberAppend(b: seq<byte>, last: byte)
    ensures Number(b + [last]) == 256 * Number(b) + last as nat
  {
    assert (b + [last])[..|b|] == b;
  }

  /** One digit more: the carry out of the last one. */
  lemma Carry(n: nat, d: nat, m: nat)
    requires n < m && d < 256
    ensures Plus(256 * n + d, 1, 256 * m) == if d == 255 then 256 * Plus(n, 1, m) else 256 * n + d + 1
  {
    if d < 255 {
      Small(256 * n + d + 1, 256 * m);
    } else if n + 1 < m {
      Small(n + 1, m);
      Small(256 * (n + 1), 256 * m);
    } else {
      Modulo(m);
      Modulo(256 * m);
    }
  }

  lemma Modulo(m: nat)
    requires m > 0
    ensures m % m == 0
  {
  }

  lemma Small(n: nat, m: nat)
    requires n < m
    ensures n % m == n
  {
  }

  lemma ModAdd(a: nat, b: nat, m: nat)
    requires m > 0
    ensures Plus(a % m, b, m) == Plus(a, b, m)
  {
    Shifted(a % m + b, a / m, m);
    assert a % m + b + a / m * m == a + b;
  }

  lemma Shifted(x: int, k: int, m: nat)
    requires m > 0
    ensures (x + k * m) % m == x % m
  {
    ModShift(x, k, m);
  }

  ghost predicate IncrAt(k: Cipher, a: seq<byte>) { k.incr(a) == Incr(a) }

  lemma CounterUnfold(k: Cipher, ctr: seq<byte>, n: nat)
    requires IncrAt(k, ctr) && n > 0
    ensures Counter(k, ctr, n) == Counter(k, Incr(ctr), n - 1)
  {
  }

  /** The counter counts all its bytes. */
  lemma {:induction false} CounterIs(k: Cipher, ctr: seq<byte>, n: nat)
    requires forall a :: IncrAt(k, a)
    ensures |Counter(k, ctr, n)| == |ctr|
    ensures Number(Counter(k, ctr, n)) == Plus(Number(ctr), n, Octets.Pow256(|ctr|))
    decreases n
  {
    if n == 0 {
      NumberBelow(ctr);
      Small(Number(ctr), Octets.Pow256(|ctr|));
    } else {
      var next := Incr(ctr);
      assert IncrAt(k, ctr);
      CounterUnfold(k, ctr, n);
      CounterIs(k, next, n - 1);
      IncrPlus(ctr, n);
    }
  }

  lemma IncrPlus(ctr: seq<byte>, n: nat)
    requires n > 0
    ensures Plus(Number(Incr(ctr)), n - 1, Octets.Pow256(|ctr|)) == Plus(Number(ctr), n, Octets.Pow256(|ctr|))
  {
    IncrIs(ctr);
    PlusChain(Number(ctr), Number(Incr(ctr)), n, Octets.Pow256(|ctr|));
  }

  lemma PlusChain(a: nat, next: nat, n: nat, m: nat)
    requires n > 0 && m > 0 && next == Plus(a, 1, m)
    ensures Plus(next, n - 1, m) == Plus(a, n, m)
  {
    ModAdd(a + 1, n - 1, m);
  }

  lemma ByteIs(v: nat)
    ensures ByteOf(v) as nat == v % 256
  {
    Fits(v % 256);
  }

  function Count(n: nat): byte { if n == 0 then 0 else PlusOne(Count(n - 1)) }

  lemma {:induction false} CountIs(n: nat)
    requires n < 256
    ensures Count(n) as nat == n
  {
    if n > 0 {
      CountIs(n - 1);
      PlusOneIs(Count(n - 1));
    }
  }

  lemma Fits(n: nat)
    requires n < 256
    ensures (n as bv8) as nat == n
  {
    CountIs(n);
    Back(Count(n));
  }

  lemma Back(b: byte)
    ensures (b as nat) as bv8 == b
  {
  }

  lemma {:induction false} PutBytesIs(n: nat, v: nat)
    ensures Number(PutBytes(n, v)) == v % Octets.Pow256(n)
  {
    if n == 0 {
      assert Number([]) == 0 && Octets.Pow256(0) == 1;
    } else {
      PutBytesIs(n - 1, v / 256);
      ByteIs(v);
      NumberAppend(PutBytes(n - 1, v / 256), ByteOf(v));
      LastDigit(v, Octets.Pow256(n - 1));
    }
  }

  lemma LastDigit(v: nat, m: nat)
    requires m > 0
    ensures v % (256 * m) == 256 * (v / 256 % m) + v % 256
  {
    var q, r := v / 256, v % 256;
    var d := q / m;
    assert v == 256 * (q % m) + r + d * (256 * m);
    Shifted(256 * (q % m) + r, d, 256 * m);
    Small(256 * (q % m) + r, 256 * m);
  }

  /** The last block of GHASH: twice eight bytes, the number of bits of the additional data in front. */
  lemma LengthsAre(a: nat, c: nat)
    ensures Number(Lengths(a, c)[..8]) == 8 * a % 0x1_0000_0000_0000_0000
    ensures Number(Lengths(a, c)[8..]) == 8 * c % 0x1_0000_0000_0000_0000
  {
    PutBytesIs(8, a * 8);
    PutBytesIs(8, c * 8);
    Pow8();
    assert Lengths(a, c)[..8] == PutBytes(8, a * 8) && Lengths(a, c)[8..] == PutBytes(8, c * 8);
  }

  lemma Pow8()
    ensures Octets.Pow256(8) == 0x1_0000_0000_0000_0000
  {
    assert Octets.Pow256(2) == 0x1_0000;
    assert Octets.Pow256(4) == 0x1_0000_0000;
    assert Octets.Pow256(6) == 0x1_0000_0000_0000;
  }

  // ------------------------------------------------------------ bytes

  lemma XorBits(a: byte, b: byte, i: nat)
    requires i < 8
    ensures Bit(XorByte(a, b), i) <==> Bit(a, i) != Bit(b, i)
  {
    match i
    case 0 => XorMask(a, b, 1);
    case 1 => XorMask(a, b, 2);
    case 2 => XorMask(a, b, 4);
    case 3 => XorMask(a, b, 8);
    case 4 => XorMask(a, b, 0x10);
    case 5 => XorMask(a, b, 0x20);
    case 6 => XorMask(a, b, 0x40);
    case _ => XorMask(a, b, 0x80);
  }

  lemma XorMask(a: byte, b: byte, m: byte)
    requires m == 1 || m == 2 || m == 4 || m == 8 || m == 0x10 || m == 0x20 || m == 0x40 || m == 0x80
    ensures XorByte(a, b) & m != 0 <==> (a & m != 0) != (b & m != 0)
  {
  }

  /** A byte of padding is the number of the padding bytes. */
  lemma PadIs(n: nat)
    requires n < 256
    ensures PadByte(n) as nat == n
  {
    Fits(n);
  }

  // ------------------------------------------------------------ GHASH

  /** The blocks of d: its bytes in order, and zeros behind them. */
  lemma {:induction false} BlocksAre(d: seq<byte>, n: nat)
    ensures
      var b := Ghash.Blocks(d);
      |b| == (|d| + 15) / 16 && (n < 16 * |b| ==> |b[n / 16]| == 16 && b[n / 16][n % 16] == if n < |d| then d[n] else 0)
    decreases |d|
  {
    if |d| >= 16 && n >= 16 {
      BlocksAre(d[16..], n - 16);
    } else if |d| >= 16 {
      BlocksAre(d[16..], 0);
    }
  }

  /** GHASH of gf128.c: blocks times descending powers of H, the last block holding the bit lengths. */
  lemma GhashIs(h: seq<byte>, aad: seq<byte>, c: seq<byte>) returns (last: seq<byte>)
    requires |h| == 16
    ensures |last| == 16 && Number(last[..8]) == 8 * |aad| % 0x1_0000_0000_0000_0000
    ensures Number(last[8..]) == 8 * |c| % 0x1_0000_0000_0000_0000
    ensures Ghash.Hash(GhashField(), h, aad, c) == Gf128Bytes.ToBytes(
      Ghash.Sum(GhashField(), Gf128Bytes.FromBytes(h), ZeroGf(), Ghash.Blocks(aad) + Ghash.Blocks(c) + [last]))
  {
    last := Lengths(|aad|, |c|);
    LengthsAre(|aad|, |c|);
    GhashFieldLaws();
    Ghash.HashIsSum(GhashField(), h, aad, c);
  }

  // ------------------------------------------------------------ SM4-GCM

  /** The hash key is the zero block encrypted; Y_0 is the iv and the number 1 in four bytes, or for
      other lengths than 12 the hash of the iv. */
  lemma FirstCounterIs(userKey: seq<byte>, iv: seq<byte>)
    requires |userKey| == 16
    ensures
      var k, f := Sm4Cipher(userKey), GhashField();
      Gcm.HashKey(k) == EncBlock(userKey, [0, 0, 0, 0, 0, 0, 0, 0, 0, 0, 0, 0, 0, 0, 0, 0]) &&
      Gcm.FirstCounter(k, f, iv) == if |iv| == 12 then iv + [0, 0, 0, 1] else Ghash.Hash(f, Gcm.HashKey(k), [], iv)
  {
    assert Ghash.Zeros(16) == [0, 0, 0, 0, 0, 0, 0, 0, 0, 0, 0, 0, 0, 0, 0, 0];
  }

  /** Byte n of the ciphertext: the input and the encrypted counter, which starts one above Y_0 and
      counts modulo 2^128. */
  lemma CipherByte(userKey: seq<byte>, iv: seq<byte>, p: seq<byte>, n: nat) returns (y: seq<byte>)
    requires |userKey| == 16 && n < |p|
    ensures
      var k, f := Sm4Cipher(userKey), GhashField();
      var y0 := Gcm.FirstCounter(k, f, iv);
      |y0| == |y| == 16 && Number(y) == Plus(Number(y0), n / 16 + 1, Octets.Pow256(16)) &&
      |Gcm.Body(k, f, iv, p)| == |p| && Gcm.Body(k, f, iv, p)[n] == p[n] ^ EncBlock(userKey, y)[n % 16]
  {
    var k, f := Sm4Cipher(userKey), GhashField();
    var y0 := Gcm.FirstCounter(k, f, iv);
    GhashLaws(userKey);
    Gcm.Sizes16(k, f, iv, [], []);
    y := Counter(k, k.incr(y0), n / 16);
    CtrByte(k, k.incr(y0), p, n);
    forall a ensures IncrAt(k, a) { }
    CounterIs(k, y0, n / 16 + 1);
    CounterUnfold(k, y0, n / 16 + 1);
  }

  lemma AnyTagByte<G(!new)>(k: Cipher, f: Ghash.Field<G>, iv: seq<byte>, aad: seq<byte>, c: seq<byte>, n: nat)
    requires Gcm.Proper(k, f) && n < 16
    ensures
      var y0, h := Gcm.FirstCounter(k, f, iv), Ghash.Hash(f, Gcm.HashKey(k), aad, c);
      |h| == |k.enc(y0)| == |Gcm.Tag(k, f, iv, aad, c)| == 16 && Gcm.Tag(k, f, iv, aad, c)[n] == k.xor(k.enc(y0)[n], h[n])
  {
    Gcm.Sizes16(k, f, iv, aad, c);
  }

  /** Byte n of the tag: the encrypted Y_0 and the hash of additional data and ciphertext. */
  lemma TagByte(userKey: seq<byte>, iv: seq<byte>, aad: seq<byte>, c: seq<byte>, n: nat)
    requires |userKey| == 16 && n < 16
    ensures
      var k, f := Sm4Cipher(userKey), GhashField();
      var y0, h := Gcm.FirstCounter(k, f, iv), Ghash.Hash(f, Gcm.HashKey(k), aad, c);
      |h| == |Gcm.Tag(k, f, iv, aad, c)| == 16 && Gcm.Tag(k, f, iv, aad, c)[n] == EncBlock(userKey, y0)[n] ^ h[n]
  {
    GhashLaws(userKey);
    AnyTagByte(Sm4Cipher(userKey), GhashField(), iv, aad, c, n);
  }
}
