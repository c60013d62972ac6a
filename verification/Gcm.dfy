/** GCM: the one-shot functions of sm4_modes.c and the streaming encryption of aead.c, over any
    block cipher and any field for GHASH. */
module Gcm {
  import opened Wrappers
  import opened BlockModes
  import opened CipherModes
  import Ghash
  import Aead

  /** The hash key, the zero block encrypted. */
  function HashKey(k: Cipher): seq<byte> { k.enc(Ghash.Zeros(16)) }

  /** Y_0 from the initialization vector. */
  function FirstCounter<G>(k: Cipher, f: Ghash.Field<G>, iv: seq<byte>): seq<byte> {
    if |iv| == 12 then iv + [0, 0, 0, 1] else Ghash.Hash(f, HashKey(k), [], iv)
  }

  ghost predicate ToAt<G>(f: Ghash.Field<G>, x: G) { |f.to(x)| == 16 }

  ghost predicate Proper<G(!new)>(k: Cipher, f: Ghash.Field<G>) { Laws(k) && forall x :: ToAt(f, x) }

  lemma Sizes16<G(!new)>(k: Cipher, f: Ghash.Field<G>, iv: seq<byte>, aad: seq<byte>, c: seq<byte>)
    requires Proper(k, f)
    ensures |HashKey(k)| == |FirstCounter(k, f, iv)| == |k.enc(FirstCounter(k, f, iv))| == 16
    ensures |k.incr(FirstCounter(k, f, iv))| == |Ghash.Hash(f, HashKey(k), aad, c)| == 16
  {
    var z, H := Ghash.Zeros(16), HashKey(k);
    assert BlockAt(k, z);
    HashSize(f, H, [], iv);
    HashSize(f, H, aad, c);
    assert BlockAt(k, FirstCounter(k, f, iv));
  }

  lemma HashSize<G(!new)>(f: Ghash.Field<G>, h: seq<byte>, aad: seq<byte>, c: seq<byte>)
    requires forall x: G :: ToAt(f, x)
    ensures |Ghash.Hash(f, h, aad, c)| == 16
  {
    var H := f.from(h);
    var X := Ghash.Absorb(f, H, Ghash.Absorb(f, H, f.zero, aad), c);
    assert ToAt(f, Ghash.Step(f, H, X, f.lengths(|aad|, |c|)));
  }

  /** The first n bytes. */
  function First(s: seq<byte>, n: nat): seq<byte> { if n <= |s| then s[..n] else s }

  /** The full authentication tag of a ciphertext. */
  function Tag<G>(k: Cipher, f: Ghash.Field<G>, iv: seq<byte>, aad: seq<byte>, c: seq<byte>): seq<byte> {
    XorBytes(k, k.enc(FirstCounter(k, f, iv)), Ghash.Hash(f, HashKey(k), aad, c))
  }

  function Body<G>(k: Cipher, f: Ghash.Field<G>, iv: seq<byte>, d: seq<byte>): seq<byte> {
    Ctr(k, k.incr(FirstCounter(k, f, iv)), d)
  }

  /** The counter loop of the one-shot functions: increment, then encrypt. */
  method CounterLoop(k: Cipher, Y0: seq<byte>, d0: seq<byte>) returns (out: seq<byte>)
    requires Laws(k) && |Y0| == 16
    ensures out == Ctr(k, k.incr(Y0), d0)
  {
    var Y, d := Y0, d0;
    out := [];
    while d != []
      invariant |Y| == 16 && Ctr(k, k.incr(Y0), d0) == out + Ctr(k, k.incr(Y), d)
      decreases |d|
    {
      var len := if |d| < 16 then |d| else 16;
      assert BlockAt(k, Y);
      Y := k.incr(Y);
      CtrUnfold(k, Y, d, len);
      var block := XorBytes(k, d[..len], k.enc(Y));
      Assoc(out, block, Ctr(k, k.incr(Y), d[len..]));
      out := out + block;
      d := d[len..];
    }
  }

  /** Y_0 as the program computes it. */
  method StartCounter<G(!new)>(k: Cipher, f: Ghash.Field<G>, H: seq<byte>, iv: seq<byte>) returns (Y: seq<byte>)
    requires Proper(k, f) && H == HashKey(k)
    ensures Y == FirstCounter(k, f, iv) && |Y| == 16
  {
    Sizes16(k, f, iv, [], []);
    if |iv| == 12 {
      Y := iv + [0, 0, 0, 1];
    } else {
      Y := Ghash.OneShot(f, H, [], iv);
    }
  }

  /** sm4_gcm_encrypt. */
  method Encrypt<G(!new)>(k: Cipher, f: Ghash.Field<G>, iv: seq<byte>, aad: seq<byte>, input: seq<byte>, taglen: nat)
    returns (ret: int, out: seq<byte>, tag: seq<byte>)
    requires Proper(k, f)
    ensures ret == if taglen > 16 then -1 else 1
    ensures ret == 1 ==> out == Body(k, f, iv, input) && tag == First(Tag(k, f, iv, aad, out), taglen)
  {
    if taglen > 16 {
      return -1, [], [];
    }
    var H := k.enc(Ghash.Zeros(16));
    var Y := StartCounter(k, f, H, iv);
    var T := k.enc(Y);
    out := CounterLoop(k, Y, input);
    H := Ghash.OneShot(f, H, aad, out);
    Sizes16(k, f, iv, aad, out);
    tag := XorBytes(k, T, H)[..taglen];
    ret := 1;
  }

  /** sm4_gcm_decrypt: nothing is decrypted unless the tag matches. */
  method Decrypt<G(!new)>(k: Cipher, f: Ghash.Field<G>, iv: seq<byte>, aad: seq<byte>, input: seq<byte>, tag: seq<byte>)
    returns (ret: int, out: seq<byte>)
    requires Proper(k, f) && |tag| <= 16
    ensures ret == if First(Tag(k, f, iv, aad, input), |tag|) == tag then 1 else -1
    ensures ret == 1 ==> out == Body(k, f, iv, input)
    ensures ret == -1 ==> out == []
  {
    var H := k.enc(Ghash.Zeros(16));
    var Y := StartCounter(k, f, H, iv);
    H := Ghash.OneShot(f, H, aad, input);
    var T := k.enc(Y);
    Sizes16(k, f, iv, aad, input);
    if XorBytes(k, T, H)[..|tag|] != tag {
      return -1, [];
    }
    out := CounterLoop(k, Y, input);
    ret := 1;
  }

  /** Decryption accepts what encryption put out, and gives back the input. */
  lemma RoundTrip<G(!new)>(k: Cipher, f: Ghash.Field<G>, iv: seq<byte>, aad: seq<byte>, p: seq<byte>)
    requires Proper(k, f)
    ensures Body(k, f, iv, Body(k, f, iv, p)) == p
    ensures |Tag(k, f, iv, aad, Body(k, f, iv, p))| == 16
  {
    Sizes16(k, f, iv, aad, Body(k, f, iv, p));
    CtrRoundTrip(k, k.incr(FirstCounter(k, f, iv)), p);
  }

  // ------------------------------------------------------------ streaming

  /** GCM as a scheme of the streaming contexts. */
  function GcmScheme<G>(k: Cipher, f: Ghash.Field<G>, iv: seq<byte>, aad: seq<byte>): Aead.Scheme {
    Aead.Scheme(k, false, c => Tag(k, f, iv, aad, c), 16, k.incr(FirstCounter(k, f, iv)))
  }

  /** Streaming decryption with a tag of 16 bytes is Aead.Decryptor for this scheme. */
  lemma GcmIsScheme<G(!new)>(k: Cipher, f: Ghash.Field<G>, iv: seq<byte>, aad: seq<byte>, p: seq<byte>)
    requires Proper(k, f)
    ensures var x := GcmScheme(k, f, iv, aad);
      Aead.Proper(x) && Aead.Seal(x, p) == Body(k, f, iv, p) + Tag(k, f, iv, aad, Body(k, f, iv, p))
  {
    var x := GcmScheme(k, f, iv, aad);
    forall c: seq<byte> ensures Aead.MacAt(x, c) { Sizes16(k, f, iv, aad, c); }
    Sizes16(k, f, iv, aad, p);
  }

  /** SM4_GCM_CTX for encryption. */
  class Encryptor<G(==, !new)> {
    const k: Cipher
    const f: Ghash.Field<G>
    const iv: seq<byte>
    const aad: seq<byte>
    const taglen: nat
    const enc: Context
    const mac: Ghash.Context<G>
    const Y: seq<byte>

    ghost predicate Valid()
      reads this, enc, enc.block, mac, mac.block
    {
      && Proper(k, f) && taglen <= 16 && Y == k.enc(FirstCounter(k, f, iv)) && CipherReady() && MacReady()
      && enc.block != mac.block && mac.Data() == enc.Output()
    }

    ghost predicate CipherReady()
      reads enc, enc.block
    {
      enc.Valid() && enc.num < 16 && enc.m == CtrMode(k) && enc.start == k.incr(FirstCounter(k, f, iv))
    }

    ghost predicate MacReady()
      reads mac, mac.block
    {
      mac.Valid(f) && mac.H == f.from(HashKey(k)) && mac.aadlen == |aad| &&
      mac.start == Ghash.Absorb(f, f.from(HashKey(k)), f.zero, aad)
    }

    /** sm4_gcm_encrypt_init. */
    constructor (k: Cipher, f: Ghash.Field<G>, iv: seq<byte>, aad: seq<byte>, taglen: nat)
      requires Proper(k, f) && 8 <= taglen <= 16
      ensures Valid() && fresh(enc) && fresh(enc.block) && fresh(mac) && fresh(mac.block)
      ensures enc.Data() == [] && this.k == k && this.f == f && this.iv == iv && this.aad == aad && this.taglen == taglen
    {
      var H := k.enc(Ghash.Zeros(16));
      var Y0 := StartCounter(k, f, H, iv);
      this.k, this.f, this.iv, this.aad, this.taglen := k, f, iv, aad, taglen;
      mac := new Ghash.Context(f, H, aad);
      Y := k.enc(Y0);
      enc := new Context(CtrMode(k), k.incr(Y0));
    }

    /** sm4_gcm_encrypt_update. */
    method Update(input: seq<byte>) returns (out: seq<byte>)
      requires Valid()
      modifies enc, enc.block, mac, mac.block
      ensures Valid() && enc.Data() == old(enc.Data()) + input && enc.Output() == old(enc.Output()) + out
    {
      out := enc.EncryptUpdate(input);
      mac.Update(f, out);
    }

    /** sm4_gcm_encrypt_finish: for every chunking, ciphertext and tag of the one-shot function. */
    method Finish() returns (out: seq<byte>)
      requires Valid()
      modifies mac, mac.block
      ensures var c := Body(k, f, iv, enc.Data()); old(enc.Output()) + out == c + First(Tag(k, f, iv, aad, c), taglen)
    {
      CtrAppend(k, enc.start, enc.whole, enc.block[..enc.num]);
      Sizes16(k, f, iv, aad, Body(k, f, iv, enc.Data()));
      ModeSizes(k);
      RunSize(enc.m, enc.start, enc.whole);
      var s: seq<byte>;
      out, s := CtrEncrypt(k, enc.state, enc.block[..enc.num]);
      mac.Update(f, out);
      var t := mac.Finish(f, HashKey(k), aad);
      t := XorBytes(k, t, Y);
      XorCommutes(k, t, Y, Ghash.Hash(f, HashKey(k), aad, Body(k, f, iv, enc.Data())));
      Assoc(enc.Output(), out, t[..taglen]);
      out := out + t[..taglen];
    }
  }

  lemma XorCommutes(k: Cipher, t: seq<byte>, a: seq<byte>, b: seq<byte>)
    requires Laws(k) && t == XorBytes(k, b, a) && |a| == |b|
    ensures t == XorBytes(k, a, b)
  {
    forall i | 0 <= i < |a| ensures t[i] == XorBytes(k, a, b)[i] {
      assert XorAt(k, a[i], b[i]);
    }
  }
}
