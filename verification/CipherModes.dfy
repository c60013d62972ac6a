/** CBC with padding and CTR over a 16-byte block cipher: what the modes compute, and that
    decryption inverts encryption. */
module CipherModes {
  import opened Wrappers
  import opened BlockModes

  /** A keyed block cipher with the byte operations the modes use. The sizes and laws are those
      of SM4 (module Sm4) and of bytes. */
  datatype Cipher = Cipher(
    enc: seq<byte> -> seq<byte>, dec: seq<byte> -> seq<byte>, xor: (byte, byte) -> byte,
    incr: seq<byte> -> seq<byte>, pad: nat -> byte, unpad: byte -> nat)

  ghost predicate BlockAt(k: Cipher, b: seq<byte>) {
    |b| == 16 ==> |k.enc(b)| == 16 && |k.dec(b)| == 16 && |k.incr(b)| == 16 && k.dec(k.enc(b)) == b
  }

  ghost predicate XorAt(k: Cipher, a: byte, b: byte) {
    k.xor(k.xor(a, b), b) == a && k.xor(a, b) == k.xor(b, a)
  }

  ghost predicate PadAt(k: Cipher, n: nat) { 1 <= n <= 16 ==> k.unpad(k.pad(n)) == n }

  ghost predicate Laws(k: Cipher) {
    (forall b :: BlockAt(k, b)) && (forall a, b :: XorAt(k, a, b)) && (forall n: nat :: PadAt(k, n))
  }

  /** gmssl_memxor over the shorter length. */
  function XorBytes(k: Cipher, a: seq<byte>, b: seq<byte>): (r: seq<byte>)
    ensures |r| == if |a| <= |b| then |a| else |b|
  {
    seq(if |a| <= |b| then |a| else |b|, i requires 0 <= i < |a| && i < |b| => k.xor(a[i], b[i]))
  }

  lemma XorTwice(k: Cipher, a: seq<byte>, b: seq<byte>)
    requires Laws(k) && |a| <= |b|
    ensures XorBytes(k, XorBytes(k, a, b), b) == a
  {
    forall i | 0 <= i < |a| ensures XorBytes(k, XorBytes(k, a, b), b)[i] == a[i] {
      assert XorAt(k, a[i], b[i]);
    }
  }

  // ------------------------------------------------------------ CBC

  function CbcOut(k: Cipher, iv: seq<byte>, b: seq<byte>): seq<byte> { k.enc(XorBytes(k, b, iv)) }

  /** The ciphertext block is the next iv. */
  function CbcEncrypt(k: Cipher): Mode {
    Mode((iv, b) => CbcOut(k, iv, b), (iv, b) => CbcOut(k, iv, b))
  }

  function CbcDecrypt(k: Cipher): Mode {
    Mode((iv, c) => XorBytes(k, k.dec(c), iv), (iv, c) => c)
  }

  lemma ModeSizes(k: Cipher)
    requires Laws(k)
    ensures Sizes(CbcEncrypt(k)) && Sizes(CbcDecrypt(k)) && Sizes(CtrMode(k))
  {
    forall s: seq<byte>, b: seq<byte>
      ensures SizesAt(CbcEncrypt(k), s, b) && SizesAt(CbcDecrypt(k), s, b) && SizesAt(CtrMode(k), s, b)
    {
      assert BlockAt(k, b) && BlockAt(k, s) && BlockAt(k, XorBytes(k, b, s));
    }
  }

  /** CBC decryption inverts CBC encryption on whole blocks. */
  lemma {:induction false} CbcRoundTrip(k: Cipher, iv: seq<byte>, p: seq<byte>)
    requires Laws(k) && |iv| == 16 && |p| % 16 == 0
    ensures var c := Run(CbcEncrypt(k), iv, p); |c| == |p| && Run(CbcDecrypt(k), iv, c) == p
    decreases |p|
  {
    ModeSizes(k);
    RunSize(CbcEncrypt(k), iv, p);
    if p != [] {
      var b, rest := p[..16], p[16..];
      var x := XorBytes(k, b, iv);
      var c0 := k.enc(x);
      assert BlockAt(k, x);
      CbcRoundTrip(k, c0, rest);
      var c := Run(CbcEncrypt(k), iv, p);
      assert c[..16] == c0 && c[16..] == Run(CbcEncrypt(k), c0, rest);
      XorTwice(k, b, iv);
    }
  }

  function Repeat(b: byte, n: nat): (s: seq<byte>)
    ensures |s| == n && forall i :: 0 <= i < n ==> s[i] == b
  {
    if n == 0 then [] else Repeat(b, n - 1) + [b]
  }

  /** p with 1 to 16 bytes of padding, each telling their number. */
  function Padded(k: Cipher, p: seq<byte>): (s: seq<byte>)
    ensures |s| % 16 == 0 && |p| < |s| <= |p| + 16
  {
    var n := 16 - |p| % 16;
    p + Repeat(k.pad(n), n)
  }

  function PaddedEncrypt(k: Cipher, iv: seq<byte>, p: seq<byte>): seq<byte> {
    Run(CbcEncrypt(k), iv, Padded(k, p))
  }

  /** Only the last byte of the padding is looked at. */
  function Unpad(k: Cipher, d: seq<byte>): Option<seq<byte>> {
    if d == [] then None
    else
      var n := k.unpad(d[|d| - 1]);
      if 1 <= n <= 16 && n <= |d| then Some(d[..|d| - n]) else None
  }

  /** What sm4_cbc_padding_decrypt accepts. */
  function PaddedDecrypt(k: Cipher, iv: seq<byte>, c: seq<byte>): Option<seq<byte>> {
    if |c| == 0 || |c| % 16 != 0 then None else Unpad(k, Run(CbcDecrypt(k), iv, c))
  }

  lemma PaddedRoundTrip(k: Cipher, iv: seq<byte>, p: seq<byte>)
    requires Laws(k) && |iv| == 16
    ensures PaddedDecrypt(k, iv, PaddedEncrypt(k, iv, p)) == Some(p)
  {
    var n := 16 - |p| % 16;
    CbcRoundTrip(k, iv, Padded(k, p));
    assert PadAt(k, n);
    assert Padded(k, p)[..|p|] == p;
  }

  /** sm4_cbc_padding_encrypt: whole blocks, then the padded rest from the last ciphertext block. */
  method CbcPaddingEncrypt(k: Cipher, iv0: seq<byte>, input: seq<byte>) returns (out: seq<byte>)
    requires Laws(k) && |iv0| == 16
    ensures out == PaddedEncrypt(k, iv0, input)
  {
    var rem := |input| % 16;
    var padding := 16 - |input| % 16;
    var whole, block := input[..|input| - rem], input[|input| - rem..] + Repeat(k.pad(padding), padding);
    var iv := iv0;
    out := [];
    assert input == whole + input[|input| - rem..];
    assert Padded(k, input) == whole + block;
    RunAppend(CbcEncrypt(k), iv0, whole, block);
    if |input| / 16 > 0 {
      var s: seq<byte>;
      out, s := RunBlocks(CbcEncrypt(k), iv, whole);
      ModeSizes(k);
      RunSize(CbcEncrypt(k), iv0, whole);
      LastIsNext(k, iv0, whole);
      iv := out[|out| - 16..];
    }
    var last, s := RunBlocks(CbcEncrypt(k), iv, block);
    out := out + last;
  }

  /** The iv for what follows is the last ciphertext block. */
  lemma {:induction false} LastIsNext(k: Cipher, iv: seq<byte>, p: seq<byte>)
    requires Laws(k) && |iv| == 16 && |p| % 16 == 0 && p != []
    ensures var c := Run(CbcEncrypt(k), iv, p); |c| == |p| && End(CbcEncrypt(k), iv, p) == c[|c| - 16..]
    decreases |p|
  {
    ModeSizes(k);
    RunSize(CbcEncrypt(k), iv, p);
    var b, rest := p[..16], p[16..];
    var c0 := CbcOut(k, iv, b);
    assert SizesAt(CbcEncrypt(k), iv, b);
    if rest == [] {
      assert Run(CbcEncrypt(k), c0, rest) == [] && End(CbcEncrypt(k), c0, rest) == c0;
    } else {
      LastIsNext(k, c0, rest);
    }
  }

  /** All blocks but the last, and the iv for that. */
  method DecryptFront(k: Cipher, iv0: seq<byte>, front: seq<byte>) returns (out: seq<byte>, iv: seq<byte>)
    requires Laws(k) && |iv0| == 16 && |front| % 16 == 0
    ensures out == Run(CbcDecrypt(k), iv0, front) && |iv| == 16 && iv == End(CbcDecrypt(k), iv0, front)
  {
    out, iv := [], iv0;
    if |front| > 0 {
      var s: seq<byte>;
      out, s := RunBlocks(CbcDecrypt(k), iv, front);
      iv := front[|front| - 16..];
    }
    CipherIsNext(k, iv0, front);
  }

  /** sm4_cbc_padding_decrypt; None stands for the error and the empty-input returns. */
  method CbcPaddingDecrypt(k: Cipher, iv0: seq<byte>, input: seq<byte>) returns (r: Option<seq<byte>>)
    requires Laws(k) && |iv0| == 16
    ensures r == PaddedDecrypt(k, iv0, input)
  {
    if |input| == 0 || |input| % 16 != 0 {
      return None;
    }
    var front, final := input[..|input| - 16], input[|input| - 16..];
    var out, iv := DecryptFront(k, iv0, front);
    var block, s := RunBlocks(CbcDecrypt(k), iv, final);
    DecryptLast(k, iv0, front, final, iv);
    assert input == front + final;
    UnpadResult(k, iv0, input, out, block);
    var padding := k.unpad(block[15]);
    if padding < 1 || padding > 16 {
      return None;
    }
    return Some(out + block[..16 - padding]);
  }

  /** The last block decrypts from the ciphertext block before it. */
  lemma DecryptLast(k: Cipher, iv0: seq<byte>, front: seq<byte>, final: seq<byte>, iv: seq<byte>)
    requires Laws(k) && |iv0| == |iv| == 16 && |front| % 16 == 0 && |final| == 16 && iv == End(CbcDecrypt(k), iv0, front)
    ensures var block := Run(CbcDecrypt(k), iv, final);
      |block| == 16 && Run(CbcDecrypt(k), iv0, front + final) == Run(CbcDecrypt(k), iv0, front) + block
  {
    RunAppend(CbcDecrypt(k), iv0, front, final);
    ModeSizes(k);
    RunSize(CbcDecrypt(k), iv, final);
  }

  lemma UnpadResult(k: Cipher, iv0: seq<byte>, input: seq<byte>, out: seq<byte>, block: seq<byte>)
    requires |input| > 0 && |input| % 16 == 0 && |block| == 16 && Run(CbcDecrypt(k), iv0, input) == out + block
    ensures var n := k.unpad(block[15]);
      PaddedDecrypt(k, iv0, input) == if 1 <= n <= 16 then Some(out + block[..16 - n]) else None
  {
    UnpadLast(k, out, block);
  }

  lemma UnpadLast(k: Cipher, out: seq<byte>, block: seq<byte>)
    requires |block| == 16
    ensures var n := k.unpad(block[15]);
      Unpad(k, out + block) == if 1 <= n <= 16 then Some(out + block[..16 - n]) else None
  {
    var n := k.unpad(block[15]);
    if 1 <= n <= 16 {
      assert (out + block)[..|out| + 16 - n] == out + block[..16 - n];
    }
  }

  lemma {:induction false} CipherIsNext(k: Cipher, iv: seq<byte>, c: seq<byte>)
    requires |c| % 16 == 0
    ensures End(CbcDecrypt(k), iv, c) == if c == [] then iv else c[|c| - 16..]
    decreases |c|
  {
    if c != [] {
      CipherIsNext(k, c[..16], c[16..]);
    }
  }

  // ------------------------------------------------------------ CTR

  function CtrMode(k: Cipher): Mode {
    Mode((ctr, b) => XorBytes(k, b, k.enc(ctr)), (ctr, b) => k.incr(ctr))
  }

  /** sm4_ctr_encrypt on any number of bytes. */
  function Ctr(k: Cipher, ctr: seq<byte>, d: seq<byte>): (r: seq<byte>)
    decreases |d|
  {
    if d == [] then []
    else if |d| < 16 then XorBytes(k, d, k.enc(ctr))
    else XorBytes(k, d[..16], k.enc(ctr)) + Ctr(k, k.incr(ctr), d[16..])
  }

  method CtrEncrypt(k: Cipher, ctr0: seq<byte>, input: seq<byte>) returns (out: seq<byte>, ctr: seq<byte>)
    requires Laws(k) && |ctr0| == 16
    ensures out == Ctr(k, ctr0, input)
    ensures |input| % 16 == 0 ==> ctr == End(CtrMode(k), ctr0, input)
  {
    var d := input;
    out, ctr := [], ctr0;
    while d != []
      invariant Ctr(k, ctr0, input) == out + Ctr(k, ctr, d) && |ctr| == 16
      invariant |input| % 16 == 0 ==> SameEnd(k, ctr0, input, ctr, d)
      decreases |d|
    {
      var len := if |d| < 16 then |d| else 16;
      assert BlockAt(k, ctr);
      CtrUnfold(k, ctr, d, len);
      if |input| % 16 == 0 { CtrEndUnfold(k, ctr0, input, ctr, d); }
      var block := XorBytes(k, d[..len], k.enc(ctr));
      Assoc(out, block, Ctr(k, k.incr(ctr), d[len..]));
      out := out + block;
      ctr := k.incr(ctr);
      d := d[len..];
    }
  }

  lemma CtrUnfold(k: Cipher, ctr: seq<byte>, d: seq<byte>, len: nat)
    requires d != [] && len == if |d| < 16 then |d| else 16
    ensures Ctr(k, ctr, d) == XorBytes(k, d[..len], k.enc(ctr)) + Ctr(k, k.incr(ctr), d[len..])
  {
    if |d| < 16 {
      assert d[..len] == d && d[len..] == [];
      var x := XorBytes(k, d, k.enc(ctr));
      assert x + [] == x;
    }
  }

  /** On whole blocks, the counter that d leaves from ctr is the final one. */
  ghost predicate SameEnd(k: Cipher, ctr0: seq<byte>, input: seq<byte>, ctr: seq<byte>, d: seq<byte>)
    requires |input| % 16 == 0
  {
    |d| % 16 == 0 && End(CtrMode(k), ctr0, input) == End(CtrMode(k), ctr, d)
  }

  lemma CtrEndUnfold(k: Cipher, ctr0: seq<byte>, input: seq<byte>, ctr: seq<byte>, d: seq<byte>)
    requires |input| % 16 == 0 && d != [] && SameEnd(k, ctr0, input, ctr, d)
    ensures |d| >= 16 && SameEnd(k, ctr0, input, k.incr(ctr), d[16..])
  {
  }

  lemma CtrRunUnfold(k: Cipher, ctr: seq<byte>, a: seq<byte>)
    requires a != [] && |a| % 16 == 0
    ensures Run(CtrMode(k), ctr, a) == XorBytes(k, a[..16], k.enc(ctr)) + Run(CtrMode(k), k.incr(ctr), a[16..])
    ensures End(CtrMode(k), ctr, a) == End(CtrMode(k), k.incr(ctr), a[16..])
  {
  }

  /** Whole blocks through the mode, then the rest. */
  lemma {:induction false} CtrAppend(k: Cipher, ctr: seq<byte>, a: seq<byte>, b: seq<byte>)
    requires |a| % 16 == 0
    ensures Ctr(k, ctr, a + b) == Run(CtrMode(k), ctr, a) + Ctr(k, End(CtrMode(k), ctr, a), b)
    decreases |a|
  {
    if a == [] {
      assert a + b == b;
    } else {
      var x, rest := XorBytes(k, a[..16], k.enc(ctr)), a[16..];
      CtrAppend(k, k.incr(ctr), rest, b);
      assert (a + b)[..16] == a[..16] && (a + b)[16..] == rest + b;
      CtrUnfold(k, ctr, a + b, 16);
      CtrRunUnfold(k, ctr, a);
      Assoc(x, Run(CtrMode(k), k.incr(ctr), rest), Ctr(k, End(CtrMode(k), ctr, a), b));
    }
  }

  /** CTR decryption is CTR encryption. */
  lemma {:induction false} CtrRoundTrip(k: Cipher, ctr: seq<byte>, d: seq<byte>)
    requires Laws(k) && |ctr| == 16
    ensures |Ctr(k, ctr, d)| == |d| && Ctr(k, ctr, Ctr(k, ctr, d)) == d
    decreases |d|
  {
    assert BlockAt(k, ctr);
    if d == [] {
    } else if |d| < 16 {
      XorTwice(k, d, k.enc(ctr));
    } else {
      var x := XorBytes(k, d[..16], k.enc(ctr));
      CtrRoundTrip(k, k.incr(ctr), d[16..]);
      XorTwice(k, d[..16], k.enc(ctr));
      var c := Ctr(k, ctr, d);
      assert c[..16] == x && c[16..] == Ctr(k, k.incr(ctr), d[16..]);
    }
  }
}
