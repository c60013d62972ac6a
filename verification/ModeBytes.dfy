/** What CTR and CBC compute, byte by byte and block by block, over any block cipher. */
module ModeBytes {
  import opened BlockModes
  import opened CipherModes

  /** The counter after n increments. */
  function Counter(k: Cipher, ctr: seq<byte>, n: nat): seq<byte>
    decreases n
  {
    if n == 0 then ctr else Counter(k, k.incr(ctr), n - 1)
  }

  /** Byte n of CTR: the byte of the input and that of the encrypted counter. */
  lemma {:induction false} CtrByte(k: Cipher, ctr: seq<byte>, d: seq<byte>, n: nat)
    requires Laws(k) && |ctr| == 16 && n < |d|
    ensures
      var y := Counter(k, ctr, n / 16);
      |y| == |k.enc(y)| == 16 && |Ctr(k, ctr, d)| == |d| && Ctr(k, ctr, d)[n] == k.xor(d[n], k.enc(y)[n % 16])
    decreases |d|
  {
    assert BlockAt(k, ctr);
    CtrRoundTrip(k, ctr, d);
    if n >= 16 {
      CtrByte(k, k.incr(ctr), d[16..], n - 16);
    }
  }

  /** Block i of CBC: the block of the input and the block before it, or the iv, encrypted together. */
  lemma {:induction false} CbcBlock(k: Cipher, iv: seq<byte>, p: seq<byte>, i: nat)
    requires Laws(k) && |iv| == 16 && |p| % 16 == 0 && 16 * i + 16 <= |p|
    ensures
      var c := Run(CbcEncrypt(k), iv, p);
      |c| == |p| && At(c, i) == k.enc(XorBytes(k, At(p, i), if i == 0 then iv else At(c, i - 1)))
    decreases |p|
  {
    var c0, rest := CbcOut(k, iv, p[..16]), p[16..];
    var d := Run(CbcEncrypt(k), c0, rest);
    CbcSizes(k, iv, p);
    if i > 0 {
      CbcBlock(k, c0, rest, i - 1);
      AtTail(p[..16], rest, i);
      AtTail(c0, d, i);
      assert p == p[..16] + rest;
      if i > 1 { AtTail(c0, d, i - 1); } else { AtHead(c0, d); }
    } else {
      AtHead(c0, d);
    }
  }

  /** Block i of a byte string. */
  function At(b: seq<byte>, i: nat): seq<byte>
    requires 16 * i + 16 <= |b|
  {
    b[16 * i..16 * i + 16]
  }

  lemma AtTail(x: seq<byte>, y: seq<byte>, i: nat)
    requires |x| == 16 && i > 0 && 16 * i <= |y|
    ensures At(x + y, i) == At(y, i - 1)
  {
  }

  lemma AtHead(x: seq<byte>, y: seq<byte>)
    requires |x| == 16
    ensures At(x + y, 0) == x
  {
  }

  lemma CbcSizes(k: Cipher, iv: seq<byte>, p: seq<byte>)
    requires Laws(k) && |iv| == 16 && |p| % 16 == 0 && p != []
    ensures
      var c0 := CbcOut(k, iv, p[..16]);
      var d := Run(CbcEncrypt(k), c0, p[16..]);
      |c0| == 16 && |d| == |p| - 16 && Run(CbcEncrypt(k), iv, p) == c0 + d
  {
    assert BlockAt(k, XorBytes(k, p[..16], iv));
    ModeSizes(k);
    RunSize(CbcEncrypt(k), CbcOut(k, iv, p[..16]), p[16..]);
  }

  /** The padding: as many bytes as fill the last block, a whole block if it is full, each telling their number. */
  lemma PaddedIs(k: Cipher, p: seq<byte>, i: nat)
    ensures
      var s := Padded(k, p);
      |s| == (|p| / 16 + 1) * 16 && (i < |s| ==> s[i] == if i < |p| then p[i] else k.pad(|s| - |p|))
  {
  }
}
