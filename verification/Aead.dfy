/** The streaming authenticated encryption of aead.c: a block mode and a MAC over the ciphertext.
    The MAC context is the sequence of bytes it has been given; mac maps them to the MAC, whatever
    it is (SM3-HMAC with its key and the additional data, or GHASH masked with a cipher block). */
module Aead {
  import opened Wrappers
  import opened BlockModes
  import opened CipherModes

  /** cbc tells CBC with padding from CTR; size is the length of the MAC. */
  datatype Scheme = Scheme(k: Cipher, cbc: bool, mac: seq<byte> -> seq<byte>, size: nat, iv: seq<byte>)

  ghost predicate MacAt(x: Scheme, c: seq<byte>) { |x.mac(c)| == x.size }

  ghost predicate Proper(x: Scheme) {
    Laws(x.k) && |x.iv| == 16 && x.size > 0 && forall c :: MacAt(x, c)
  }

  function EncryptBody(x: Scheme, p: seq<byte>): seq<byte> {
    if x.cbc then PaddedEncrypt(x.k, x.iv, p) else Ctr(x.k, x.iv, p)
  }

  function DecryptBody(x: Scheme, c: seq<byte>): Option<seq<byte>> {
    if x.cbc then PaddedDecrypt(x.k, x.iv, c) else Some(Ctr(x.k, x.iv, c))
  }

  /** Encrypt then MAC. */
  function Seal(x: Scheme, p: seq<byte>): seq<byte> {
    var c := EncryptBody(x, p);
    c + x.mac(c)
  }

  function Open(x: Scheme, d: seq<byte>): Option<seq<byte>> {
    if |d| < x.size then None
    else
      var c, tag := d[..|d| - x.size], d[|d| - x.size..];
      if x.mac(c) == tag then DecryptBody(x, c) else None
  }

  /** What is opened is what was sealed. */
  lemma OpenSeal(x: Scheme, p: seq<byte>)
    requires Proper(x)
    ensures Open(x, Seal(x, p)) == Some(p)
  {
    var c := EncryptBody(x, p);
    assert MacAt(x, c);
    assert Seal(x, p)[..|c|] == c && Seal(x, p)[|c|..] == x.mac(c);
    if x.cbc {
      PaddedRoundTrip(x.k, x.iv, p);
    } else {
      CtrRoundTrip(x.k, x.iv, p);
    }
  }

  function EncryptMode(x: Scheme): Mode { if x.cbc then CbcEncrypt(x.k) else CtrMode(x.k) }

  function DecryptMode(x: Scheme): Mode { if x.cbc then CbcDecrypt(x.k) else CtrMode(x.k) }

  // ------------------------------------------------------------ finishing a body

  /** Whole blocks through the mode, the rest through the padded or partial end. */
  lemma FinishEncrypt(x: Scheme, whole: seq<byte>, rest: seq<byte>)
    requires |whole| % 16 == 0
    ensures var m := EncryptMode(x); var s := End(m, x.iv, whole);
      EncryptBody(x, whole + rest) == Run(m, x.iv, whole) +
        (if x.cbc then PaddedEncrypt(x.k, s, rest) else Ctr(x.k, s, rest))
  {
    if x.cbc {
      RunAppend(CbcEncrypt(x.k), x.iv, whole, Padded(x.k, rest));
      PaddedWhole(x.k, whole, rest);
    } else {
      CtrAppend(x.k, x.iv, whole, rest);
    }
  }

  lemma PaddedWhole(k: CipherModes.Cipher, whole: seq<byte>, rest: seq<byte>)
    requires |whole| % 16 == 0
    ensures Padded(k, whole + rest) == whole + Padded(k, rest)
  {
    var n := 16 - |rest| % 16;
    assert |whole + rest| % 16 == |rest| % 16;
    Assoc(whole, rest, Repeat(k.pad(n), n));
  }

  lemma FinishCbcDecrypt(x: Scheme, whole: seq<byte>, block: seq<byte>)
    requires Proper(x) && x.cbc && |whole| % 16 == 0 && |block| == 16
    ensures var m := CbcDecrypt(x.k); var s := End(m, x.iv, whole);
      DecryptBody(x, whole + block) == match PaddedDecrypt(x.k, s, block)
        case Some(rest) => Some(Run(m, x.iv, whole) + rest)
        case None => None
  {
    var m := CbcDecrypt(x.k);
    var s := End(m, x.iv, whole);
    RunAppend(m, x.iv, whole, block);
    ModeSizes(x.k);
    RunSize(m, x.iv, whole);
    RunSize(m, s, block);
    OneMore(whole, block);
    UnpadWhole(x.k, x.iv, s, whole + block, block, Run(m, x.iv, whole), Run(m, s, block));
  }

  lemma OneMore(whole: seq<byte>, block: seq<byte>)
    requires |whole| % 16 == 0 && |block| == 16
    ensures |whole + block| % 16 == 0 && |whole + block| > 0
  {
  }

  lemma UnpadWhole(k: CipherModes.Cipher, iv: seq<byte>, s: seq<byte>, c: seq<byte>, block: seq<byte>,
                   out: seq<byte>, last: seq<byte>)
    requires |c| % 16 == 0 && |c| > 0 && |block| == 16 && |last| == 16
    requires Run(CbcDecrypt(k), iv, c) == out + last && Run(CbcDecrypt(k), s, block) == last
    ensures PaddedDecrypt(k, iv, c) == match PaddedDecrypt(k, s, block)
      case Some(rest) => Some(out + rest)
      case None => None
  {
    UnpadPrefix(k, out, last);
  }

  lemma UnpadPrefix(k: CipherModes.Cipher, out: seq<byte>, block: seq<byte>)
    requires |block| == 16
    ensures Unpad(k, out + block) == match Unpad(k, block)
      case Some(rest) => Some(out + rest)
      case None => None
  {
    UnpadLast(k, out, block);
    UnpadLast(k, [], block);
    assert [] + block == block;
    assert forall r: seq<byte> :: [] + r == r;
  }

  // ------------------------------------------------------------ encryption

  /** The encryption contexts of SM4_CBC_SM3_HMAC_CTX and SM4_CTR_SM3_HMAC_CTX. */
  class Encryptor {
    const x: Scheme
    const enc: Context
    var macData: seq<byte>

    ghost predicate Valid()
      reads this, enc, enc.block
    {
      enc.Valid() && enc.num < 16 && enc.m == EncryptMode(x) && enc.start == x.iv && macData == enc.Output() && Proper(x)
    }

    constructor (x: Scheme)
      requires Proper(x)
      ensures Valid() && fresh(enc) && fresh(enc.block) && enc.Data() == [] && this.x == x
    {
      this.x := x;
      enc := new Context(EncryptMode(x), x.iv);
      macData := [];
    }

    /** sm4_cbc_sm3_hmac_encrypt_update, sm4_ctr_sm3_hmac_encrypt_update: any chunk of plaintext. */
    method Update(input: seq<byte>) returns (out: seq<byte>)
      requires Valid()
      modifies this, enc, enc.block
      ensures Valid() && enc.Data() == old(enc.Data()) + input && enc.Output() == old(enc.Output()) + out
    {
      out := enc.EncryptUpdate(input);
      macData := macData + out;
    }

    /** The finish functions: whatever the chunks were, all output together seals all input. */
    method Finish() returns (out: seq<byte>)
      requires Valid()
      modifies this
      ensures enc.Output() + out == Seal(x, enc.Data())
    {
      FinishEncrypt(x, enc.whole, enc.block[..enc.num]);
      ModeSizes(x.k);
      RunSize(enc.m, enc.start, enc.whole);
      if x.cbc {
        out := CbcPaddingEncrypt(x.k, enc.state, enc.block[..enc.num]);
      } else {
        var s: seq<byte>;
        out, s := CtrEncrypt(x.k, enc.state, enc.block[..enc.num]);
      }
      macData := macData + out;
      Assoc(enc.Output(), out, x.mac(macData));
      out := out + x.mac(macData);
    }
  }

  // ------------------------------------------------------------ decryption

  /** The decryption contexts: the last size bytes of the input so far are held back in mac, as
      they may be the MAC. */
  class Decryptor {
    const x: Scheme
    const dec: Context
    const mac: array<byte>
    var maclen: nat
    var macData: seq<byte>

    ghost predicate Valid()
      reads this, dec, dec.block, mac
    {
      && Proper(x) && mac != dec.block && mac.Length == x.size && maclen <= x.size && Cipher()
      && macData == dec.Data() && (maclen < x.size ==> macData == [])
    }

    ghost predicate Cipher()
      reads dec, dec.block
    {
      dec.Valid() && dec.m == DecryptMode(x) && dec.start == x.iv &&
      if x.cbc then dec.num == 0 ==> dec.whole == [] else dec.num < 16
    }

    /** The bytes consumed, followed by the window, are the input so far. */
    ghost function Input(): seq<byte>
      requires Valid()
      reads this, dec, dec.block, mac
    {
      dec.Data() + mac[..maclen]
    }

    constructor (x: Scheme)
      requires Proper(x)
      ensures Valid() && fresh(dec) && fresh(dec.block) && fresh(mac) && Input() == [] && this.x == x
    {
      this.x := x;
      dec := new Context(DecryptMode(x), x.iv);
      mac := new byte[x.size](_ => 0);
      maclen, macData := 0, [];
    }

    /** Bytes that are no longer held back go to the MAC and the cipher. */
    method Pass(d: seq<byte>) returns (out: seq<byte>)
      requires Cipher() && macData == dec.Data() && mac != dec.block
      modifies this`macData, dec, dec.block
      ensures Cipher() && macData == dec.Data() == old(dec.Data()) + d && dec.Output() == old(dec.Output()) + out
    {
      macData := macData + d;
      if x.cbc {
        out := dec.DecryptUpdate(d);
      } else {
        out := dec.EncryptUpdate(d);
      }
    }

    /** The decrypt_update functions: any chunk of ciphertext and MAC. */
    method Update(input0: seq<byte>) returns (out: seq<byte>)
      requires Valid()
      modifies this, dec, dec.block, mac
      ensures Valid() && Input() == old(Input()) + input0 && dec.Output() == old(dec.Output()) + out
    {
      var input := input0;
      if maclen < x.size {
        var len := x.size - maclen;
        if |input| <= len {
          Fill(mac, maclen, input);
          maclen := maclen + |input|;
          return [];
        }
        Fill(mac, maclen, input[..len]);
        maclen := maclen + len;
        input := input[len..];
        assert input0 == input0[..len] + input;
      }
      assert dec.Data() + mac[..x.size] + input == old(Input()) + input0;
      out := Slide(input);
    }

    /** With a full window, as many bytes leave it as come in. */
    method Slide(input: seq<byte>) returns (out: seq<byte>)
      requires Valid() && maclen == x.size
      modifies this`macData, dec, dec.block, mac
      ensures Valid() && maclen == x.size
      ensures Input() == old(dec.Data() + mac[..x.size]) + input && dec.Output() == old(dec.Output()) + out
    {
      if |input| <= x.size {
        out := SlideBy(input);
      } else {
        out := Replace(input);
      }
    }

    /** A chunk no longer than the window: its length leaves, and the rest moves up. */
    method SlideBy(input: seq<byte>) returns (out: seq<byte>)
      requires Valid() && maclen == x.size && |input| <= x.size
      modifies this`macData, dec, dec.block, mac
      ensures Valid() && maclen == x.size
      ensures Input() == old(dec.Data() + mac[..x.size]) + input && dec.Output() == old(dec.Output()) + out
    {
      var first, tmp := mac[..|input|], mac[|input|..] + input;
      SlideShort(dec.Data(), mac[..], input);
      assert mac[..x.size] == mac[..];
      out := Pass(first);
      Refill(tmp);
    }

    /** The window gets new bytes. */
    method Refill(tmp: seq<byte>)
      requires Proper(x) && mac != dec.block && mac.Length == x.size == maclen == |tmp| && Cipher() && macData == dec.Data()
      modifies mac
      ensures Valid() && Input() == dec.Data() + tmp && dec.Data() == old(dec.Data()) && dec.Output() == old(dec.Output())
    {
      Fill(mac, 0, tmp);
      assert mac[..x.size] == tmp;
    }

    method PassBoth(d: seq<byte>, e: seq<byte>) returns (out: seq<byte>)
      requires Cipher() && macData == dec.Data() && mac != dec.block
      modifies this`macData, dec, dec.block
      ensures Cipher() && macData == dec.Data() == old(dec.Data()) + d + e && dec.Output() == old(dec.Output()) + out
    {
      ghost var before := dec.Output();
      out := Pass(d);
      var more := Pass(e);
      Assoc(before, out, more);
      out := out + more;
    }

    /** A longer chunk: the window leaves, then all but the last bytes of the chunk. */
    method Replace(input: seq<byte>) returns (out: seq<byte>)
      requires Valid() && maclen == x.size && |input| > x.size
      modifies this`macData, dec, dec.block, mac
      ensures Valid() && maclen == x.size
      ensures Input() == old(dec.Data() + mac[..x.size]) + input && dec.Output() == old(dec.Output()) + out
    {
      ghost var held, data := mac[..], dec.Data();
      var rest, last := input[..|input| - x.size], input[|input| - x.size..];
      out := PassBoth(mac[..], rest);
      Refill(last);
      SlideLong(data, held, input, x.size);
      assert dec.Data() == data + held + rest;
    }

    /** The finish functions: success exactly when the whole input opens, and then all output
        together is the plaintext. */
    method Finish() returns (r: Option<seq<byte>>)
      requires Valid()
      modifies this`macData, this`maclen
      ensures r.Some? <==> Open(x, old(Input())).Some?
      ensures r.Some? ==> Open(x, old(Input())) == Some(dec.Output() + r.value)
    {
      if maclen != x.size {
        return None;
      }
      ghost var input := Input();
      assert input[..|input| - x.size] == dec.Data() && input[|input| - x.size..] == mac[..];
      var tag := x.mac(macData);
      r := FinishBody();
      if tag != mac[..] {
        return None;
      }
      maclen := 0;
    }

    /** sm4_cbc_decrypt_finish and sm4_ctr_decrypt_finish. */
    method FinishBody() returns (r: Option<seq<byte>>)
      requires Valid()
      ensures DecryptBody(x, dec.Data()) == match r { case Some(rest) => Some(dec.Output() + rest) case None => None }
    {
      ModeSizes(x.k);
      RunSize(dec.m, dec.start, dec.whole);
      if x.cbc {
        if dec.num != 16 {
          return None;
        }
        FinishCbcDecrypt(x, dec.whole, dec.block[..dec.num]);
        r := CbcPaddingDecrypt(x.k, dec.state, dec.block[..dec.num]);
      } else {
        CtrAppend(x.k, x.iv, dec.whole, dec.block[..dec.num]);
        var out, s := CtrEncrypt(x.k, dec.state, dec.block[..dec.num]);
        r := Some(out);
      }
    }
  }

  lemma SlideShort(data: seq<byte>, held: seq<byte>, input: seq<byte>)
    requires |input| <= |held|
    ensures data + held[..|input|] + (held[|input|..] + input) == data + held + input
  {
  }

  lemma SlideLong(data: seq<byte>, held: seq<byte>, input: seq<byte>, n: nat)
    requires n <= |input|
    ensures data + held + input[..|input| - n] + input[|input| - n..] == data + held + input
  {
  }
}
