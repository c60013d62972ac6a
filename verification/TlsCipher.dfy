/** The cipher suite of tls13.c: the SM4-GCM of this project satisfies what the record layer asks of
    its authenticated cipher. */
module TlsCipher {
  import opened Wrappers
  import Octets
  import Tls13Record
  import CipherModes
  import Gcm
  import Instances

  type octet = bv8
  type key = k: seq<octet> | |k| == 16 witness [0, 0, 0, 0, 0, 0, 0, 0, 0, 0, 0, 0, 0, 0, 0, 0]

  function Number(b: octet): Octets.byte { b as int }

  function Successor(b: octet): octet { b + 1 }

  /** The octet with a given value, reached by counting. */
  function Octet(n: Octets.byte): (b: octet)
    ensures Number(b) == n
  {
    if n == 0 then 0 else SuccessorNumber(Octet(n - 1)); Successor(Octet(n - 1))
  }

  lemma SuccessorNumber(b: octet)
    ensures Number(Successor(b)) == (Number(b) + 1) % 256
  {
  }

  lemma OctetNumber(b: octet)
    ensures Octet(Number(b)) == b
  {
    SameNumber(Octet(Number(b)), b);
  }

  lemma SameNumber(a: octet, b: octet)
    requires Number(a) == Number(b)
    ensures a == b
  {
  }

  function Octets8(s: Octets.bytes): (r: seq<octet>)
    ensures |r| == |s|
  {
    seq(|s|, i requires 0 <= i < |s| => Octet(s[i]))
  }

  function Numbers(s: seq<octet>): (r: Octets.bytes)
    ensures |r| == |s|
  {
    seq<Octets.byte>(|s|, i requires 0 <= i < |s| => Number(s[i]))
  }

  lemma ThereAndBack(s: Octets.bytes, t: seq<octet>)
    ensures Numbers(Octets8(s)) == s && Octets8(Numbers(t)) == t
  {
    forall i | 0 <= i < |t| ensures Octet(Number(t[i])) == t[i] { OctetNumber(t[i]); }
  }

  function Xor(a: octet, b: octet): octet { a ^ b }

  function Body(k: key, nonce: Octets.bytes, d: seq<octet>): seq<octet> {
    Gcm.Body(Instances.Sm4Cipher(k), Instances.GhashField(), Octets8(nonce), d)
  }

  function Tag(k: key, nonce: Octets.bytes, aad: Octets.bytes, c: seq<octet>): seq<octet> {
    Gcm.Tag(Instances.Sm4Cipher(k), Instances.GhashField(), Octets8(nonce), Octets8(aad), c)
  }

  /** gcm_encrypt, the tag behind the ciphertext. */
  function Seal(k: key, nonce: Octets.bytes, aad: Octets.bytes, p: Octets.bytes): Octets.bytes {
    var c := Body(k, nonce, Octets8(p));
    Numbers(c + Tag(k, nonce, aad, c))
  }

  /** gcm_decrypt. */
  function Open(k: key, nonce: Octets.bytes, aad: Octets.bytes, d: Octets.bytes): Option<Octets.bytes> {
    if |d| < 16 then None
    else
      var c, tag := Octets8(d)[..|d| - 16], Octets8(d)[|d| - 16..];
      if Tag(k, nonce, aad, c) == tag then Some(Numbers(Body(k, nonce, c))) else None
  }

  function XorNumbers(a: Octets.byte, b: Octets.byte): Octets.byte { Number(Xor(Octet(a), Octet(b))) }

  function Sm4Gcm(): Tls13Record.Protection<key> { Tls13Record.Protection(Seal, Open, XorNumbers) }

  lemma SealOpens(k: key, nonce: Octets.bytes, aad: Octets.bytes, p: Octets.bytes)
    ensures |Seal(k, nonce, aad, p)| == |p| + 16 && Open(k, nonce, aad, Seal(k, nonce, aad, p)) == Some(p)
  {
    Instances.GhashLaws(k);
    Gcm.RoundTrip(Instances.Sm4Cipher(k), Instances.GhashField(), Octets8(nonce), Octets8(aad), Octets8(p));
    var c := Body(k, nonce, Octets8(p));
    var tag := Tag(k, nonce, aad, c);
    BodySize(k, nonce, Octets8(p));
    ThereAndBack(p, c + tag);
    assert (c + tag)[..|c|] == c && (c + tag)[|c|..] == tag;
  }

  lemma BodySize(k: key, nonce: Octets.bytes, d: seq<octet>)
    ensures |Body(k, nonce, d)| == |d|
  {
    Instances.Sm4Laws(k);
    var x := Instances.Sm4Cipher(k);
    Instances.GhashLaws(k);
    Gcm.Sizes16(x, Instances.GhashField(), Octets8(nonce), [], []);
    CipherModes.CtrRoundTrip(x, x.incr(Gcm.FirstCounter(x, Instances.GhashField(), Octets8(nonce))), d);
  }

  lemma XorLaw(a: octet, b: octet)
    ensures Xor(Xor(a, b), b) == a && Xor(a, b) == Xor(b, a)
  {
  }

  lemma XorNumbersLaw(a: Octets.byte, b: Octets.byte)
    ensures XorNumbers(XorNumbers(a, b), b) == a && XorNumbers(a, b) == XorNumbers(b, a)
  {
    OctetNumber(Xor(Octet(a), Octet(b)));
    XorLaw(Octet(a), Octet(b));
  }

  /** So every result about records holds for SM4-GCM. */
  lemma Sm4GcmLaws()
    ensures Tls13Record.Laws(Sm4Gcm())
  {
    var s := Sm4Gcm();
    forall k: key, n: Octets.bytes, aad: Octets.bytes, p: Octets.bytes ensures Tls13Record.SealAt(s, k, n, aad, p) {
      SealOpens(k, n, aad, p);
    }
    forall a: Octets.byte, b: Octets.byte ensures Tls13Record.XorAt(s, a, b) { XorNumbersLaw(a, b); }
  }

  // ------------------------------------------------------------ byte by byte

  lemma OctetIs(n: Octets.byte)
    ensures Octet(n) as int == n
  {
  }

  /** The exclusive or of two bytes is that of the block modes. */
  lemma XorNumbersIs(a: Octets.byte, b: Octets.byte)
    ensures Octet(XorNumbers(a, b)) == Instances.XorByte(Octet(a), Octet(b))
  {
    OctetNumber(Xor(Octet(a), Octet(b)));
  }

  /** d has the bytes of c, and behind them those of the tag. */
  ghost predicate Follows(d: Octets.bytes, c: seq<octet>, tag: seq<octet>) {
    |d| == |c| + |tag| && forall i :: 0 <= i < |d| ==> d[i] == if i < |c| then c[i] as int else tag[i - |c|] as int
  }

  lemma NumbersFollow(c: seq<octet>, tag: seq<octet>)
    ensures Follows(Numbers(c + tag), c, tag)
  {
  }

  /** A sealed plaintext is its SM4-GCM ciphertext with the tag of 16 bytes behind it. */
  lemma SealIs(k: key, nonce: Octets.bytes, aad: Octets.bytes, p: Octets.bytes)
    ensures
      var c := Body(k, nonce, Octets8(p));
      var tag := Tag(k, nonce, aad, c);
      |c| == |p| && |tag| == 16 && Follows(Seal(k, nonce, aad, p), c, tag)
  {
    var c := Body(k, nonce, Octets8(p));
    BodySize(k, nonce, Octets8(p));
    TagSize(k, nonce, aad, c);
    NumbersFollow(c, Tag(k, nonce, aad, c));
  }

  lemma TagSize(k: key, nonce: Octets.bytes, aad: Octets.bytes, c: seq<octet>)
    ensures |Tag(k, nonce, aad, c)| == 16
  {
    Instances.GhashLaws(k);
    Gcm.Sizes16(Instances.Sm4Cipher(k), Instances.GhashField(), Octets8(nonce), Octets8(aad), c);
  }
}
