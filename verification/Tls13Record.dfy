/** The record layer of tls13.c with the record and sequence number helpers of tls.c, over any
    authenticated cipher. */
module Tls13Record {
  import opened Wrappers
  import opened Octets
  import Modular

  const HANDSHAKE: byte := 22
  const APPLICATION_DATA: byte := 23
  const TAG_SIZE := 16
  const MAX_RECORD_SIZE := 18437
  const MAX_PLAINTEXT_SIZE := 16384

  /** gcm_encrypt (ciphertext and tag together), gcm_decrypt, and the exclusive or of two bytes. */
  datatype Protection<!Key> = Protection(
    seal: (Key, bytes, bytes, bytes) -> bytes, open: (Key, bytes, bytes, bytes) -> Option<bytes>, xor: (byte, byte) -> byte)

  ghost predicate SealAt<Key>(s: Protection<Key>, k: Key, nonce: bytes, aad: bytes, p: bytes) {
    var c := s.seal(k, nonce, aad, p);
    |c| == |p| + TAG_SIZE && s.open(k, nonce, aad, c) == Some(p)
  }

  ghost predicate XorAt<Key>(s: Protection<Key>, a: byte, b: byte) {
    s.xor(s.xor(a, b), b) == a && s.xor(a, b) == s.xor(b, a)
  }

  ghost predicate Laws<Key(!new)>(s: Protection<Key>) {
    (forall k, n, aad, p :: SealAt(s, k, n, aad, p)) && (forall a, b :: XorAt(s, a, b))
  }

  // ------------------------------------------------------------ sequence numbers and nonces

  /** The successor of a big-endian number; all bytes wrap. */
  function Next(a: bytes): (r: bytes)
    ensures |r| == |a|
    ensures Value(r) == (Value(a) + 1) % Pow256(|a|)
  {
    if a == [] then []
    else
      var high, last := a[..|a| - 1], a[|a| - 1];
      var r := if last == 255 then Next(high) + [0] else high + [last + 1];
      NextValue(a, r);
      r
  }

  lemma NextValue(a: bytes, r: bytes)
    requires |r| == |a| > 0
    requires var high, last := a[..|a| - 1], a[|a| - 1];
      if last == 255 then |r[..|a| - 1]| == |high| && Value(r[..|a| - 1]) == (Value(high) + 1) % Pow256(|high|) && r[|a| - 1] == 0
      else r == high + [last + 1]
    ensures Value(r) == (Value(a) + 1) % Pow256(|a|)
  {
    var high, last := a[..|a| - 1], a[|a| - 1];
    var v, m := Value(high), Pow256(|high|);
    assert Value(a) == 256 * v + last && Pow256(|a|) == 256 * m;
    assert Value(r) == 256 * Value(r[..|a| - 1]) + r[|a| - 1];
    if last == 255 {
      if v + 1 < m {
        Small(v + 1, m);
        Small(256 * (v + 1), 256 * m);
      } else {
        SelfZero(m);
        SelfZero(256 * m);
      }
    } else {
      assert r[..|a| - 1] == high;
      Small(256 * v + last + 1, 256 * m);
    }
  }

  lemma Small(x: nat, m: nat)
    requires x < m
    ensures x % m == x
  {
  }

  lemma SelfZero(m: nat)
    requires m > 0
    ensures m % m == 0
  {
  }

  /** What tls_seq_num_incr makes of the eight bytes: the first one is never changed. */
  function NextSeq(seqNum: bytes): (r: bytes)
    requires |seqNum| == 8
    ensures |r| == 8
  {
    seqNum[..1] + Next(seqNum[1..])
  }

  method SeqNumIncr(seqNum: array<byte>)
    requires seqNum.Length == 8
    modifies seqNum
    ensures seqNum[..] == NextSeq(old(seqNum[..]))
  {
    ghost var start, done := seqNum[..], [];
    var i := 7;
    NextPart(start, i, done);
    while i > 0
      invariant 0 <= i <= 7 && |start| == 8 && |done| == 7 - i
      invariant seqNum[..] == start[..i + 1] + done
      invariant Next(start[1..]) == Next(start[1..i + 1]) + done
      decreases i
    {
      ghost var now := seqNum[..];
      assert now[i] == start[i];
      seqNum[i] := if seqNum[i] == 255 then 0 else seqNum[i] + 1;
      NextStep(start, i, done, now, seqNum[i]);
      assert seqNum[..] == now[i := seqNum[i]];
      done := [seqNum[i]] + done;
      if seqNum[i] != 0 {
        assert seqNum[..] == start[..i] + done;
        Wrapped(start, i, done);
        return;
      }
      i := i - 1;
    }
    Ended(start, done);
  }

  lemma NextPart(start: bytes, i: nat, done: bytes)
    requires |start| == 8 && i == 7 && done == []
    ensures start == start[..i + 1] + done && Next(start[1..]) == Next(start[1..i + 1]) + done
  {
    assert start[1..i + 1] == start[1..];
  }

  lemma NextStep(start: bytes, i: nat, done: bytes, now: bytes, last: byte)
    requires |start| == 8 && 0 < i < 8 && |done| == 7 - i && now == start[..i + 1] + done
    requires last == if start[i] == 255 then 0 else start[i] + 1
    ensures now[i := last] == start[..i] + ([last] + done)
    ensures Next(start[1..i + 1]) + done == (if last == 0 then Next(start[1..i]) else start[1..i]) + ([last] + done)
  {
    var a := start[1..i + 1];
    assert a[..|a| - 1] == start[1..i] && a[|a| - 1] == start[i];
    Assoc(if last == 0 then Next(start[1..i]) else start[1..i], [last], done);
  }

  lemma Wrapped(start: bytes, i: nat, done: bytes)
    requires |start| == 8 && 0 < i < 8 && Next(start[1..]) == start[1..i] + done
    ensures start[..i] + done == NextSeq(start)
  {
    assert start[..i] == start[..1] + start[1..i];
    Assoc(start[..1], start[1..i], done);
  }

  lemma Ended(start: bytes, done: bytes)
    requires |start| == 8 && |done| == 7 && Next(start[1..]) == Next(start[1..1]) + done
    ensures start[..1] + done == NextSeq(start)
  {
    assert start[1..1] == [];
  }

  /** The sequence number n records after s. */
  function SeqAfter(s: bytes, n: nat): (r: bytes)
    requires |s| == 8
    ensures |r| == 8
  {
    if n == 0 then s else NextSeq(SeqAfter(s, n - 1))
  }

  /** The low seven bytes count records modulo 2^56. */
  lemma {:induction false} SeqCounts(n: nat)
    ensures Value(SeqAfter(Zeros(8), n)[1..]) == n % Pow256(7)
    ensures SeqAfter(Zeros(8), n)[0] == 0
  {
    if n == 0 {
      NoneSent(Pow256(7));
    } else {
      SeqCounts(n - 1);
      var before := SeqAfter(Zeros(8), n - 1);
      assert SeqAfter(Zeros(8), n)[1..] == Next(before[1..]);
      NextCounts(before[1..], n - 1, Pow256(7));
    }
  }

  lemma NoneSent(m: nat)
    requires m > 0
    ensures Value(Zeros(8)[1..]) == 0 % m
  {
    ZerosValue(7);
    assert Zeros(8)[1..] == Zeros(7);
    Small(0, m);
  }

  lemma NextCounts(low: bytes, x: nat, m: nat)
    requires |low| == 7 && m == Pow256(7) && Value(low) == x % m
    ensures Value(Next(low)) == (x + 1) % m
  {
    AddMod(x, m);
  }

  lemma {:induction false} ZerosValue(n: nat)
    ensures Value(Zeros(n)) == 0
  {
    if n > 0 {
      ZerosValue(n - 1);
      assert Zeros(n)[..n - 1] == Zeros(n - 1);
    }
  }

  lemma AddMod(x: nat, m: nat)
    requires m > 0
    ensures (x % m + 1) % m == (x + 1) % m
  {
    Modular.ModShift(x % m + 1, x / m, m);
    assert x + 1 == x % m + 1 + (x / m) * m;
  }

  function XorBytes<Key>(s: Protection<Key>, a: bytes, b: bytes): (r: bytes)
    requires |a| == |b|
    ensures |r| == |a|
  {
    seq<byte>(|a|, i requires 0 <= i < |a| => s.xor(a[i], b[i]))
  }

  /** Section 5.3 of RFC 8446. */
  function Nonce<Key>(s: Protection<Key>, iv: bytes, seqNum: bytes): (r: bytes)
    requires |iv| == 12 && |seqNum| == 8
    ensures |r| == 12
  {
    XorBytes(s, Zeros(4) + seqNum, iv)
  }

  /** Byte i of a sequence number with four zeros in front. */
  function PaddedByte(seqNum: bytes, i: nat): byte
    requires |seqNum| == 8 && i < 12
  {
    if i < 4 then 0 else seqNum[i - 4]
  }

  /** The nonce is the one string that the iv turns into the padded sequence number, by exclusive or. */
  lemma NonceExactly<Key(!new)>(s: Protection<Key>, iv: bytes, seqNum: bytes, n: bytes)
    requires Laws(s) && |iv| == |n| == 12 && |seqNum| == 8
    ensures n == Nonce(s, iv, seqNum) <==> forall i :: 0 <= i < 12 ==> s.xor(n[i], iv[i]) == PaddedByte(seqNum, i)
  {
    forall i | 0 <= i < 12 ensures n[i] == Nonce(s, iv, seqNum)[i] <==> s.xor(n[i], iv[i]) == PaddedByte(seqNum, i) {
      assert XorAt(s, n[i], iv[i]) && XorAt(s, PaddedByte(seqNum, i), iv[i]);
    }
  }

  /** Nonces of one sequence number under two ivs are equal only for equal ivs. */
  lemma NonceNeedsIv<Key(!new)>(s: Protection<Key>, iv: bytes, iv': bytes, seqNum: bytes)
    requires Laws(s) && |iv| == |iv'| == 12 && |seqNum| == 8
    ensures Nonce(s, iv, seqNum) == Nonce(s, iv', seqNum) <==> iv == iv'
  {
    if Nonce(s, iv, seqNum) == Nonce(s, iv', seqNum) {
      forall i | 0 <= i < 12 ensures iv[i] == iv'[i] {
        var p := PaddedByte(seqNum, i);
        assert XorAt(s, p, iv[i]) && XorAt(s, p, iv'[i]) && XorAt(s, iv[i], p) && XorAt(s, iv'[i], p);
        assert Nonce(s, iv, seqNum)[i] == s.xor(p, iv[i]) && Nonce(s, iv', seqNum)[i] == s.xor(p, iv'[i]);
      }
    }
  }

  lemma NonceInjective<Key(!new)>(s: Protection<Key>, iv: bytes, a: bytes, b: bytes)
    requires Laws(s) && |iv| == 12 && |a| == |b| == 8 && Nonce(s, iv, a) == Nonce(s, iv, b)
    ensures a == b
  {
    forall i | 0 <= i < 8 ensures a[i] == b[i] {
      assert XorAt(s, a[i], iv[i + 4]) && XorAt(s, b[i], iv[i + 4]);
      assert Nonce(s, iv, a)[i + 4] == s.xor(a[i], iv[i + 4]) && Nonce(s, iv, b)[i + 4] == s.xor(b[i], iv[i + 4]);
    }
  }

  /** Under one key and iv, two records of a connection have the same nonce exactly when their numbers
      agree modulo 2^56. */
  lemma NoncesRepeat<Key(!new)>(s: Protection<Key>, iv: bytes, m: nat, n: nat)
    requires Laws(s) && |iv| == 12
    ensures Nonce(s, iv, SeqAfter(Zeros(8), m)) == Nonce(s, iv, SeqAfter(Zeros(8), n)) <==> m % Pow256(7) == n % Pow256(7)
  {
    var a, b := SeqAfter(Zeros(8), m), SeqAfter(Zeros(8), n);
    SeqCounts(m);
    SeqCounts(n);
    if Nonce(s, iv, a) == Nonce(s, iv, b) { NonceInjective(s, iv, a, b); }
    if m % Pow256(7) == n % Pow256(7) {
      BigEndianOfValue(a[1..]);
      BigEndianOfValue(b[1..]);
      assert a == [a[0]] + a[1..] && b == [b[0]] + b[1..];
    }
  }

  // ------------------------------------------------------------ inner plaintext

  /** TLSInnerPlaintext: content, type and zeros. */
  function Inner(content: bytes, recordType: byte, padding: nat): bytes { content + [recordType] + Zeros(padding) }

  /** The last byte that is not zero, and what is in front of it. */
  function Split(p: bytes): Option<(byte, bytes)> {
    if p == [] then None
    else if p[|p| - 1] != 0 then Some((p[|p| - 1], p[..|p| - 1]))
    else Split(p[..|p| - 1])
  }

  /** Any zero padding is taken off; a zero type is taken for padding as well. */
  lemma {:induction false} SplitInner(content: bytes, recordType: byte, padding: nat)
    ensures Split(Inner(content, recordType, padding)) == if recordType == 0 then Split(content) else Some((recordType, content))
  {
    var p := Inner(content, recordType, padding);
    if padding > 0 {
      SplitInner(content, recordType, padding - 1);
      assert p[..|p| - 1] == Inner(content, recordType, padding - 1);
    } else {
      assert Zeros(0) == [] && p[..|p| - 1] == content;
    }
  }

  /** Nothing but an inner plaintext is ever split. */
  lemma {:induction false} SplitOnlyInner(p: bytes)
    ensures match Split(p)
      case Some((t, content)) => t != 0 && |content| < |p| && p == Inner(content, t, |p| - |content| - 1)
      case None => p == Zeros(|p|)
  {
    if p != [] && p[|p| - 1] == 0 {
      var q := p[..|p| - 1];
      SplitOnlyInner(q);
      match Split(q)
      case Some((t, content)) =>
        var n := |q| - |content| - 1;
        assert Zeros(n + 1) == Zeros(n) + [0];
      case None =>
    }
  }

  // ------------------------------------------------------------ records

  predicate Named(recordType: byte) { 20 <= recordType <= 23 }

  /** A record header for TLS 1.2 with the length modulo 2^16. */
  function Header(recordType: byte, length: nat): (r: bytes)
    ensures |r| == 5
  {
    [recordType, 3, 3, length / 256 % 256, length % 256]
  }

  /** One direction of a connection: write key, write iv and sequence number. */
  datatype Half<Key> = Half(key: Key, iv: bytes, seqNum: bytes) {
    ghost predicate Valid() { |iv| == 12 && |seqNum| == 8 }

    function Bumped(): Half<Key>
      requires |seqNum| == 8
    {
      Half(key, iv, NextSeq(seqNum))
    }
  }

  function Seal<Key>(s: Protection<Key>, h: Half<Key>, recordType: byte, content: bytes, padding: nat): bytes
    requires h.Valid()
  {
    s.seal(h.key, Nonce(s, h.iv, h.seqNum), Header(APPLICATION_DATA, |content| + 1 + padding + TAG_SIZE),
           Inner(content, recordType, padding))
  }

  /** tls13_gcm_encrypt. */
  method GcmEncrypt<Key>(s: Protection<Key>, h: Half<Key>, recordType: byte, input: bytes, padding: nat) returns (out: bytes)
    requires h.Valid()
    ensures out == Seal(s, h, recordType, input, padding)
    ensures var n := |input| + padding + 17;
      out == s.seal(h.key, Nonce(s, h.iv, h.seqNum), [23, 3, 3, n / 256 % 256, n % 256], input + [recordType] + Zeros(padding))
  {
    var nonce := XorBytes(s, [0, 0, 0, 0] + h.seqNum, h.iv);
    assert [0, 0, 0, 0] == Zeros(4);
    var mbuf := input + [recordType] + Zeros(padding);
    var clen := |mbuf| + TAG_SIZE;
    var aad := [23, 3, 3, clen / 256 % 256, clen % 256];
    out := s.seal(h.key, nonce, aad, mbuf);
  }

  function Unseal<Key>(s: Protection<Key>, h: Half<Key>, input: bytes): Option<(byte, bytes)>
    requires h.Valid()
  {
    if |input| < TAG_SIZE then None
    else
      var plain :- s.open(h.key, Nonce(s, h.iv, h.seqNum), Header(APPLICATION_DATA, |input|), input);
      var inner :- Split(plain);
      if Named(inner.0) then Some(inner) else None
  }

  /** tls13_gcm_decrypt. */
  method GcmDecrypt<Key>(s: Protection<Key>, h: Half<Key>, input: bytes) returns (ret: int, recordType: byte, out: bytes)
    requires h.Valid()
    ensures Unseal(s, h, input) == if ret == 1 then Some((recordType, out)) else None
  {
    recordType, out := 0, [];
    var nonce := XorBytes(s, [0, 0, 0, 0] + h.seqNum, h.iv);
    assert [0, 0, 0, 0] == Zeros(4);
    var aad := [23, 3, 3, |input| / 256 % 256, |input| % 256];
    if |input| < 16 {
      return -1, 0, [];
    }
    var plain := s.open(h.key, nonce, aad, input);
    if plain == None {
      return -1, 0, [];
    }
    out := plain.value;
    var mlen := |out|;
    assert out[..mlen] == out;
    while mlen > 0
      invariant 0 <= mlen <= |out| && recordType == 0 && Split(out) == Split(out[..mlen])
    {
      mlen := mlen - 1;
      assert out[..mlen + 1][..mlen] == out[..mlen];
      if out[mlen] != 0 {
        recordType := out[mlen];
        break;
      }
    }
    if !(20 <= recordType <= 23) {
      return -1, 0, [];
    }
    ret, out := 1, out[..mlen];
  }

  /** The input opens, with the header of its length as additional data, to content, type and zeros. */
  ghost predicate OpensTo<Key>(s: Protection<Key>, h: Half<Key>, input: bytes, t: byte, content: bytes, padding: nat)
    requires h.Valid()
  {
    s.open(h.key, Nonce(s, h.iv, h.seqNum), [23, 3, 3, |input| / 256 % 256, |input| % 256], input)
    == Some(content + [t] + Zeros(padding))
  }

  /** What is accepted: a ciphertext with a tag that opens to some content, a named type and zeros. */
  lemma UnsealExactly<Key(!new)>(s: Protection<Key>, h: Half<Key>, input: bytes, t: byte, content: bytes)
    requires h.Valid()
    ensures Unseal(s, h, input) == Some((t, content)) <==>
      |input| >= 16 && 20 <= t <= 23 && exists padding: nat :: OpensTo(s, h, input, t, content, padding)
  {
    if Unseal(s, h, input) == Some((t, content)) {
      var o := s.open(h.key, Nonce(s, h.iv, h.seqNum), Header(APPLICATION_DATA, |input|), input);
      SplitOnlyInner(o.value);
      assert OpensTo(s, h, input, t, content, |o.value| - |content| - 1);
    }
    if |input| >= 16 && 20 <= t <= 23 {
      if padding: nat :| OpensTo(s, h, input, t, content, padding) { SplitInner(content, t, padding); }
    }
  }

  function Content(record: bytes): bytes
    requires |record| >= 5
  {
    record[5..]
  }

  /** tls13_record_encrypt. */
  function EncryptRecord<Key>(s: Protection<Key>, h: Half<Key>, record: bytes, padding: nat): bytes
    requires h.Valid() && |record| >= 5
  {
    var c := Seal(s, h, record[0], Content(record), padding);
    Header(APPLICATION_DATA, |c|) + c
  }

  /** tls13_record_decrypt. */
  function DecryptRecord<Key>(s: Protection<Key>, h: Half<Key>, record: bytes): Option<bytes>
    requires h.Valid() && |record| >= 5
  {
    var inner :- Unseal(s, h, Content(record));
    Some(Header(inner.0, |inner.1|) + inner.1)
  }

  /** What is sealed with padding of any length opens to the same type and content, under the same
      key, iv and sequence number, if and only if the type has a name. */
  lemma UnsealSeal<Key(!new)>(s: Protection<Key>, h: Half<Key>, recordType: byte, content: bytes, padding: nat)
    requires Laws(s) && h.Valid() && recordType != 0
    ensures |Seal(s, h, recordType, content, padding)| == |content| + 1 + padding + TAG_SIZE
    ensures Unseal(s, h, Seal(s, h, recordType, content, padding)) == if Named(recordType) then Some((recordType, content)) else None
  {
    var n := |content| + 1 + padding + TAG_SIZE;
    assert SealAt(s, h.key, Nonce(s, h.iv, h.seqNum), Header(APPLICATION_DATA, n), Inner(content, recordType, padding));
    SplitInner(content, recordType, padding);
  }

  /** A record with the header of TLS 1.2 and the length of its content. */
  predicate WellFormed(record: bytes) {
    |record| >= 5 && record[..5] == Header(record[0], |record| - 5)
  }

  /** Decryption gives back every well-formed record. */
  lemma DecryptEncrypt<Key(!new)>(s: Protection<Key>, h: Half<Key>, record: bytes, padding: nat)
    requires Laws(s) && h.Valid() && WellFormed(record) && Named(record[0])
    ensures |EncryptRecord(s, h, record, padding)| == |record| + 1 + padding + TAG_SIZE
    ensures DecryptRecord(s, h, EncryptRecord(s, h, record, padding)) == Some(record)
  {
    UnsealSeal(s, h, record[0], Content(record), padding);
    var c := Seal(s, h, record[0], Content(record), padding);
    assert Content(EncryptRecord(s, h, record, padding)) == c;
    assert record == record[..5] + Content(record);
  }

  // ------------------------------------------------------------ the socket

  function U16(high: int, low: int): int { 256 * high + low }

  lemma Digits(n: nat)
    requires n < 65536
    ensures U16(n / 256 % 256, n % 256) == n
  {
  }

  predicate Protocol(major: byte, minor: byte) {
    var p := (major, minor);
    p == (1, 1) || p == (2, 0) || p == (3, 0) || p == (3, 1) || p == (3, 2) || p == (3, 3) || p == (3, 4) ||
    p == (254, 255) || p == (254, 253)
  }

  /** A record as tls_record_recv takes it: named type and protocol, the length in the header, not too long. */
  predicate Framed(record: bytes) {
    5 <= |record| <= MAX_RECORD_SIZE && Named(record[0]) && Protocol(record[1], record[2]) &&
    |record| == 5 + U16(record[3], record[4])
  }

  /** tls_record_do_recv: the first record of a byte stream, and the rest of the stream. */
  function Receive(stream: bytes): Option<(bytes, bytes)> {
    if |stream| < 5 then None
    else
      var size := 5 + U16(stream[3], stream[4]);
      if Named(stream[0]) && Protocol(stream[1], stream[2]) && size <= MAX_RECORD_SIZE && size <= |stream|
      then Some((stream[..size], stream[size..]))
      else None
  }

  /** Records in a stream are taken off one by one as they were sent. */
  lemma ReceiveSent(record: bytes, rest: bytes)
    requires Framed(record)
    ensures Receive(record + rest) == Some((record, rest))
  {
    var stream := record + rest;
    assert stream[..|record|] == record && stream[|record|..] == rest;
  }

  /** A received record has the size its header says. */
  lemma ReceivedFramed(stream: bytes)
    ensures match Receive(stream)
      case Some((record, rest)) => Framed(record) && stream == record + rest
      case None => true
  {
  }

  /** Encrypted records of allowed size can be sent. */
  lemma EncryptedFramed<Key(!new)>(s: Protection<Key>, h: Half<Key>, record: bytes, padding: nat)
    requires Laws(s) && h.Valid() && WellFormed(record) && Named(record[0])
    requires |record| <= 5 + MAX_PLAINTEXT_SIZE && padding < 128
    ensures Framed(EncryptRecord(s, h, record, padding))
  {
    DecryptEncrypt(s, h, record, padding);
  }
}
