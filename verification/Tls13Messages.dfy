/** The handshake messages of tls13.c after the hello messages: how each is written to a record
    and read from one. */
module Tls13Messages {
  import opened Wrappers
  import opened Octets
  import opened Tls13Record

  const CLIENT_HELLO: byte := 1
  const SERVER_HELLO: byte := 2
  const ENCRYPTED_EXTENSIONS: byte := 8
  const CERTIFICATE: byte := 11
  const CERTIFICATE_REQUEST: byte := 13
  const CERTIFICATE_VERIFY: byte := 15
  const FINISHED: byte := 20

  const SM2SIG_SM3 := 0x0708

  predicate NamedHandshake(t: byte) {
    t <= 6 || t == 8 || 11 <= t <= 16 || 20 <= t <= 26 || t == 254
  }

  /** tls_record_set_handshake for a record whose protocol is 3.minor. */
  function HandshakeRecord(minor: byte, t: byte, body: bytes): bytes {
    [HANDSHAKE, 3, minor, (4 + |body|) / 256 % 256, (4 + |body|) % 256] + ([t] + PutArray(3, body))
  }

  predicate Sized(record: bytes) { |record| >= 5 && |record| == 5 + U16(record[3], record[4]) }

  /** tls_record_get_handshake: type and body. */
  function GetHandshake(record: bytes): Option<(byte, bytes)>
    requires Sized(record)
  {
    var h := Content(record);
    if !Protocol(record[1], record[2]) || record[0] != HANDSHAKE || |h| < 4 || |h| > MAX_PLAINTEXT_SIZE ||
       !NamedHandshake(h[0]) then None
    else
      var r :- GetArray(3, h[1..]);
      if r.1 == [] then Some((h[0], r.0)) else None
  }

  predicate BodyFits(body: bytes) { |body| <= MAX_PLAINTEXT_SIZE - 4 }

  lemma GetSetHandshake(minor: byte, t: byte, body: bytes)
    requires 1 <= minor <= 3 && NamedHandshake(t) && BodyFits(body)
    ensures var r := HandshakeRecord(minor, t, body);
      Sized(r) && Framed(r) && |r| == 9 + |body| && GetHandshake(r) == Some((t, body)) &&
      Content(r) == [t] + PutArray(3, body) && (minor == 3 ==> WellFormed(r))
  {
    var r := HandshakeRecord(minor, t, body);
    Digits(4 + |body|);
    assert Content(r) == [t] + PutArray(3, body);
    assert Content(r)[1..] == PutArray(3, body) + [];
    Pow24();
    GetPut(3, body, []);
  }

  lemma Pow24()
    ensures Pow256(1) == 256 && Pow256(2) == 65536 && Pow256(3) == 16777216
  {
    assert Pow256(0) == 1;
  }

  // ------------------------------------------------------------ EncryptedExtensions, CertificateRequest

  /** One extension: supported_groups with curve SM2. */
  const EE_BODY: bytes := PutArray(2, [0, 10, 0, 4, 0, 2, 0, 41])

  /** The type of the message is not looked at. */
  predicate IsEncryptedExtensions(record: bytes)
    requires Sized(record)
  {
    match GetHandshake(record)
    case Some((_, body)) => GetArray(2, body).Some?
    case None => false
  }

  lemma EncryptedExtensionsRead()
    ensures BodyFits(EE_BODY) && Sized(HandshakeRecord(3, ENCRYPTED_EXTENSIONS, EE_BODY))
    ensures IsEncryptedExtensions(HandshakeRecord(3, ENCRYPTED_EXTENSIONS, EE_BODY))
  {
    GetSetHandshake(3, ENCRYPTED_EXTENSIONS, EE_BODY);
    Pow24();
    GetPut(2, [0, 10, 0, 4, 0, 2, 0, 41], []);
    assert EE_BODY + [] == EE_BODY;
  }

  /** An empty context, and one extension: signature_algorithms with SM2 and SM3. */
  const CR_BODY: bytes := PutArray(1, []) + PutArray(2, [0, 13, 0, 4, 0, 2, 7, 8])

  predicate IsCertificateRequest(body: bytes) {
    match GetArray(1, body)
    case Some((_, exts)) =>
      (match GetArray(2, exts)
       case Some((_, rest)) => rest == []
       case None => false)
    case None => false
  }

  lemma CertificateRequestRead()
    ensures BodyFits(CR_BODY) && IsCertificateRequest(CR_BODY)
  {
    Pow24();
    var exts: bytes := [0, 13, 0, 4, 0, 2, 7, 8];
    GetPut(1, [], PutArray(2, exts));
    GetPut(2, exts, []);
    assert PutArray(2, exts) + [] == PutArray(2, exts);
  }

  // ------------------------------------------------------------ Certificate

  /** The entries of a certificate list: certificate and no extensions. */
  function Entries(certs: seq<bytes>): bytes {
    if certs == [] then [] else PutArray(3, certs[0]) + (PutArray(2, []) + Entries(certs[1..]))
  }

  /** Any extension of an entry is refused. */
  function ParseEntries(isCert: bytes -> bool, list: bytes): Option<seq<bytes>>
    decreases |list|
  {
    if list == [] then Some([])
    else
      var c :- GetArray(3, list);
      var e :- GetArray(2, c.1);
      if !isCert(c.0) || e.0 != [] then None
      else
        var rest :- ParseEntries(isCert, e.1);
        Some([c.0] + rest)
  }

  /** tls13_process_certificate_list. */
  method ProcessCertificateList(isCert: bytes -> bool, certList: bytes) returns (ret: int, certs: seq<bytes>)
    ensures ParseEntries(isCert, certList) == if ret == 1 then Some(certs) else None
  {
    certs := [];
    var list := certList;
    Prepend([], ParseEntries(isCert, list));
    while list != []
      invariant ParseEntries(isCert, certList) == Prefixed(certs, ParseEntries(isCert, list))
      decreases |list|
    {
      var c := GetArray(3, list);
      if c == None {
        return -1, [];
      }
      var e := GetArray(2, c.value.1);
      if e == None || !isCert(c.value.0) || e.value.0 != [] {
        return -1, [];
      }
      PrefixTwice(certs, [c.value.0], ParseEntries(isCert, e.value.1));
      certs := certs + [c.value.0];
      list := e.value.1;
    }
    ret := 1;
    assert certs + [] == certs;
  }

  function Prefixed(a: seq<bytes>, b: Option<seq<bytes>>): Option<seq<bytes>> {
    var rest :- b;
    Some(a + rest)
  }

  lemma Prepend(a: seq<bytes>, b: Option<seq<bytes>>)
    requires a == []
    ensures Prefixed(a, b) == b
  {
    if b.Some? { assert a + b.value == b.value; }
  }

  lemma PrefixTwice(a: seq<bytes>, b: seq<bytes>, c: Option<seq<bytes>>)
    ensures Prefixed(a, Prefixed(b, c)) == Prefixed(a + b, c)
  {
    if c.Some? { Assoc(a, b, c.value); }
  }

  lemma {:induction false} EntriesRead(isCert: bytes -> bool, certs: seq<bytes>)
    requires forall i :: 0 <= i < |certs| ==> isCert(certs[i]) && |certs[i]| < 16777216
    ensures ParseEntries(isCert, Entries(certs)) == Some(certs)
  {
    if certs != [] {
      EntriesRead(isCert, certs[1..]);
      Pow24();
      var rest := Entries(certs[1..]);
      GetPut(3, certs[0], PutArray(2, []) + rest);
      GetPut(2, [], rest);
      assert [certs[0]] + certs[1..] == certs;
    }
  }

  function CertificateBody(certs: seq<bytes>): bytes { PutArray(1, []) + PutArray(3, Entries(certs)) }

  /** An empty list is refused. */
  function GetCertificate(isCert: bytes -> bool, record: bytes): Option<seq<bytes>>
    requires Sized(record)
  {
    var m :- GetHandshake(record);
    if m.0 != CERTIFICATE then None
    else
      var context :- GetArray(1, m.1);
      var list :- GetArray(3, context.1);
      if list.1 != [] || list.0 == [] then None else ParseEntries(isCert, list.0)
  }

  /** What tls13_record_set_handshake_certificate asks of the certificates. */
  predicate Sendable(isCert: bytes -> bool, certs: seq<bytes>) {
    certs != [] && (forall i :: 0 <= i < |certs| ==> isCert(certs[i])) && BodyFits(CertificateBody(certs))
  }

  lemma {:induction false} EntriesSize(certs: seq<bytes>, i: nat)
    requires i < |certs|
    ensures |certs[i]| + 5 <= |Entries(certs)|
  {
    if i > 0 { EntriesSize(certs[1..], i - 1); }
  }

  lemma CertificateRead(isCert: bytes -> bool, certs: seq<bytes>)
    requires Sendable(isCert, certs)
    ensures var r := HandshakeRecord(3, CERTIFICATE, CertificateBody(certs));
      Sized(r) && GetCertificate(isCert, r) == Some(certs)
  {
    var body, entries := CertificateBody(certs), Entries(certs);
    GetSetHandshake(3, CERTIFICATE, body);
    Pow24();
    forall i | 0 <= i < |certs| ensures |certs[i]| + 5 <= |entries| { EntriesSize(certs, i); }
    EntriesRead(isCert, certs);
    GetPut(1, [], PutArray(3, entries));
    GetPut(3, entries, []);
    assert PutArray(3, entries) + [] == PutArray(3, entries);
    assert |certs[0]| + 5 <= |entries|;
  }

  // ------------------------------------------------------------ CertificateVerify, Finished

  function VerifyBody(sig: bytes): bytes { BigEndian(2, SM2SIG_SM3) + PutArray(2, sig) }

  /** Signature algorithm and signature. */
  function GetVerify(record: bytes): Option<(int, bytes)>
    requires Sized(record)
  {
    var m :- GetHandshake(record);
    if m.0 != CERTIFICATE_VERIFY || |m.1| < 2 then None
    else
      var sig :- GetArray(2, m.1[2..]);
      Some((Value(m.1[..2]), sig.0))
  }

  lemma VerifyRead(sig: bytes)
    requires |sig| <= 256
    ensures var r := HandshakeRecord(3, CERTIFICATE_VERIFY, VerifyBody(sig));
      BodyFits(VerifyBody(sig)) && Sized(r) && GetVerify(r) == Some((SM2SIG_SM3, sig))
  {
    var body := VerifyBody(sig);
    GetSetHandshake(3, CERTIFICATE_VERIFY, body);
    Pow24();
    ValueOfBigEndian(2, SM2SIG_SM3);
    assert body[..2] == BigEndian(2, SM2SIG_SM3) && body[2..] == PutArray(2, sig) + [];
    GetPut(2, sig, []);
  }

  /** tls13_record_get_handshake_finished. */
  function GetFinished(record: bytes): Option<bytes>
    requires Sized(record)
  {
    var m :- GetHandshake(record);
    if m.0 != FINISHED || (|m.1| != 32 && |m.1| != 48) then None else Some(m.1)
  }

  lemma FinishedRead(verifyData: bytes)
    requires |verifyData| == 32
    ensures var r := HandshakeRecord(3, FINISHED, verifyData);
      BodyFits(verifyData) && Sized(r) && GetFinished(r) == Some(verifyData)
  {
    GetSetHandshake(3, FINISHED, verifyData);
  }
}
