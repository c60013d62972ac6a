/** The TLS 1.3 handshake of tls13.c: what each side computes from the bytes it reads. */
module Tls13Handshake {
  import opened Wrappers
  import opened Octets
  import opened Tls13Record
  import opened Tls13Messages

  /** The cryptography and the hello messages. A certificate stands for its public key. */
  datatype Suite<!Key> = Suite(
    prot: Protection<Key>, setKey: bytes -> Key,
    hash: bytes -> bytes, hmac: (bytes, bytes) -> bytes, extract: (bytes, bytes) -> bytes, expand: (bytes, bytes, nat) -> bytes,
    public: bytes -> bytes, ecdh: (bytes, bytes) -> bytes,
    verify: (bytes, bytes, bytes) -> bool, isCert: bytes -> bool, trusted: (bool, seq<bytes>, seq<bytes>) -> bool,
    clientHello: (bytes, bytes) -> bytes, clientPoint: bytes -> Option<bytes>,
    serverHello: (bytes, bytes) -> bytes, serverPoint: bytes -> Option<bytes>)

  /** One side: its certificates and signing key, the authorities it trusts, and its random values:
      hello random, ephemeral key, and padding of each record. */
  datatype Config = Config(
    random: bytes, ecdhe: bytes, certs: seq<bytes>, sign: bytes -> bytes, ca: seq<bytes>, padding: nat -> byte)

  ghost predicate SizesAt<Key>(s: Suite<Key>, a: bytes, b: bytes, n: nat) {
    |s.hmac(a, b)| == 32 && |s.expand(a, b, n)| == n
  }

  ghost predicate HelloAt<Key>(s: Suite<Key>, random: bytes, k: bytes) {
    var c, v := s.clientHello(random, s.public(k)), s.serverHello(random, s.public(k));
    BodyFits(c) && BodyFits(v) && s.clientPoint(c) == Some(s.public(k)) && s.serverPoint(v) == Some(s.public(k))
  }

  ghost predicate AgreeAt<Key>(s: Suite<Key>, a: bytes, b: bytes) {
    s.ecdh(a, s.public(b)) == s.ecdh(b, s.public(a))
  }

  ghost predicate Proper<Key(!new)>(s: Suite<Key>) {
    Laws(s.prot) && (forall a, b, n :: SizesAt(s, a, b, n)) && (forall r, k :: HelloAt(s, r, k)) &&
    (forall a, b :: AgreeAt(s, a, b))
  }

  ghost predicate SignsAt<Key>(s: Suite<Key>, c: Config, m: bytes) {
    |c.sign(m)| <= 256 && (c.certs != [] ==> s.verify(c.certs[0], m, c.sign(m)))
  }

  /** The signing key belongs to the first certificate. */
  ghost predicate Signs<Key(!new)>(s: Suite<Key>, c: Config) { forall m :: SignsAt(s, c, m) }

  // ------------------------------------------------------------ key schedule, section 7.1 of RFC 8446

  function Ascii(text: string): bytes { seq<byte>(|text|, i requires 0 <= i < |text| => text[i] as int % 256) }

  /** tls13_hkdf_expand_label. */
  function ExpandLabel<Key>(s: Suite<Key>, secret: bytes, name: string, context: bytes, n: nat): bytes {
    s.expand(secret, BigEndian(2, n) + PutArray(1, Ascii("tls13 ") + Ascii(name)) + PutArray(1, context), n)
  }

  /** tls13_derive_secret. */
  function Derive<Key>(s: Suite<Key>, secret: bytes, name: string, transcript: bytes): bytes {
    ExpandLabel(s, secret, name, s.hash(transcript), 32)
  }

  function HalfFrom<Key>(s: Suite<Key>, secret: bytes): Half<Key> {
    Half(s.setKey(ExpandLabel(s, secret, "key", [], 16)), ExpandLabel(s, secret, "iv", [], 12), Zeros(8))
  }

  function HandshakeSecret<Key>(s: Suite<Key>, shared: bytes): bytes {
    var early := s.extract(Zeros(32), Zeros(32));
    s.extract(Derive(s, early, "derived", []), shared)
  }

  function MasterSecret<Key>(s: Suite<Key>, shared: bytes): bytes {
    s.extract(Derive(s, HandshakeSecret(s, shared), "derived", []), Zeros(32))
  }

  /** tls13_compute_verify_data. */
  function VerifyData<Key>(s: Suite<Key>, secret: bytes, transcript: bytes): bytes {
    s.hmac(ExpandLabel(s, secret, "finished", [], 32), s.hash(transcript))
  }

  /** What a signature of CertificateVerify covers. */
  function ToSign<Key>(s: Suite<Key>, server: bool, transcript: bytes): bytes {
    var text := if server then "TLS 1.3, server CertificateVerify" else "TLS 1.3, client CertificateVerify";
    seq<byte>(64, i => 0x20) + Ascii(text) + [0] + s.hash(transcript)
  }

  // ------------------------------------------------------------ sessions

  /** The two write directions and the transcript as one side has them, and the secrets. */
  datatype Session<Key> = Session(
    client: Half<Key>, server: Half<Key>, transcript: bytes,
    clientSecret: bytes, serverSecret: bytes, master: bytes) {
    ghost predicate Valid() { client.Valid() && server.Valid() }

    function Of(fromServer: bool): Half<Key> { if fromServer then server else client }

    /** After a record has been sent or taken: digest and sequence number. */
    function Advance(fromServer: bool, record: bytes): (r: Session<Key>)
      requires Valid() && |record| >= 5
      ensures r.Valid()
    {
      var t := transcript + Content(record);
      if fromServer then this.(server := server.Bumped(), transcript := t)
      else this.(client := client.Bumped(), transcript := t)
    }
  }

  /** Handshake keys from the shared point and the two hello messages. */
  function Begin<Key>(s: Suite<Key>, shared: bytes, transcript: bytes): Session<Key> {
    var c := Derive(s, HandshakeSecret(s, shared), "c hs traffic", transcript);
    var v := Derive(s, HandshakeSecret(s, shared), "s hs traffic", transcript);
    Session(HalfFrom(s, c), HalfFrom(s, v), transcript, c, v, MasterSecret(s, shared))
  }

  /** Application keys: the secrets come from the transcript up to the Finished of the server. */
  function Finish<Key>(s: Suite<Key>, x: Session<Key>, finished: bytes): Session<Key> {
    var c := Derive(s, x.master, "c ap traffic", finished);
    var v := Derive(s, x.master, "s ap traffic", finished);
    x.(client := HalfFrom(s, c), server := HalfFrom(s, v))
  }

  lemma HalfValid<Key(!new)>(s: Suite<Key>, secret: bytes)
    requires Proper(s)
    ensures HalfFrom(s, secret).Valid()
  {
    assert SizesAt(s, secret, BigEndian(2, 12) + PutArray(1, Ascii("tls13 ") + Ascii("iv")) + PutArray(1, []), 12);
  }

  lemma BeginValid<Key(!new)>(s: Suite<Key>, shared: bytes, transcript: bytes)
    requires Proper(s)
    ensures Begin(s, shared, transcript).Valid()
  {
    HalfValid(s, Begin(s, shared, transcript).clientSecret);
    HalfValid(s, Begin(s, shared, transcript).serverSecret);
  }

  // ------------------------------------------------------------ one protected message

  function SendBytes<Key>(s: Suite<Key>, x: Session<Key>, server: bool, record: bytes, pad: byte): bytes
    requires x.Valid() && |record| >= 5
  {
    EncryptRecord(s.prot, x.Of(server), record, pad % 128)
  }

  /** The next record of a stream, decrypted, and the rest of the stream. A decrypted record is
      shorter than the received one, so its header always has its size. */
  function Open<Key>(s: Suite<Key>, x: Session<Key>, fromServer: bool, stream: bytes): (r: Option<(bytes, bytes)>)
    requires x.Valid()
    ensures r.Some? ==> Sized(r.value.0)
  {
    var got :- Receive(stream);
    ReceivedFramed(stream);
    var record :- DecryptRecord(s.prot, x.Of(fromServer), got.0);
    if Sized(record) then Some((record, got.1)) else None
  }

  predicate Handshake(record: bytes) {
    Sized(record) && WellFormed(record) && record[0] == HANDSHAKE && |record| <= 5 + MAX_PLAINTEXT_SIZE
  }

  /** A record is opened under the key, iv and sequence number it was sealed with. */
  lemma Delivered<Key(!new)>(s: Suite<Key>, x: Session<Key>, fromServer: bool, record: bytes, pad: byte, rest: bytes)
    requires Proper(s) && x.Valid() && Handshake(record)
    ensures Open(s, x, fromServer, SendBytes(s, x, fromServer, record, pad) + rest) == Some((record, rest))
  {
    var h := x.Of(fromServer);
    DecryptEncrypt(s.prot, h, record, pad % 128);
    EncryptedFramed(s.prot, h, record, pad % 128);
    ReceiveSent(EncryptRecord(s.prot, h, record, pad % 128), rest);
  }

  // ------------------------------------------------------------ messages

  /** A session after sending, and the bytes sent; a session after taking, and the bytes left. */
  datatype Sent<Key> = Sent(x: Session<Key>, out: bytes)

  datatype Taken<Key> = Taken(x: Session<Key>, rest: bytes)

  function SendOne<Key>(s: Suite<Key>, x: Session<Key>, server: bool, record: bytes, pad: byte): (r: Sent<Key>)
    requires x.Valid() && |record| >= 5
    ensures r.x.Valid()
  {
    Sent(x.Advance(server, record), SendBytes(s, x, server, record, pad))
  }

  function Then<Key>(a: Sent<Key>, b: Sent<Key>): Sent<Key> { Sent(b.x, a.out + b.out) }

  function CertificateRecord(certs: seq<bytes>): bytes { HandshakeRecord(3, CERTIFICATE, CertificateBody(certs)) }

  function VerifyRecord<Key>(s: Suite<Key>, x: Session<Key>, server: bool, c: Config): bytes {
    HandshakeRecord(3, CERTIFICATE_VERIFY, VerifyBody(c.sign(ToSign(s, server, x.transcript))))
  }

  /** The Finished of one side, before the digest takes it. */
  function FinishedData<Key>(s: Suite<Key>, x: Session<Key>, server: bool): bytes {
    VerifyData(s, if server then x.serverSecret else x.clientSecret, x.transcript)
  }

  function FinishedRecord<Key>(s: Suite<Key>, x: Session<Key>, server: bool): bytes {
    HandshakeRecord(3, FINISHED, FinishedData(s, x, server))
  }

  function SendCertificate<Key>(s: Suite<Key>, x: Session<Key>, server: bool, c: Config, k: nat): (r: Sent<Key>)
    requires x.Valid()
    ensures r.x.Valid()
  {
    SendOne(s, x, server, CertificateRecord(c.certs), c.padding(k))
  }

  function SendVerify<Key>(s: Suite<Key>, x: Session<Key>, server: bool, c: Config, k: nat): (r: Sent<Key>)
    requires x.Valid()
    ensures r.x.Valid()
  {
    SendOne(s, x, server, VerifyRecord(s, x, server, c), c.padding(k))
  }

  function SendFinished<Key>(s: Suite<Key>, x: Session<Key>, server: bool, c: Config, k: nat): (r: Sent<Key>)
    requires x.Valid()
    ensures r.x.Valid()
  {
    SendOne(s, x, server, FinishedRecord(s, x, server), c.padding(k))
  }

  function TakeCertificate<Key>(s: Suite<Key>, x: Session<Key>, fromServer: bool, record: bytes, ca: seq<bytes>):
    (r: Option<(Session<Key>, seq<bytes>)>)
    requires x.Valid() && Sized(record)
    ensures r.Some? ==> r.value.0.Valid() && r.value.1 != []
  {
    var certs :- GetCertificate(s.isCert, record);
    if certs == [] || !s.trusted(fromServer, ca, certs) then None else Some((x.Advance(fromServer, record), certs))
  }

  /** Only the client looks at the signature algorithm. */
  function TakeVerify<Key>(s: Suite<Key>, x: Session<Key>, fromServer: bool, certs: seq<bytes>, stream: bytes):
    (r: Option<Taken<Key>>)
    requires x.Valid() && certs != []
    ensures r.Some? ==> r.value.x.Valid()
  {
    var got :- Open(s, x, fromServer, stream);
    var v :- GetVerify(got.0);
    if (fromServer && v.0 != SM2SIG_SM3) || !s.verify(certs[0], ToSign(s, fromServer, x.transcript), v.1) then None
    else Some(Taken(x.Advance(fromServer, got.0), got.1))
  }

  function TakeFinished<Key>(s: Suite<Key>, x: Session<Key>, fromServer: bool, stream: bytes): (r: Option<Taken<Key>>)
    requires x.Valid()
    ensures r.Some? ==> r.value.x.Valid()
  {
    var got :- Open(s, x, fromServer, stream);
    var data :- GetFinished(got.0);
    if data != FinishedData(s, x, fromServer) then None else Some(Taken(x.Advance(fromServer, got.0), got.1))
  }

  /** The certificate of a side is taken exactly when it is trusted, and leaves the same session. */
  lemma CertificateTaken<Key(!new)>(s: Suite<Key>, x: Session<Key>, server: bool, c: Config, ca: seq<bytes>, k: nat, rest: bytes)
    requires Proper(s) && x.Valid() && Sendable(s.isCert, c.certs)
    ensures var r := CertificateRecord(c.certs);
      Sized(r) && Open(s, x, server, SendCertificate(s, x, server, c, k).out + rest) == Some((r, rest)) &&
      TakeCertificate(s, x, server, r, ca) ==
        if s.trusted(server, ca, c.certs) then Some((SendCertificate(s, x, server, c, k).x, c.certs)) else None
  {
    var r := CertificateRecord(c.certs);
    GetSetHandshake(3, CERTIFICATE, CertificateBody(c.certs));
    CertificateRead(s.isCert, c.certs);
    Delivered(s, x, server, r, c.padding(k), rest);
  }

  lemma VerifyTaken<Key(!new)>(s: Suite<Key>, x: Session<Key>, server: bool, c: Config, k: nat, rest: bytes)
    requires Proper(s) && Signs(s, c) && x.Valid() && c.certs != []
    ensures var sent := SendVerify(s, x, server, c, k);
      TakeVerify(s, x, server, c.certs, sent.out + rest) == Some(Taken(sent.x, rest))
  {
    var m := ToSign(s, server, x.transcript);
    assert SignsAt(s, c, m);
    VerifyRead(c.sign(m));
    GetSetHandshake(3, CERTIFICATE_VERIFY, VerifyBody(c.sign(m)));
    Delivered(s, x, server, VerifyRecord(s, x, server, c), c.padding(k), rest);
  }

  lemma FinishedTaken<Key(!new)>(s: Suite<Key>, x: Session<Key>, server: bool, c: Config, k: nat, rest: bytes)
    requires Proper(s) && x.Valid()
    ensures var sent := SendFinished(s, x, server, c, k);
      TakeFinished(s, x, server, sent.out + rest) == Some(Taken(sent.x, rest))
  {
    var data := FinishedData(s, x, server);
    DataSize(s, x, server);
    FinishedRead(data);
    GetSetHandshake(3, FINISHED, data);
    Delivered(s, x, server, FinishedRecord(s, x, server), c.padding(k), rest);
  }

  lemma DataSize<Key(!new)>(s: Suite<Key>, x: Session<Key>, server: bool)
    requires Proper(s)
    ensures |FinishedData(s, x, server)| == 32
  {
    var secret := if server then x.serverSecret else x.clientSecret;
    assert SizesAt(s, ExpandLabel(s, secret, "finished", [], 32), s.hash(x.transcript), 32);
  }

  // ------------------------------------------------------------ extensions

  function EncryptedExtensionsRecord(): bytes { HandshakeRecord(3, ENCRYPTED_EXTENSIONS, EE_BODY) }

  function RequestRecord(): bytes { HandshakeRecord(3, CERTIFICATE_REQUEST, CR_BODY) }

  /** EncryptedExtensions, and CertificateRequest when the server has authorities to check with. */
  function SendExtensions<Key>(s: Suite<Key>, x: Session<Key>, c: Config): (r: Sent<Key>)
    requires x.Valid()
    ensures r.x.Valid()
  {
    var e := SendOne(s, x, true, EncryptedExtensionsRecord(), c.padding(0));
    if c.ca != [] then Then(e, SendOne(s, e.x, true, RequestRecord(), c.padding(1))) else e
  }

  /** What the client has after the extensions: the record behind them is already opened. */
  datatype Extensions<Key> = Extensions(x: Session<Key>, requested: bool, record: bytes, rest: bytes)

  function TakeExtensions<Key>(s: Suite<Key>, x: Session<Key>, stream: bytes): (r: Option<Extensions<Key>>)
    requires x.Valid()
    ensures r.Some? ==> r.value.x.Valid() && Sized(r.value.record)
  {
    var e :- Open(s, x, true, stream);
    if !IsEncryptedExtensions(e.0) then None
    else
      var x1 := x.Advance(true, e.0);
      var next :- Open(s, x1, true, e.1);
      var m :- GetHandshake(next.0);
      if m.0 == CERTIFICATE_REQUEST then
        if !IsCertificateRequest(m.1) then None
        else
          var x2 := x1.Advance(true, next.0);
          var last :- Open(s, x2, true, next.1);
          Some(Extensions(x2, true, last.0, last.1))
      else Some(Extensions(x1, false, next.0, next.1))
  }

  /** The client sees exactly whether its certificate is requested. */
  lemma ExtensionsTaken<Key(!new)>(s: Suite<Key>, x: Session<Key>, c: Config, record: bytes, pad: byte, rest: bytes)
    requires Proper(s) && x.Valid() && Handshake(record)
    requires GetHandshake(record).Some? && GetHandshake(record).value.0 != CERTIFICATE_REQUEST
    ensures var e := SendExtensions(s, x, c);
      TakeExtensions(s, x, e.out + (SendBytes(s, e.x, true, record, pad) + rest)) == Some(Extensions(e.x, c.ca != [], record, rest))
  {
    var ee, cr := EncryptedExtensionsRecord(), RequestRecord();
    var e := SendExtensions(s, x, c);
    var after := SendBytes(s, e.x, true, record, pad) + rest;
    EncryptedExtensionsRead();
    GetSetHandshake(3, ENCRYPTED_EXTENSIONS, EE_BODY);
    Delivered(s, e.x, true, record, pad, rest);
    if c.ca != [] {
      CertificateRequestRead();
      GetSetHandshake(3, CERTIFICATE_REQUEST, CR_BODY);
      var x1 := x.Advance(true, ee);
      var first, second := SendBytes(s, x, true, ee, c.padding(0)), SendBytes(s, x1, true, cr, c.padding(1));
      Delivered(s, x, true, ee, c.padding(0), second + after);
      Delivered(s, x1, true, cr, c.padding(1), after);
      Assoc(first, second, after);
    } else {
      Delivered(s, x, true, ee, c.padding(0), after);
    }
  }
}
