/** What a successful handshake is, message by message and byte by byte: the transcript, what every signature and
    every Finished covers, the inputs of HKDF (section 7.1 of RFC 8446) and the records on the wire. Nothing
    here is stated through the functions that the two sides run. */
module Tls13Transcript {
  import opened Wrappers
  import opened Octets
  import opened Tls13Record
  import opened Tls13Messages
  import opened Tls13Handshake
  import opened Tls13Lockstep

  // ------------------------------------------------------------ messages

  /** Type, length in three bytes, and body. */
  function Message(t: byte, body: bytes): bytes {
    [t, |body| / 65536 % 256, |body| / 256 % 256, |body| % 256] + body
  }

  /** The extension supported_groups (10) with the list of the one group 41. */
  const ENCRYPTED_EXTENSIONS_MESSAGE: bytes := [8, 0, 0, 10, 0, 8, 0, 10, 0, 4, 0, 2, 0, 41]

  /** No context, and the extension signature_algorithms (13) with the list of the one algorithm 0x0708. */
  const CERTIFICATE_REQUEST_MESSAGE: bytes := [13, 0, 0, 11, 0, 0, 8, 0, 13, 0, 4, 0, 2, 7, 8]

  /** Each certificate with its length in three bytes in front and an empty list of extensions behind. */
  function CertificateList(certs: seq<bytes>): bytes {
    if certs == [] then []
    else
      var n := |certs[0]|;
      [n / 65536 % 256, n / 256 % 256, n % 256] + certs[0] + [0, 0] + CertificateList(certs[1..])
  }

  function CertificateMessage(certs: seq<bytes>): bytes {
    var list := CertificateList(certs);
    Message(11, [0, |list| / 65536 % 256, |list| / 256 % 256, |list| % 256] + list)
  }

  function VerifyMessage(sig: bytes): bytes {
    Message(15, [7, 8, |sig| / 256 % 256, |sig| % 256] + sig)
  }

  function FinishedMessage(data: bytes): bytes { Message(20, data) }

  lemma MessageContent(minor: byte, t: byte, body: bytes)
    ensures Content(HandshakeRecord(minor, t, body)) == Message(t, body)
  {
    ThreeBytes(|body|);
    assert Content(HandshakeRecord(minor, t, body)) == [t] + PutArray(3, body);
    Assoc([t], BigEndian(3, |body|), body);
  }

  lemma ExtensionsBody()
    ensures EE_BODY == [0, 8, 0, 10, 0, 4, 0, 2, 0, 41]
  {
    TwoBytes(8);
  }

  lemma RequestBody()
    ensures CR_BODY == [0, 0, 8, 0, 13, 0, 4, 0, 2, 7, 8]
  {
    TwoBytes(8);
    OneByte(0);
    assert PutArray(1, []) == [0];
  }

  lemma ExtensionsContent()
    ensures Content(EncryptedExtensionsRecord()) == ENCRYPTED_EXTENSIONS_MESSAGE
  {
    ExtensionsBody();
    MessageContent(3, ENCRYPTED_EXTENSIONS, EE_BODY);
  }

  lemma RequestContent()
    ensures Content(RequestRecord()) == CERTIFICATE_REQUEST_MESSAGE
  {
    RequestBody();
    MessageContent(3, CERTIFICATE_REQUEST, CR_BODY);
  }

  lemma {:induction false} EntriesAre(certs: seq<bytes>)
    ensures Entries(certs) == CertificateList(certs)
  {
    if certs != [] {
      EntriesAre(certs[1..]);
      ThreeBytes(|certs[0]|);
      TwoBytes(0);
      assert PutArray(2, []) == [0, 0];
    }
  }

  lemma CertificateContent(certs: seq<bytes>)
    ensures Content(CertificateRecord(certs)) == CertificateMessage(certs)
  {
    var list := CertificateList(certs);
    MessageContent(3, CERTIFICATE, CertificateBody(certs));
    EntriesAre(certs);
    OneByte(0);
    ThreeBytes(|list|);
    assert CertificateBody(certs) == [0, |list| / 65536 % 256, |list| / 256 % 256, |list| % 256] + list;
  }

  lemma VerifyContent(sig: bytes)
    ensures Content(HandshakeRecord(3, CERTIFICATE_VERIFY, VerifyBody(sig))) == VerifyMessage(sig)
  {
    MessageContent(3, CERTIFICATE_VERIFY, VerifyBody(sig));
    TwoBytes(SM2SIG_SM3);
    TwoBytes(|sig|);
    assert VerifyBody(sig) == [7, 8, |sig| / 256 % 256, |sig| % 256] + sig;
  }

  // ------------------------------------------------------------ HKDF

  /** "derived", "c hs traffic", "s hs traffic", "c ap traffic", "s ap traffic", "key", "iv" and "finished". */
  const DERIVED: bytes := [100, 101, 114, 105, 118, 101, 100]
  const C_HS: bytes := [99, 32, 104, 115, 32, 116, 114, 97, 102, 102, 105, 99]
  const S_HS: bytes := [115, 32, 104, 115, 32, 116, 114, 97, 102, 102, 105, 99]
  const C_AP: bytes := [99, 32, 97, 112, 32, 116, 114, 97, 102, 102, 105, 99]
  const S_AP: bytes := [115, 32, 97, 112, 32, 116, 114, 97, 102, 102, 105, 99]
  const KEY: bytes := [107, 101, 121]
  const IV: bytes := [105, 118]
  const FINISHED_LABEL: bytes := [102, 105, 110, 105, 115, 104, 101, 100]

  /** HkdfLabel: the length, "tls13 " and the label, and the context. */
  function Expanded<Key>(s: Suite<Key>, secret: bytes, name: bytes, context: bytes, n: byte): bytes {
    s.expand(secret, [0, n, (6 + |name|) % 256, 116, 108, 115, 49, 51, 32] + name + [|context| % 256] + context, n)
  }

  lemma ExpandIs<Key>(s: Suite<Key>, secret: bytes, name: string, ascii: bytes, context: bytes, n: byte)
    requires Ascii(name) == ascii
    ensures ExpandLabel(s, secret, name, context, n) == Expanded(s, secret, ascii, context, n)
  {
    TwoBytes(n);
    Prefix();
    var full := Ascii("tls13 ") + ascii;
    OneByte(|full|);
    OneByte(|context|);
    assert BigEndian(2, n) + PutArray(1, full) + PutArray(1, context) ==
      [0, n, (6 + |ascii|) % 256, 116, 108, 115, 49, 51, 32] + ascii + [|context| % 256] + context;
  }

  lemma Prefix()
    ensures Ascii("tls13 ") == [116, 108, 115, 49, 51, 32]
  {
  }

  lemma Names()
    ensures Ascii("derived") == DERIVED && Ascii("key") == KEY && Ascii("iv") == IV && Ascii("finished") == FINISHED_LABEL
  {
  }

  lemma TrafficNames()
    ensures Ascii("c hs traffic") == C_HS && Ascii("s hs traffic") == S_HS
    ensures Ascii("c ap traffic") == C_AP && Ascii("s ap traffic") == S_AP
  {
  }

  // ------------------------------------------------------------ what is signed

  /** "TLS 1.3, server CertificateVerify" and "TLS 1.3, client CertificateVerify", with a zero behind. */
  const SERVER_CONTEXT: bytes := [84, 76, 83, 32, 49, 46, 51, 44, 32, 115, 101, 114, 118, 101, 114, 32,
    67, 101, 114, 116, 105, 102, 105, 99, 97, 116, 101, 86, 101, 114, 105, 102, 121, 0]
  const CLIENT_CONTEXT: bytes := [84, 76, 83, 32, 49, 46, 51, 44, 32, 99, 108, 105, 101, 110, 116, 32,
    67, 101, 114, 116, 105, 102, 105, 99, 97, 116, 101, 86, 101, 114, 105, 102, 121, 0]

  function Spaces(): bytes { seq<byte>(64, i => 32) }

  lemma ServerContext()
    ensures Ascii("TLS 1.3, server CertificateVerify") + [0] == SERVER_CONTEXT
  {
  }

  lemma ClientContext()
    ensures Ascii("TLS 1.3, client CertificateVerify") + [0] == CLIENT_CONTEXT
  {
  }

  lemma ToSignIs<Key>(s: Suite<Key>, server: bool, transcript: bytes)
    ensures ToSign(s, server, transcript) == Spaces() + (if server then SERVER_CONTEXT else CLIENT_CONTEXT) + s.hash(transcript)
  {
    ServerContext();
    ClientContext();
    var pad := seq<byte>(64, i => 0x20);
    assert pad == Spaces();
    Assoc(pad, Ascii(if server then "TLS 1.3, server CertificateVerify" else "TLS 1.3, client CertificateVerify"), [0]);
  }

  // ------------------------------------------------------------ the key schedule

  function Traffic<Key>(s: Suite<Key>, secret: bytes, name: bytes, transcript: bytes): bytes {
    Expanded(s, secret, name, s.hash(transcript), 32)
  }

  /** The secret of the handshake, from the early secret of a zero key and the shared point. */
  function FromShared<Key>(s: Suite<Key>, shared: bytes): bytes {
    s.extract(Traffic(s, s.extract(Zeros(32), Zeros(32)), DERIVED, []), shared)
  }

  function Master<Key>(s: Suite<Key>, shared: bytes): bytes {
    s.extract(Traffic(s, FromShared(s, shared), DERIVED, []), Zeros(32))
  }

  /** Write key, iv and sequence number of one side, the number below 256. */
  function HalfAt<Key>(s: Suite<Key>, traffic: bytes, n: byte): Half<Key> {
    Half(s.setKey(Expanded(s, traffic, KEY, [], 16)), Expanded(s, traffic, IV, [], 12), [0, 0, 0, 0, 0, 0, 0, n])
  }

  lemma HalfAtValid<Key(!new)>(s: Suite<Key>, traffic: bytes, n: byte)
    requires Proper(s)
    ensures HalfAt(s, traffic, n).Valid()
  {
    assert SizesAt(s, traffic, [0, 12, (6 + |IV|) % 256, 116, 108, 115, 49, 51, 32] + IV + [0] + [], 12);
  }

  lemma HalfFromIs<Key>(s: Suite<Key>, traffic: bytes)
    ensures HalfFrom(s, traffic) == HalfAt(s, traffic, 0)
  {
    Names();
    ExpandIs(s, traffic, "key", KEY, [], 16);
    ExpandIs(s, traffic, "iv", IV, [], 12);
    assert Zeros(8) == [0, 0, 0, 0, 0, 0, 0, 0];
  }

  lemma SecretsAre<Key>(s: Suite<Key>, shared: bytes)
    ensures HandshakeSecret(s, shared) == FromShared(s, shared) && MasterSecret(s, shared) == Master(s, shared)
  {
    Names();
    ExpandIs(s, s.extract(Zeros(32), Zeros(32)), "derived", DERIVED, s.hash([]), 32);
    ExpandIs(s, FromShared(s, shared), "derived", DERIVED, s.hash([]), 32);
  }

  // ------------------------------------------------------------ the transcript of a run

  function Hellos<Key>(s: Suite<Key>, c: Config, v: Config): bytes {
    Message(1, s.clientHello(c.random, s.public(c.ecdhe))) + Message(2, s.serverHello(v.random, s.public(v.ecdhe)))
  }

  function SharedPoint<Key>(s: Suite<Key>, c: Config, v: Config): bytes { s.ecdh(c.ecdhe, s.public(v.ecdhe)) }

  function ClientTraffic<Key>(s: Suite<Key>, c: Config, v: Config): bytes {
    Traffic(s, FromShared(s, SharedPoint(s, c, v)), C_HS, Hellos(s, c, v))
  }

  function ServerTraffic<Key>(s: Suite<Key>, c: Config, v: Config): bytes {
    Traffic(s, FromShared(s, SharedPoint(s, c, v)), S_HS, Hellos(s, c, v))
  }

  /** Up to the extensions, up to the certificate, and up to the signature of the server. */
  function ToExtensions<Key>(s: Suite<Key>, c: Config, v: Config): bytes {
    Hellos(s, c, v) + ENCRYPTED_EXTENSIONS_MESSAGE + if v.ca != [] then CERTIFICATE_REQUEST_MESSAGE else []
  }

  function ToCertificate<Key>(s: Suite<Key>, c: Config, v: Config): bytes {
    ToExtensions(s, c, v) + CertificateMessage(v.certs)
  }

  function ToVerify<Key>(s: Suite<Key>, c: Config, v: Config): bytes {
    var t := ToCertificate(s, c, v);
    t + VerifyMessage(v.sign(Spaces() + SERVER_CONTEXT + s.hash(t)))
  }

  function FinishedOf<Key>(s: Suite<Key>, traffic: bytes, transcript: bytes): bytes {
    FinishedMessage(s.hmac(Expanded(s, traffic, FINISHED_LABEL, [], 32), s.hash(transcript)))
  }

  /** Up to the Finished of the server. */
  function ToFinished<Key>(s: Suite<Key>, c: Config, v: Config): bytes {
    var t := ToVerify(s, c, v);
    t + FinishedOf(s, ServerTraffic(s, c, v), t)
  }

  /** Up to the certificate of the client. */
  function ToAnswer<Key>(s: Suite<Key>, c: Config, v: Config): bytes {
    ToFinished(s, c, v) + CertificateMessage(c.certs)
  }

  /** Up to the Finished of the client, which comes alone unless a certificate is asked for and there. */
  function BeforeEnd<Key>(s: Suite<Key>, c: Config, v: Config): bytes {
    if v.ca != [] && c.certs != [] then
      var t := ToAnswer(s, c, v);
      t + VerifyMessage(c.sign(Spaces() + CLIENT_CONTEXT + s.hash(t)))
    else ToFinished(s, c, v)
  }

  function Whole<Key>(s: Suite<Key>, c: Config, v: Config): bytes {
    var t := BeforeEnd(s, c, v);
    t + FinishedOf(s, ClientTraffic(s, c, v), t)
  }

  /** What the parties have at the end: application keys from the transcript up to the Finished of the server. */
  function Established<Key>(s: Suite<Key>, c: Config, v: Config): Session<Key> {
    var m, t := Master(s, SharedPoint(s, c, v)), ToFinished(s, c, v);
    Session(HalfAt(s, Traffic(s, m, C_AP, t), 0), HalfAt(s, Traffic(s, m, S_AP, t), 0), Whole(s, c, v),
            ClientTraffic(s, c, v), ServerTraffic(s, c, v), m)
  }

  // ------------------------------------------------------------ records

  /** A hello message in the clear. */
  function Plain(minor: byte, message: bytes): bytes {
    [22, 3, minor, |message| / 256 % 256, |message| % 256] + message
  }

  /** A handshake message sealed with some zeros behind: its own header is the additional data. */
  function Sealed<Key>(s: Suite<Key>, h: Half<Key>, message: bytes, padding: byte): bytes
    requires h.Valid()
  {
    var plain := message + [22] + Zeros(padding % 128);
    var n := |plain| + 16;
    var header := [23, 3, 3, n / 256 % 256, n % 256];
    header + s.prot.seal(h.key, Nonce(s.prot, h.iv, h.seqNum), header, plain)
  }

  lemma SendBytesAre<Key(!new)>(s: Suite<Key>, x: Session<Key>, server: bool, t: byte, body: bytes, pad: byte)
    requires Proper(s) && x.Valid()
    ensures SendBytes(s, x, server, HandshakeRecord(3, t, body), pad) == Sealed(s, x.Of(server), Message(t, body), pad)
  {
    var h := x.Of(server);
    var record, message := HandshakeRecord(3, t, body), Message(t, body);
    MessageContent(3, t, body);
    var n := |message| + 1 + pad % 128 + TAG_SIZE;
    assert SealAt(s.prot, h.key, Nonce(s.prot, h.iv, h.seqNum), Header(APPLICATION_DATA, n), Inner(message, HANDSHAKE, pad % 128));
  }

  // ------------------------------------------------------------ the flights

  /** The session between two messages: how many records each side has sent, and the transcript. */
  function At<Key>(s: Suite<Key>, c: Config, v: Config, nc: byte, ns: byte, t: bytes): Session<Key> {
    var k, l := ClientTraffic(s, c, v), ServerTraffic(s, c, v);
    Session(HalfAt(s, k, nc), HalfAt(s, l, ns), t, k, l, Master(s, SharedPoint(s, c, v)))
  }

  lemma SharedIs<Key>(s: Suite<Key>, c: Config, v: Config)
    ensures Shared(s, c, v) == At(s, c, v, 0, 0, Hellos(s, c, v))
  {
    MessageContent(1, CLIENT_HELLO, s.clientHello(c.random, s.public(c.ecdhe)));
    MessageContent(3, SERVER_HELLO, s.serverHello(v.random, s.public(v.ecdhe)));
    var h := FromShared(s, SharedPoint(s, c, v));
    SecretsAre(s, SharedPoint(s, c, v));
    TrafficNames();
    ExpandIs(s, h, "c hs traffic", C_HS, s.hash(Hellos(s, c, v)), 32);
    ExpandIs(s, h, "s hs traffic", S_HS, s.hash(Hellos(s, c, v)), 32);
    HalfFromIs(s, ClientTraffic(s, c, v));
    HalfFromIs(s, ServerTraffic(s, c, v));
  }

  lemma BumpedHalf<Key>(s: Suite<Key>, traffic: bytes, n: byte)
    requires n < 255
    ensures HalfAt(s, traffic, n).Bumped() == HalfAt(s, traffic, n + 1)
  {
    var a: bytes := [0, 0, 0, 0, 0, 0, 0, n];
    var b := a[1..];
    assert b == [0, 0, 0, 0, 0, 0, n] && b[..6] == [0, 0, 0, 0, 0, 0] && a[..1] == [0];
    assert Next(b) == b[..6] + [n + 1];
  }

  /** One message: the number of its sender goes up by one, and the transcript grows by the message. */
  lemma SendsOne<Key(!new)>(s: Suite<Key>, c: Config, v: Config, nc: byte, ns: byte, t: bytes, server: bool,
                            kind: byte, body: bytes, pad: byte)
    requires Proper(s) && nc < 255 && ns < 255
    ensures
      var x := At(s, c, v, nc, ns, t);
      x.Valid() && x.Of(server).Valid() &&
      SendOne(s, x, server, HandshakeRecord(3, kind, body), pad) == Sent(
        if server then At(s, c, v, nc, ns + 1, t + Message(kind, body)) else At(s, c, v, nc + 1, ns, t + Message(kind, body)),
        Sealed(s, x.Of(server), Message(kind, body), pad))
  {
    HalfAtValid(s, ClientTraffic(s, c, v), nc);
    HalfAtValid(s, ServerTraffic(s, c, v), ns);
    MessageContent(3, kind, body);
    BumpedHalf(s, ClientTraffic(s, c, v), nc);
    BumpedHalf(s, ServerTraffic(s, c, v), ns);
    SendBytesAre(s, At(s, c, v, nc, ns, t), server, kind, body, pad);
  }

  /** The three signed messages of one side, from the transcript t on. */
  lemma CertificateSent<Key(!new)>(s: Suite<Key>, c: Config, v: Config, nc: byte, ns: byte, t: bytes, server: bool, k: nat)
    requires Proper(s) && nc < 255 && ns < 255
    ensures var x, g := At(s, c, v, nc, ns, t), if server then v else c;
      var m := CertificateMessage(g.certs);
      x.Valid() && x.Of(server).Valid() &&
      SendCertificate(s, x, server, g, k) == Sent(
        if server then At(s, c, v, nc, ns + 1, t + m) else At(s, c, v, nc + 1, ns, t + m), Sealed(s, x.Of(server), m, g.padding(k)))
  {
    var g := if server then v else c;
    CertificateContent(g.certs);
    MessageContent(3, CERTIFICATE, CertificateBody(g.certs));
    SendsOne(s, c, v, nc, ns, t, server, CERTIFICATE, CertificateBody(g.certs), g.padding(k));
  }

  lemma VerifySent<Key(!new)>(s: Suite<Key>, c: Config, v: Config, nc: byte, ns: byte, t: bytes, server: bool, k: nat)
    requires Proper(s) && nc < 255 && ns < 255
    ensures var x, g := At(s, c, v, nc, ns, t), if server then v else c;
      var m := VerifyMessage(g.sign(Spaces() + (if server then SERVER_CONTEXT else CLIENT_CONTEXT) + s.hash(t)));
      x.Valid() && x.Of(server).Valid() &&
      SendVerify(s, x, server, g, k) == Sent(
        if server then At(s, c, v, nc, ns + 1, t + m) else At(s, c, v, nc + 1, ns, t + m), Sealed(s, x.Of(server), m, g.padding(k)))
  {
    var g := if server then v else c;
    ToSignIs(s, server, t);
    var sig := g.sign(ToSign(s, server, t));
    VerifyContent(sig);
    MessageContent(3, CERTIFICATE_VERIFY, VerifyBody(sig));
    SendsOne(s, c, v, nc, ns, t, server, CERTIFICATE_VERIFY, VerifyBody(sig), g.padding(k));
  }

  lemma FinishedSent<Key(!new)>(s: Suite<Key>, c: Config, v: Config, nc: byte, ns: byte, t: bytes, server: bool, k: nat)
    requires Proper(s) && nc < 255 && ns < 255
    ensures var x, g := At(s, c, v, nc, ns, t), if server then v else c;
      var m := FinishedOf(s, if server then ServerTraffic(s, c, v) else ClientTraffic(s, c, v), t);
      x.Valid() && x.Of(server).Valid() &&
      SendFinished(s, x, server, g, k) == Sent(
        if server then At(s, c, v, nc, ns + 1, t + m) else At(s, c, v, nc + 1, ns, t + m), Sealed(s, x.Of(server), m, g.padding(k)))
  {
    var g := if server then v else c;
    var traffic := if server then ServerTraffic(s, c, v) else ClientTraffic(s, c, v);
    Names();
    ExpandIs(s, traffic, "finished", FINISHED_LABEL, [], 32);
    SendsOne(s, c, v, nc, ns, t, server, FINISHED, FinishedData(s, At(s, c, v, nc, ns, t), server), g.padding(k));
  }

  /** A message under the handshake key of one side, as record n of that side. */
  function Protected<Key(!new)>(s: Suite<Key>, traffic: bytes, n: byte, message: bytes, padding: byte): bytes
    requires Proper(s)
  {
    HalfAtValid(s, traffic, n);
    Sealed(s, HalfAt(s, traffic, n), message, padding)
  }

  /** How many records the server has sent after its extensions. */
  function ExtensionRecords(v: Config): byte { if v.ca != [] then 2 else 1 }

  function ExtensionsOut<Key(!new)>(s: Suite<Key>, c: Config, v: Config): bytes
    requires Proper(s)
  {
    var k := ServerTraffic(s, c, v);
    var first := Protected(s, k, 0, ENCRYPTED_EXTENSIONS_MESSAGE, v.padding(0));
    if v.ca != [] then first + Protected(s, k, 1, CERTIFICATE_REQUEST_MESSAGE, v.padding(1)) else first
  }

  /** Certificate, CertificateVerify and Finished of the server. */
  function SignedOut<Key(!new)>(s: Suite<Key>, c: Config, v: Config): bytes
    requires Proper(s)
  {
    var k, n, t := ServerTraffic(s, c, v), ExtensionRecords(v), ToCertificate(s, c, v);
    Protected(s, k, n, CertificateMessage(v.certs), v.padding(2)) +
    Protected(s, k, n + 1, VerifyMessage(v.sign(Spaces() + SERVER_CONTEXT + s.hash(t))), v.padding(3)) +
    Protected(s, k, n + 2, FinishedOf(s, k, ToVerify(s, c, v)), v.padding(4))
  }

  /** Everything the server sends when it has certificates to send. */
  function ServerOut<Key(!new)>(s: Suite<Key>, c: Config, v: Config): bytes
    requires Proper(s)
  {
    Plain(3, Message(2, s.serverHello(v.random, s.public(v.ecdhe)))) + (ExtensionsOut(s, c, v) + SignedOut(s, c, v))
  }

  /** What a successful client sends behind its hello. */
  function AnswerOut<Key(!new)>(s: Suite<Key>, c: Config, v: Config): bytes
    requires Proper(s)
  {
    var k := ClientTraffic(s, c, v);
    if v.ca != [] && c.certs != [] then
      Protected(s, k, 0, CertificateMessage(c.certs), c.padding(0)) +
      Protected(s, k, 1, VerifyMessage(c.sign(Spaces() + CLIENT_CONTEXT + s.hash(ToAnswer(s, c, v)))), c.padding(1)) +
      Protected(s, k, 2, FinishedOf(s, k, BeforeEnd(s, c, v)), c.padding(2))
    else Protected(s, k, 0, FinishedOf(s, k, ToFinished(s, c, v)), c.padding(2))
  }

  function ClientOut<Key(!new)>(s: Suite<Key>, c: Config, v: Config): bytes
    requires Proper(s)
  {
    Plain(1, Message(1, s.clientHello(c.random, s.public(c.ecdhe)))) + AnswerOut(s, c, v)
  }

  lemma ExtensionsSent<Key(!new)>(s: Suite<Key>, c: Config, v: Config)
    requires Proper(s)
    ensures
      var x := At(s, c, v, 0, 0, Hellos(s, c, v));
      x.Valid() &&
      SendExtensions(s, x, v) == Sent(At(s, c, v, 0, ExtensionRecords(v), ToExtensions(s, c, v)), ExtensionsOut(s, c, v))
  {
    var t := Hellos(s, c, v);
    ExtensionsContent();
    MessageContent(3, ENCRYPTED_EXTENSIONS, EE_BODY);
    SendsOne(s, c, v, 0, 0, t, true, ENCRYPTED_EXTENSIONS, EE_BODY, v.padding(0));
    if v.ca != [] {
      RequestContent();
      MessageContent(3, CERTIFICATE_REQUEST, CR_BODY);
      SendsOne(s, c, v, 0, 1, t + ENCRYPTED_EXTENSIONS_MESSAGE, true, CERTIFICATE_REQUEST, CR_BODY, v.padding(1));
    } else {
      assert t + ENCRYPTED_EXTENSIONS_MESSAGE + [] == t + ENCRYPTED_EXTENSIONS_MESSAGE;
    }
  }

  lemma ServerFlightIs<Key(!new)>(s: Suite<Key>, c: Config, v: Config)
    requires Proper(s)
    ensures
      var x := At(s, c, v, 0, 0, Hellos(s, c, v));
      x.Valid() &&
      ServerWrites(s, v, x) ==
        Sent(At(s, c, v, 0, ExtensionRecords(v) + 3, ToFinished(s, c, v)), ExtensionsOut(s, c, v) + SignedOut(s, c, v))
  {
    var n := ExtensionRecords(v);
    ExtensionsSent(s, c, v);
    CertificateSent(s, c, v, 0, n, ToExtensions(s, c, v), true, 2);
    VerifySent(s, c, v, 0, n + 1, ToCertificate(s, c, v), true, 3);
    FinishedSent(s, c, v, 0, n + 2, ToVerify(s, c, v), true, 4);
  }

  /** The answer of the client, with and without a certificate; n is the number of records of the server. */
  lemma AnswerIs<Key(!new)>(s: Suite<Key>, c: Config, v: Config, n: byte)
    requires Proper(s) && n < 255 && v.ca != [] && c.certs != []
    ensures
      var y := At(s, c, v, 0, n, ToFinished(s, c, v));
      y.Valid() && ClientWrites(s, c, y, true) == Sent(At(s, c, v, 3, n, Whole(s, c, v)), AnswerOut(s, c, v))
  {
    CertificateSent(s, c, v, 0, n, ToFinished(s, c, v), false, 0);
    VerifySent(s, c, v, 1, n, ToAnswer(s, c, v), false, 1);
    FinishedSent(s, c, v, 2, n, BeforeEnd(s, c, v), false, 2);
  }

  lemma BareAnswerIs<Key(!new)>(s: Suite<Key>, c: Config, v: Config, n: byte)
    requires Proper(s) && n < 255 && !(v.ca != [] && c.certs != [])
    ensures
      var y := At(s, c, v, 0, n, ToFinished(s, c, v));
      y.Valid() && ClientWrites(s, c, y, v.ca != []) == Sent(At(s, c, v, 1, n, Whole(s, c, v)), AnswerOut(s, c, v))
  {
    FinishedSent(s, c, v, 0, n, ToFinished(s, c, v), false, 2);
  }

  /** Key update: both halves from the transcript up to the Finished of the server. */
  lemma FinishIs<Key(!new)>(s: Suite<Key>, c: Config, v: Config, nc: byte, ns: byte)
    ensures Finish(s, At(s, c, v, nc, ns, Whole(s, c, v)), ToFinished(s, c, v)) == Established(s, c, v)
  {
    var m, t := Master(s, SharedPoint(s, c, v)), ToFinished(s, c, v);
    TrafficNames();
    ExpandIs(s, m, "c ap traffic", C_AP, s.hash(t), 32);
    ExpandIs(s, m, "s ap traffic", S_AP, s.hash(t), 32);
    HalfFromIs(s, Traffic(s, m, C_AP, t));
    HalfFromIs(s, Traffic(s, m, S_AP, t));
  }

  /** The session of both sides between the two flights, and the bytes of the server. */
  lemma MiddleIs<Key(!new)>(s: Suite<Key>, c: Config, v: Config)
    requires Proper(s)
    ensures Middle(s, c, v) == At(s, c, v, 0, ExtensionRecords(v) + 3, ToFinished(s, c, v))
    ensures Sendable(s.isCert, v.certs) ==> FromServer(s, c, v) == ServerOut(s, c, v)
  {
    SharedIs(s, c, v);
    ServerFlightIs(s, c, v);
    MessageContent(3, SERVER_HELLO, s.serverHello(v.random, s.public(v.ecdhe)));
  }

  lemma EndIs<Key(!new)>(s: Suite<Key>, c: Config, v: Config)
    requires Proper(s)
    ensures
      var y := Middle(s, c, v);
      var z := ClientWrites(s, c, y, v.ca != []);
      Finish(s, z.x, y.transcript) == Established(s, c, v) && z.out == AnswerOut(s, c, v)
  {
    var n := ExtensionRecords(v) + 3;
    MiddleIs(s, c, v);
    if v.ca != [] && c.certs != [] {
      AnswerIs(s, c, v, n);
      FinishIs(s, c, v, 3, n);
    } else {
      BareAnswerIs(s, c, v, n);
      FinishIs(s, c, v, 1, n);
    }
  }

  lemma ResultsAre<Key(!new)>(s: Suite<Key>, c: Config, v: Config)
    requires Proper(s)
    ensures
      var a, b := ClientResult(s, c, v), ServerResult(s, c, v);
      (a.ret == 1 ==> a.session == Some(Established(s, c, v)) && a.sent == ClientOut(s, c, v)) &&
      (b.ret == 1 ==> b.session == Some(Established(s, c, v)))
  {
    EndIs(s, c, v);
    MessageContent(1, CLIENT_HELLO, s.clientHello(c.random, s.public(c.ecdhe)));
  }

  /** Every run: whoever returns 1 has the session that the messages spell, and the records on the wire
      are these messages, the hellos in the clear and the others sealed in order under the keys of their sender. */
  lemma RunsAre<Key(!new)>(s: Suite<Key>, c: Config, v: Config, toClient: bytes, toServer: bytes)
    requires Proper(s) && Signs(s, c) && Signs(s, v)
    requires toServer == Connect(s, c, toClient).sent && toClient == Accept(s, v, toServer).sent
    ensures
      var a, b := Connect(s, c, toClient), Accept(s, v, toServer);
      (a.ret == 1 ==> a.session == Some(Established(s, c, v)) && toServer == ClientOut(s, c, v)) &&
      (b.ret == 1 ==> b.session == Some(Established(s, c, v))) &&
      (Sendable(s.isCert, v.certs) ==> toClient == ServerOut(s, c, v))
  {
    RunIs(s, c, v, toClient, toServer);
    ResultsAre(s, c, v);
    MiddleIs(s, c, v);
  }
}
