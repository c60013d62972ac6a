/** tls13_do_connect and tls13_do_accept as functions of the bytes each side reads, and what holds
    of every run in which each side reads what the other one wrote. */
module Tls13Lockstep {
  import opened Wrappers
  import opened Octets
  import opened Tls13Record
  import opened Tls13Messages
  import opened Tls13Handshake

  /** Return value, everything written to the socket, and the session when the value is 1. */
  datatype Outcome<Key> = Outcome(ret: int, sent: bytes, session: Option<Session<Key>>)

  // ------------------------------------------------------------ the client

  function ClientHelloRecord<Key>(s: Suite<Key>, c: Config): bytes {
    HandshakeRecord(1, CLIENT_HELLO, s.clientHello(c.random, s.public(c.ecdhe)))
  }

  /** ServerHello: the shared point gives the handshake keys. */
  function TakeServerHello<Key(!new)>(s: Suite<Key>, c: Config, hello: bytes, stream: bytes): (r: Option<Taken<Key>>)
    requires Proper(s) && |hello| >= 5
    ensures r.Some? ==> r.value.x.Valid()
  {
    var got :- Receive(stream);
    ReceivedFramed(stream);
    var m :- GetHandshake(got.0);
    if m.0 != SERVER_HELLO then None
    else
      var point :- s.serverPoint(m.1);
      var transcript := Content(hello) + Content(got.0);
      BeginValid(s, s.ecdh(c.ecdhe, point), transcript);
      Some(Taken(Begin(s, s.ecdh(c.ecdhe, point), transcript), got.1))
  }

  /** Certificate and CertificateVerify, the record of the first being opened. */
  function TakeSigned<Key>(s: Suite<Key>, x: Session<Key>, fromServer: bool, ca: seq<bytes>, record: bytes, rest: bytes):
    (r: Option<Taken<Key>>)
    requires x.Valid() && Sized(record)
    ensures r.Some? ==> r.value.x.Valid()
  {
    var t :- TakeCertificate(s, x, fromServer, record, ca);
    TakeVerify(s, t.0, fromServer, t.1, rest)
  }

  /** The protected flight of the server: the session after its Finished, and whether it asked for a certificate. */
  function ReadFlight<Key>(s: Suite<Key>, c: Config, x: Session<Key>, stream: bytes): (r: Option<(Session<Key>, bool)>)
    requires x.Valid()
    ensures r.Some? ==> r.value.0.Valid()
  {
    var e :- TakeExtensions(s, x, stream);
    var v :- TakeSigned(s, e.x, true, c.ca, e.record, e.rest);
    var f :- TakeFinished(s, v.x, true, v.rest);
    Some((f.x, e.requested))
  }

  function ClientReads<Key(!new)>(s: Suite<Key>, c: Config, stream: bytes): (r: Option<(Session<Key>, bool)>)
    requires Proper(s)
    ensures r.Some? ==> r.value.0.Valid()
  {
    var t :- TakeServerHello(s, c, ClientHelloRecord(s, c), stream);
    ReadFlight(s, c, t.x, t.rest)
  }

  function SendSigned<Key>(s: Suite<Key>, x: Session<Key>, server: bool, c: Config, k: nat): (r: Sent<Key>)
    requires x.Valid()
    ensures r.x.Valid()
  {
    var a := SendCertificate(s, x, server, c, k);
    Then(a, SendVerify(s, a.x, server, c, k + 1))
  }

  /** Whether the client sends a certificate at all. */
  predicate Answers(c: Config, requested: bool) { requested && c.certs != [] }

  function ClientWrites<Key>(s: Suite<Key>, c: Config, y: Session<Key>, requested: bool): (r: Sent<Key>)
    requires y.Valid()
    ensures r.x.Valid()
  {
    if Answers(c, requested) then
      var a := SendSigned(s, y, false, c, 0);
      Then(a, SendFinished(s, a.x, false, c, 2))
    else SendFinished(s, y, false, c, 2)
  }

  function Connect<Key(!new)>(s: Suite<Key>, c: Config, stream: bytes): Outcome<Key>
    requires Proper(s)
  {
    var hello := ClientHelloRecord(s, c);
    match ClientReads(s, c, stream)
    case None => Outcome(-1, hello, None)
    case Some((y, requested)) =>
      if Answers(c, requested) && !Sendable(s.isCert, c.certs) then Outcome(-1, hello, None)
      else
        var z := ClientWrites(s, c, y, requested);
        Outcome(1, hello + z.out, Some(Finish(s, z.x, y.transcript)))
  }

  // ------------------------------------------------------------ the server

  function ServerHelloRecord<Key>(s: Suite<Key>, c: Config): bytes {
    HandshakeRecord(3, SERVER_HELLO, s.serverHello(c.random, s.public(c.ecdhe)))
  }

  function TakeClientHello<Key(!new)>(s: Suite<Key>, c: Config, hello: bytes, stream: bytes): (r: Option<Taken<Key>>)
    requires Proper(s) && |hello| >= 5
    ensures r.Some? ==> r.value.x.Valid()
  {
    var got :- Receive(stream);
    ReceivedFramed(stream);
    var m :- GetHandshake(got.0);
    if m.0 != CLIENT_HELLO then None
    else
      var point :- s.clientPoint(m.1);
      var transcript := Content(got.0) + Content(hello);
      BeginValid(s, s.ecdh(c.ecdhe, point), transcript);
      Some(Taken(Begin(s, s.ecdh(c.ecdhe, point), transcript), got.1))
  }

  /** What the server writes behind its hello, if it has certificates it can send. */
  function ServerWrites<Key>(s: Suite<Key>, c: Config, x: Session<Key>): (r: Sent<Key>)
    requires x.Valid()
    ensures r.x.Valid()
  {
    var e := SendExtensions(s, x, c);
    var a := SendSigned(s, e.x, true, c, 2);
    Then(e, Then(a, SendFinished(s, a.x, true, c, 4)))
  }

  /** The answer of the client: signed if the server has authorities, and never otherwise. */
  function ServerReads<Key>(s: Suite<Key>, c: Config, y: Session<Key>, stream: bytes): (r: Option<Taken<Key>>)
    requires y.Valid()
    ensures r.Some? ==> r.value.x.Valid()
  {
    if c.ca != [] then
      var got :- Open(s, y, false, stream);
      var v :- TakeSigned(s, y, false, c.ca, got.0, got.1);
      TakeFinished(s, v.x, false, v.rest)
    else TakeFinished(s, y, false, stream)
  }

  /** All bytes of the server: it stops after the extensions when it has no certificate to send. */
  function ServerSays<Key>(s: Suite<Key>, c: Config, x: Session<Key>): bytes
    requires x.Valid()
  {
    ServerHelloRecord(s, c) + if Sendable(s.isCert, c.certs) then ServerWrites(s, c, x).out else SendExtensions(s, x, c).out
  }

  function Accept<Key(!new)>(s: Suite<Key>, c: Config, stream: bytes): Outcome<Key>
    requires Proper(s)
  {
    var hello := ServerHelloRecord(s, c);
    match TakeClientHello(s, c, hello, stream)
    case None => Outcome(-1, [], None)
    case Some(t) =>
      var sent := ServerSays(s, c, t.x);
      if !Sendable(s.isCert, c.certs) then Outcome(-1, sent, None)
      else
        var y := ServerWrites(s, c, t.x).x;
        match ServerReads(s, c, y, t.rest)
        case None => Outcome(-1, sent, None)
        case Some(z) => Outcome(1, sent, Some(Finish(s, z.x, y.transcript)))
  }

  // ------------------------------------------------------------ lockstep, flight by flight

  /** The session both sides have after the hello messages. */
  function Shared<Key>(s: Suite<Key>, c: Config, v: Config): Session<Key> {
    Begin(s, s.ecdh(c.ecdhe, s.public(v.ecdhe)), Content(ClientHelloRecord(s, c)) + Content(ServerHelloRecord(s, v)))
  }

  lemma HellosTaken<Key(!new)>(s: Suite<Key>, c: Config, v: Config, rest: bytes)
    requires Proper(s)
    ensures Shared(s, c, v).Valid()
    ensures TakeServerHello(s, c, ClientHelloRecord(s, c), ServerHelloRecord(s, v) + rest) == Some(Taken(Shared(s, c, v), rest))
    ensures TakeClientHello(s, v, ServerHelloRecord(s, v), ClientHelloRecord(s, c) + rest) == Some(Taken(Shared(s, c, v), rest))
  {
    assert HelloAt(s, c.random, c.ecdhe) && HelloAt(s, v.random, v.ecdhe) && AgreeAt(s, c.ecdhe, v.ecdhe);
    GetSetHandshake(1, CLIENT_HELLO, s.clientHello(c.random, s.public(c.ecdhe)));
    GetSetHandshake(3, SERVER_HELLO, s.serverHello(v.random, s.public(v.ecdhe)));
    ReceiveSent(ClientHelloRecord(s, c), rest);
    ReceiveSent(ServerHelloRecord(s, v), rest);
    BeginValid(s, s.ecdh(c.ecdhe, s.public(v.ecdhe)), Content(ClientHelloRecord(s, c)) + Content(ServerHelloRecord(s, v)));
  }

  /** Certificate and CertificateVerify are taken exactly when the chain is trusted. */
  lemma SignedTaken<Key(!new)>(s: Suite<Key>, x: Session<Key>, server: bool, c: Config, ca: seq<bytes>, k: nat, rest: bytes)
    requires Proper(s) && Signs(s, c) && x.Valid() && Sendable(s.isCert, c.certs)
    ensures var sent := SendSigned(s, x, server, c, k);
      match Open(s, x, server, sent.out + rest)
      case Some((record, more)) => Sized(record) && TakeSigned(s, x, server, ca, record, more) ==
          (if s.trusted(server, ca, c.certs) then Some(Taken(sent.x, rest)) else None)
      case None => false
  {
    var a := SendCertificate(s, x, server, c, k);
    var b := SendVerify(s, a.x, server, c, k + 1);
    CertificateTaken(s, x, server, c, ca, k, b.out + rest);
    VerifyTaken(s, a.x, server, c, k + 1, rest);
    Assoc(a.out, b.out, rest);
  }

  /** The session of the server after Certificate, CertificateVerify and Finished. */
  lemma SignedFinishedTaken<Key(!new)>(s: Suite<Key>, x: Session<Key>, c: Config, ca: seq<bytes>)
    requires Proper(s) && Signs(s, c) && x.Valid() && Sendable(s.isCert, c.certs)
    ensures var a := SendSigned(s, x, true, c, 2);
      var f := SendFinished(s, a.x, true, c, 4);
      var b := SendVerify(s, SendCertificate(s, x, true, c, 2).x, true, c, 3);
      Sized(CertificateRecord(c.certs)) &&
      TakeSigned(s, x, true, ca, CertificateRecord(c.certs), b.out + f.out) ==
        (if s.trusted(true, ca, c.certs) then Some(Taken(a.x, f.out)) else None) &&
      TakeFinished(s, a.x, true, f.out) == Some(Taken(f.x, []))
  {
    var a := SendCertificate(s, x, true, c, 2);
    var b := SendVerify(s, a.x, true, c, 3);
    var f := SendFinished(s, b.x, true, c, 4);
    CertificateTaken(s, x, true, c, ca, 2, b.out + f.out);
    VerifyTaken(s, a.x, true, c, 3, f.out);
    FinishedTaken(s, b.x, true, c, 4, []);
    assert f.out + [] == f.out;
  }

  lemma CertificateIsHandshake<Key>(s: Suite<Key>, c: Config)
    requires Sendable(s.isCert, c.certs)
    ensures var r := CertificateRecord(c.certs);
      Handshake(r) && GetHandshake(r).Some? && GetHandshake(r).value.0 != CERTIFICATE_REQUEST
  {
    GetSetHandshake(3, CERTIFICATE, CertificateBody(c.certs));
  }

  /** The client reads the whole flight of the server exactly when it trusts the chain, and then has
      the session of the server. */
  lemma ServerFlightTaken<Key(!new)>(s: Suite<Key>, c: Config, v: Config, x: Session<Key>)
    requires Proper(s) && Signs(s, v) && Sendable(s.isCert, v.certs) && x.Valid()
    ensures var y := ServerWrites(s, v, x);
      ReadFlight(s, c, x, y.out) == if s.trusted(true, c.ca, v.certs) then Some((y.x, v.ca != [])) else None
  {
    var e := SendExtensions(s, x, v);
    var a := SendCertificate(s, e.x, true, v, 2);
    var b := SendVerify(s, a.x, true, v, 3);
    var f := SendFinished(s, b.x, true, v, 4);
    Assoc(a.out, b.out, f.out);
    CertificateIsHandshake(s, v);
    ExtensionsTaken(s, x, v, CertificateRecord(v.certs), v.padding(2), b.out + f.out);
    SignedFinishedTaken(s, e.x, v, c.ca);
  }

  /** The server reads the flight of the client exactly when a requested certificate is there and trusted. */
  lemma ClientFlightTaken<Key(!new)>(s: Suite<Key>, c: Config, v: Config, y: Session<Key>)
    requires Proper(s) && Signs(s, c) && y.Valid()
    requires Answers(c, v.ca != []) ==> Sendable(s.isCert, c.certs)
    ensures var z := ClientWrites(s, c, y, v.ca != []);
      ServerReads(s, v, y, z.out) ==
        if v.ca != [] && (c.certs == [] || !s.trusted(false, v.ca, c.certs)) then None else Some(Taken(z.x, []))
  {
    if Answers(c, v.ca != []) {
      var a := SendSigned(s, y, false, c, 0);
      var f := SendFinished(s, a.x, false, c, 2);
      SignedTaken(s, y, false, c, v.ca, 0, f.out);
      FinishedTaken(s, a.x, false, c, 2, []);
      assert f.out + [] == f.out;
    } else {
      var f := SendFinished(s, y, false, c, 2);
      FinishedTaken(s, y, false, c, 2, []);
      assert f.out + [] == f.out;
      if v.ca != [] { FinishedNotCertificate(s, c, v, y); }
    }
  }

  /** A Finished where a Certificate is expected is refused: a client without certificate cannot
      answer a request. */
  lemma FinishedNotCertificate<Key(!new)>(s: Suite<Key>, c: Config, v: Config, y: Session<Key>)
    requires Proper(s) && y.Valid() && v.ca != []
    ensures ServerReads(s, v, y, SendFinished(s, y, false, c, 2).out) == None
  {
    var r := FinishedRecord(s, y, false);
    DataSize(s, y, false);
    GetSetHandshake(3, FINISHED, FinishedData(s, y, false));
    Delivered(s, y, false, r, c.padding(2), []);
    var out := SendFinished(s, y, false, c, 2).out;
    assert out + [] == out;
  }

  // ------------------------------------------------------------ every run

  /** The client is content with the server and able to answer. */
  predicate ClientSucceeds<Key>(s: Suite<Key>, c: Config, v: Config) {
    Sendable(s.isCert, v.certs) && s.trusted(true, c.ca, v.certs) &&
    (Answers(c, v.ca != []) ==> Sendable(s.isCert, c.certs))
  }

  /** And the server gets the certificate it asks for. */
  predicate BothSucceed<Key>(s: Suite<Key>, c: Config, v: Config) {
    ClientSucceeds(s, c, v) && (v.ca != [] ==> c.certs != [] && s.trusted(false, v.ca, c.certs))
  }

  /** When each side reads what the other wrote, with any random values and paddings: each side
      returns 1 exactly under a condition on the two configurations, and when both do they hold the
      same session, with both sequence numbers zero. The client may return 1 where the server does not. */
  lemma Lockstep<Key(!new)>(s: Suite<Key>, c: Config, v: Config, toClient: bytes, toServer: bytes)
    requires Proper(s) && Signs(s, c) && Signs(s, v)
    requires toServer == Connect(s, c, toClient).sent && toClient == Accept(s, v, toServer).sent
    ensures var a, b := Connect(s, c, toClient), Accept(s, v, toServer);
      (a.ret == 1 <==> ClientSucceeds(s, c, v)) && (b.ret == 1 <==> BothSucceed(s, c, v)) &&
      (b.ret == 1 ==> a.session == b.session && a.session.Some? &&
                      a.session.value.client.seqNum == a.session.value.server.seqNum == Zeros(8))
  {
    RunIs(s, c, v, toClient, toServer);
    SameEnd(s, c, v);
  }

  /** What each side sends and has in such a run does not depend on anything but the configurations. */
  lemma RunIs<Key(!new)>(s: Suite<Key>, c: Config, v: Config, toClient: bytes, toServer: bytes)
    requires Proper(s) && Signs(s, c) && Signs(s, v)
    requires toServer == Connect(s, c, toClient).sent && toClient == Accept(s, v, toServer).sent
    ensures Connect(s, c, toClient) == ClientResult(s, c, v) && Accept(s, v, toServer) == ServerResult(s, c, v)
  {
    ClientStarts(s, c, toClient);
    ServerSpeaks(s, c, v, toServer[|ClientHelloRecord(s, c)|..]);
    ClientOutcome(s, c, v);
    ResultSent(s, c, v);
    ServerOutcome(s, c, v);
  }

  /** The client sends its hello whatever it reads. */
  lemma ClientStarts<Key(!new)>(s: Suite<Key>, c: Config, stream: bytes)
    requires Proper(s)
    ensures var sent, hello := Connect(s, c, stream).sent, ClientHelloRecord(s, c);
      |hello| <= |sent| && sent == hello + sent[|hello|..]
  {
  }

  /** After a hello, what the server sends does not depend on what follows. */
  lemma ServerSpeaks<Key(!new)>(s: Suite<Key>, c: Config, v: Config, rest: bytes)
    requires Proper(s)
    ensures Accept(s, v, ClientHelloRecord(s, c) + rest).sent == FromServer(s, c, v)
  {
    HellosTaken(s, c, v, rest);
  }

  lemma SameEnd<Key(!new)>(s: Suite<Key>, c: Config, v: Config)
    requires Proper(s)
    ensures var a, b := ClientResult(s, c, v), ServerResult(s, c, v);
      (a.ret == 1 <==> ClientSucceeds(s, c, v)) && (b.ret == 1 <==> BothSucceed(s, c, v)) &&
      (b.ret == 1 ==> a.session == b.session && a.session.Some? &&
                      a.session.value.client.seqNum == a.session.value.server.seqNum == Zeros(8))
  {
  }

  /** Every byte of the server in such a run. */
  function FromServer<Key(!new)>(s: Suite<Key>, c: Config, v: Config): bytes
    requires Proper(s)
  {
    HellosTaken(s, c, v, []);
    ServerSays(s, v, Shared(s, c, v))
  }

  /** The session of both sides after the Finished of the server. */
  function Middle<Key(!new)>(s: Suite<Key>, c: Config, v: Config): (y: Session<Key>)
    requires Proper(s)
    ensures y.Valid()
  {
    HellosTaken(s, c, v, []);
    ServerWrites(s, v, Shared(s, c, v)).x
  }

  /** What the client sends behind its hello. */
  function FromClient<Key(!new)>(s: Suite<Key>, c: Config, v: Config): bytes
    requires Proper(s)
  {
    if ClientSucceeds(s, c, v) then ClientWrites(s, c, Middle(s, c, v), v.ca != []).out else []
  }

  lemma ClientHears<Key(!new)>(s: Suite<Key>, c: Config, v: Config)
    requires Proper(s) && Signs(s, v)
    ensures ClientReads(s, c, FromServer(s, c, v)) ==
      if Sendable(s.isCert, v.certs) && s.trusted(true, c.ca, v.certs) then Some((Middle(s, c, v), v.ca != [])) else None
  {
    HellosTaken(s, c, v, []);
    var x := Shared(s, c, v);
    if Sendable(s.isCert, v.certs) {
      HellosTaken(s, c, v, ServerWrites(s, v, x).out);
      ServerFlightTaken(s, c, v, x);
    } else {
      HellosTaken(s, c, v, SendExtensions(s, x, v).out);
      NoThirdRecord(s, c, x, v);
    }
  }

  lemma ClientOutcome<Key(!new)>(s: Suite<Key>, c: Config, v: Config)
    requires Proper(s) && Signs(s, v)
    ensures Connect(s, c, FromServer(s, c, v)) == ClientResult(s, c, v)
  {
    ClientHears(s, c, v);
  }

  function ClientResult<Key(!new)>(s: Suite<Key>, c: Config, v: Config): Outcome<Key>
    requires Proper(s)
  {
    var hello, y := ClientHelloRecord(s, c), Middle(s, c, v);
    if ClientSucceeds(s, c, v) then
      var z := ClientWrites(s, c, y, v.ca != []);
      Outcome(1, hello + z.out, Some(Finish(s, z.x, y.transcript)))
    else Outcome(-1, hello, None)
  }

  function ServerResult<Key(!new)>(s: Suite<Key>, c: Config, v: Config): Outcome<Key>
    requires Proper(s)
  {
    var y := Middle(s, c, v);
    if BothSucceed(s, c, v) then
      Outcome(1, FromServer(s, c, v), Some(Finish(s, ClientWrites(s, c, y, v.ca != []).x, y.transcript)))
    else Outcome(-1, FromServer(s, c, v), None)
  }

  lemma ServerOutcome<Key(!new)>(s: Suite<Key>, c: Config, v: Config)
    requires Proper(s) && Signs(s, c)
    ensures Accept(s, v, ClientHelloRecord(s, c) + FromClient(s, c, v)) == ServerResult(s, c, v)
  {
    HellosTaken(s, c, v, FromClient(s, c, v));
    var y := Middle(s, c, v);
    if ClientSucceeds(s, c, v) {
      ClientFlightTaken(s, c, v, y);
    } else {
      NothingToRead(s, v, y);
    }
  }

  /** Such runs exist, for all configurations. */
  lemma RunExists<Key(!new)>(s: Suite<Key>, c: Config, v: Config) returns (toClient: bytes, toServer: bytes)
    requires Proper(s) && Signs(s, c) && Signs(s, v)
    ensures toServer == Connect(s, c, toClient).sent && toClient == Accept(s, v, toServer).sent
  {
    toClient, toServer := FromServer(s, c, v), ClientHelloRecord(s, c) + FromClient(s, c, v);
    ClientOutcome(s, c, v);
    ServerSpeaks(s, c, v, FromClient(s, c, v));
    ResultSent(s, c, v);
  }

  lemma ResultSent<Key(!new)>(s: Suite<Key>, c: Config, v: Config)
    requires Proper(s)
    ensures ClientResult(s, c, v).sent == ClientHelloRecord(s, c) + FromClient(s, c, v)
  {
    assert ClientHelloRecord(s, c) + [] == ClientHelloRecord(s, c);
  }

  lemma NothingToRead<Key(!new)>(s: Suite<Key>, v: Config, y: Session<Key>)
    requires Proper(s) && y.Valid()
    ensures ServerReads(s, v, y, []) == None
  {
    assert Open(s, y, false, []) == None;
  }

  /** A server that cannot send a certificate stops after the extensions; so does the client. */
  lemma NoThirdRecord<Key(!new)>(s: Suite<Key>, c: Config, x: Session<Key>, v: Config)
    requires Proper(s) && x.Valid()
    ensures ReadFlight(s, c, x, SendExtensions(s, x, v).out) == None
  {
    var ee, cr := EncryptedExtensionsRecord(), RequestRecord();
    EncryptedExtensionsRead();
    GetSetHandshake(3, ENCRYPTED_EXTENSIONS, EE_BODY);
    var x1 := x.Advance(true, ee);
    var first := SendBytes(s, x, true, ee, v.padding(0));
    if v.ca != [] {
      CertificateRequestRead();
      GetSetHandshake(3, CERTIFICATE_REQUEST, CR_BODY);
      var second := SendBytes(s, x1, true, cr, v.padding(1));
      Delivered(s, x, true, ee, v.padding(0), second);
      Delivered(s, x1, true, cr, v.padding(1), []);
      assert second + [] == second;
      assert Open(s, x1.Advance(true, cr), true, []) == None;
    } else {
      Delivered(s, x, true, ee, v.padding(0), []);
      assert first + [] == first;
      assert Open(s, x1, true, []) == None;
    }
  }
}
