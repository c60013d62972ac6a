/** TLS_CONNECT for TLS 1.3: the methods that run the handshake and carry data, statement by
    statement, against the functions of Tls13Lockstep and Tls13Data. */
module Tls13Connection {
  import opened Wrappers
  import opened Octets
  import opened Tls13Record
  import opened Tls13Messages
  import opened Tls13Handshake
  import opened Tls13Lockstep
  import Tls13Data

  /** The socket is a pair of byte streams. The digest context and the secrets are local to
      tls13_do_connect and tls13_do_accept; they are fields so that each flight is a method. */
  class Connection<Key(!new)> {
    const s: Suite<Key>
    const c: Config
    var clientWrite: Half<Key>
    var serverWrite: Half<Key>
    var dgst: bytes
    var clientSecret: bytes
    var serverSecret: bytes
    var master: bytes
    var incoming: bytes
    var outgoing: bytes
    var data: bytes

    constructor (s: Suite<Key>, c: Config, incoming: bytes)
      requires Proper(s)
      ensures Valid() && this.s == s && this.c == c && this.incoming == incoming && outgoing == data == []
    {
      this.s, this.c, this.incoming := s, c, incoming;
      clientWrite, serverWrite := Half(s.setKey([]), Zeros(12), Zeros(8)), Half(s.setKey([]), Zeros(12), Zeros(8));
      dgst, clientSecret, serverSecret, master, outgoing, data := [], [], [], [], [], [];
    }

    ghost predicate Valid()
      reads this
    {
      Proper(s) && clientWrite.Valid() && serverWrite.Valid()
    }

    function X(): Session<Key>
      reads this
    {
      Session(clientWrite, serverWrite, dgst, clientSecret, serverSecret, master)
    }

    function HalfOf(server: bool): (h: Half<Key>)
      reads this
      ensures h == X().Of(server)
    {
      if server then serverWrite else clientWrite
    }

    // ---------------------------------------------------------- one record

    /** digest_update and tls_seq_num_incr. */
    method Update(server: bool, record: bytes)
      requires Valid() && |record| >= 5
      modifies this`clientWrite, this`serverWrite, this`dgst
      ensures Valid() && X() == old(X()).Advance(server, record)
    {
      dgst := dgst + record[5..];
      var h := HalfOf(server);
      var seqNum := new byte[8];
      forall i | 0 <= i < 8 { seqNum[i] := h.seqNum[i]; }
      assert seqNum[..] == h.seqNum;
      SeqNumIncr(seqNum);
      if server {
        serverWrite := serverWrite.(seqNum := seqNum[..]);
      } else {
        clientWrite := clientWrite.(seqNum := seqNum[..]);
      }
    }

    /** tls13_padding_len_rand, tls13_record_encrypt and tls_record_send. */
    method Send(server: bool, record: bytes, k: nat)
      requires Valid() && |record| >= 5
      modifies this`clientWrite, this`serverWrite, this`dgst, this`outgoing
      ensures Valid()
      ensures X() == SendOne(s, old(X()), server, record, c.padding(k)).x
      ensures outgoing == old(outgoing) + SendOne(s, old(X()), server, record, c.padding(k)).out
    {
      var paddingLen := c.padding(k) % 128;
      var enced := GcmEncrypt(s.prot, HalfOf(server), record[0], record[5..], paddingLen);
      enced := [23, 3, 3, |enced| / 256 % 256, |enced| % 256] + enced;
      outgoing := outgoing + enced;
      Update(server, record);
    }

    /** tls_record_recv. */
    method ReceiveRecord() returns (ret: int, record: bytes)
      modifies this`incoming
      ensures Receive(old(incoming)) == if ret == 1 then Some((record, incoming)) else None
      ensures ret == 1 ==> Sized(record)
    {
      ReceivedFramed(incoming);
      record := [];
      if |incoming| < 5 || !Named(incoming[0]) || !Protocol(incoming[1], incoming[2]) {
        return -1, [];
      }
      var size := 5 + U16(incoming[3], incoming[4]);
      if size > MAX_RECORD_SIZE || size > |incoming| {
        return -1, [];
      }
      ret, record, incoming := 1, incoming[..size], incoming[size..];
    }

    /** tls_record_recv and tls13_record_decrypt. */
    method ReceiveProtected(server: bool) returns (ret: int, record: bytes)
      requires Valid()
      modifies this`incoming
      ensures Open(s, X(), server, old(incoming)) == if ret == 1 then Some((record, incoming)) else None
      ensures ret == 1 ==> Sized(record)
    {
      var enced, recordType, content;
      ret, enced := ReceiveRecord();
      if ret != 1 {
        return -1, [];
      }
      ret, recordType, content := GcmDecrypt(s.prot, HalfOf(server), enced[5..]);
      if ret != 1 {
        return -1, [];
      }
      record := [recordType, 3, 3, |content| / 256 % 256, |content| % 256] + content;
      assert Content(enced) == enced[5..] && record == Header(recordType, |content|) + content;
      if |record| != 5 + U16(record[3], record[4]) {
        return -1, [];
      }
      ret := 1;
    }

    // ---------------------------------------------------------- flights

    /** sm2_do_ecdh and the secrets and keys of the handshake. */
    method GenerateHandshakeKeys(shared: bytes)
      requires Valid()
      modifies this`clientSecret, this`serverSecret, this`master, this`clientWrite, this`serverWrite
      ensures Valid() && X() == Begin(s, shared, dgst)
    {
      BeginValid(s, shared, dgst);
      var earlySecret := s.extract(Zeros(32), Zeros(32));
      var handshakeSecret := Derive(s, earlySecret, "derived", []);
      handshakeSecret := s.extract(handshakeSecret, shared);
      clientSecret := Derive(s, handshakeSecret, "c hs traffic", dgst);
      serverSecret := Derive(s, handshakeSecret, "s hs traffic", dgst);
      master := Derive(s, handshakeSecret, "derived", []);
      master := s.extract(master, Zeros(32));
      serverWrite := HalfFrom(s, serverSecret);
      clientWrite := HalfFrom(s, clientSecret);
    }

    /** Application keys, and sequence numbers back to zero. */
    method UpdateKeys(clientApplicationSecret: bytes, serverApplicationSecret: bytes)
      requires Valid()
      modifies this`clientWrite, this`serverWrite
      ensures Valid() && X() == old(X()).(client := HalfFrom(s, clientApplicationSecret), server := HalfFrom(s, serverApplicationSecret))
    {
      HalfValid(s, serverApplicationSecret);
      HalfValid(s, clientApplicationSecret);
      serverWrite := HalfFrom(s, serverApplicationSecret);
      clientWrite := HalfFrom(s, clientApplicationSecret);
    }

    /** Certificate, already opened, and CertificateVerify. */
    method ReceiveSigned(server: bool, certRecord: bytes) returns (ret: int)
      requires Valid() && Sized(certRecord)
      modifies this`incoming, this`clientWrite, this`serverWrite, this`dgst
      ensures Valid()
      ensures TakeSigned(s, old(X()), server, c.ca, certRecord, old(incoming)) == if ret == 1 then Some(Taken(X(), incoming)) else None
    {
      var certs := GetCertificate(s.isCert, certRecord);
      if certs == None || certs.value == [] || !s.trusted(server, c.ca, certs.value) {
        return -1;
      }
      Update(server, certRecord);
      var record;
      ret, record := ReceiveProtected(server);
      if ret != 1 {
        return -1;
      }
      var v := GetVerify(record);
      if v == None || (server && v.value.0 != SM2SIG_SM3) ||
         !s.verify(certs.value[0], ToSign(s, server, dgst), v.value.1) {
        return -1;
      }
      Update(server, record);
      ret := 1;
    }

    /** The Finished of the other side, compared with what it should be. */
    method ReceiveFinished(server: bool) returns (ret: int)
      requires Valid()
      modifies this`incoming, this`clientWrite, this`serverWrite, this`dgst
      ensures Valid()
      ensures TakeFinished(s, old(X()), server, old(incoming)) == if ret == 1 then Some(Taken(X(), incoming)) else None
    {
      var verifyData := VerifyData(s, if server then serverSecret else clientSecret, dgst);
      var record;
      ret, record := ReceiveProtected(server);
      if ret != 1 {
        return -1;
      }
      var got := GetFinished(record);
      if got == None || got.value != verifyData {
        return -1;
      }
      Update(server, record);
      ret := 1;
    }

    method SendCertificateAndVerify(server: bool, k: nat)
      requires Valid()
      modifies this`clientWrite, this`serverWrite, this`dgst, this`outgoing
      ensures Valid() && X() == SendSigned(s, old(X()), server, c, k).x
      ensures outgoing == old(outgoing) + SendSigned(s, old(X()), server, c, k).out
    {
      ghost var start, x := outgoing, X();
      Send(server, HandshakeRecord(3, CERTIFICATE, CertificateBody(c.certs)), k);
      ghost var first := SendCertificate(s, x, server, c, k);
      var sig := c.sign(ToSign(s, server, dgst));
      Send(server, HandshakeRecord(3, CERTIFICATE_VERIFY, VerifyBody(sig)), k + 1);
      Assoc(start, first.out, SendVerify(s, first.x, server, c, k + 1).out);
    }

    method SendFinishedRecord(server: bool, k: nat)
      requires Valid()
      modifies this`clientWrite, this`serverWrite, this`dgst, this`outgoing
      ensures Valid() && X() == SendFinished(s, old(X()), server, c, k).x
      ensures outgoing == old(outgoing) + SendFinished(s, old(X()), server, c, k).out
    {
      var verifyData := VerifyData(s, if server then serverSecret else clientSecret, dgst);
      Send(server, HandshakeRecord(3, FINISHED, verifyData), k);
    }

    /** The client: ServerHello and the handshake keys. */
    method ReceiveServerHello(hello: bytes) returns (ret: int)
      requires Valid() && |hello| >= 5
      modifies this`incoming, this`dgst, this`clientSecret, this`serverSecret, this`master, this`clientWrite, this`serverWrite
      ensures Valid()
      ensures TakeServerHello(s, c, hello, old(incoming)) == if ret == 1 then Some(Taken(X(), incoming)) else None
    {
      ReceivedFramed(incoming);
      var record;
      ret, record := ReceiveRecord();
      if ret != 1 {
        return -1;
      }
      var m := GetHandshake(record);
      if m == None || m.value.0 != SERVER_HELLO {
        return -1;
      }
      var point := s.serverPoint(m.value.1);
      if point == None {
        return -1;
      }
      dgst := hello[5..];
      dgst := dgst + record[5..];
      GenerateHandshakeKeys(s.ecdh(c.ecdhe, point.value));
      ret := 1;
    }

    /** The client: EncryptedExtensions, an optional CertificateRequest, and the record behind them. */
    method ReceiveExtensions() returns (ret: int, requested: bool, record: bytes)
      requires Valid()
      modifies this`incoming, this`dgst, this`clientWrite, this`serverWrite
      ensures Valid() && (ret == 1 ==> Sized(record))
      ensures TakeExtensions(s, old(X()), old(incoming)) ==
        if ret == 1 then Some(Extensions(X(), requested, record, incoming)) else None
    {
      requested := false;
      ret, record := ReceiveProtected(true);
      if ret != 1 || !IsEncryptedExtensions(record) {
        return -1, false, [];
      }
      Update(true, record);
      ret, record := ReceiveProtected(true);
      if ret != 1 {
        return -1, false, [];
      }
      var m := GetHandshake(record);
      if m == None {
        return -1, false, [];
      }
      if m.value.0 == CERTIFICATE_REQUEST {
        if !IsCertificateRequest(m.value.1) {
          return -1, false, [];
        }
        requested := true;
        Update(true, record);
        ret, record := ReceiveProtected(true);
        if ret != 1 {
          return -1, false, [];
        }
      }
      ret := 1;
    }

    /** The client: everything up to the Finished of the server. */
    method ReceiveServerFlight(hello: bytes) returns (ret: int, requested: bool)
      requires Valid() && hello == ClientHelloRecord(s, c)
      modifies this`incoming, this`dgst, this`clientSecret, this`serverSecret, this`master, this`clientWrite, this`serverWrite
      ensures Valid()
      ensures ClientReads(s, c, old(incoming)) == if ret == 1 then Some((X(), requested)) else None
    {
      requested := false;
      ret := ReceiveServerHello(hello);
      if ret != 1 {
        return -1, false;
      }
      var record;
      ret, requested, record := ReceiveExtensions();
      if ret != 1 {
        return -1, false;
      }
      ret := ReceiveSigned(true, record);
      if ret != 1 {
        return -1, false;
      }
      ret := ReceiveFinished(true);
      if ret != 1 {
        return -1, false;
      }
    }

    /** The client: Certificate and CertificateVerify if asked for and there, then Finished. */
    method SendClientFlight(requested: bool) returns (ret: int)
      requires Valid()
      modifies this`clientWrite, this`serverWrite, this`dgst, this`outgoing
      ensures Valid() && ret == if Answers(c, requested) && !Sendable(s.isCert, c.certs) then -1 else 1
      ensures ret == 1 ==> X() == ClientWrites(s, c, old(X()), requested).x &&
                           outgoing == old(outgoing) + ClientWrites(s, c, old(X()), requested).out
      ensures ret == -1 ==> outgoing == old(outgoing)
    {
      ghost var start, y := outgoing, X();
      if requested && c.certs != [] {
        if !Sendable(s.isCert, c.certs) {
          return -1;
        }
        SendCertificateAndVerify(false, 0);
        ghost var a := SendSigned(s, y, false, c, 0);
        Assoc(start, a.out, SendFinished(s, a.x, false, c, 2).out);
      }
      SendFinishedRecord(false, 2);
      ret := 1;
    }

    /** The client: application secrets, its own flight, and then the application keys. */
    method EndConnect(requested: bool) returns (ret: int)
      requires Valid()
      modifies this`clientWrite, this`serverWrite, this`dgst, this`outgoing
      ensures ret == if Answers(c, requested) && !Sendable(s.isCert, c.certs) then -1 else 1
      ensures ret == 1 ==> Valid() && X() == Finish(s, ClientWrites(s, c, old(X()), requested).x, old(dgst)) &&
                           outgoing == old(outgoing) + ClientWrites(s, c, old(X()), requested).out
      ensures ret == -1 ==> outgoing == old(outgoing)
    {
      var serverApplicationSecret := Derive(s, master, "s ap traffic", dgst);
      var clientApplicationSecret := Derive(s, master, "c ap traffic", dgst);
      ret := SendClientFlight(requested);
      if ret == 1 {
        UpdateKeys(clientApplicationSecret, serverApplicationSecret);
      }
    }

    /** tls13_do_connect. */
    method DoConnect() returns (ret: int)
      requires Valid()
      modifies this
      ensures var r := Connect(s, c, old(incoming));
        ret == r.ret && outgoing == old(outgoing) + r.sent && (ret == 1 ==> Valid() && r.session == Some(X()))
    {
      ghost var start := outgoing;
      var hello := HandshakeRecord(1, CLIENT_HELLO, s.clientHello(c.random, s.public(c.ecdhe)));
      outgoing := outgoing + hello;
      var requested;
      ret, requested := ReceiveServerFlight(hello);
      if ret != 1 {
        return -1;
      }
      Assoc(start, hello, ClientWrites(s, c, X(), requested).out);
      ret := EndConnect(requested);
    }

    /** The server: ClientHello in, ServerHello out, and the handshake keys. */
    method ReceiveClientHello() returns (ret: int)
      requires Valid()
      modifies this`incoming, this`outgoing, this`dgst, this`clientSecret, this`serverSecret, this`master, this`clientWrite, this`serverWrite
      ensures Valid()
      ensures TakeClientHello(s, c, ServerHelloRecord(s, c), old(incoming)) == if ret == 1 then Some(Taken(X(), incoming)) else None
      ensures outgoing == old(outgoing) + if ret == 1 then ServerHelloRecord(s, c) else []
    {
      ReceivedFramed(incoming);
      assert outgoing + [] == outgoing;
      var record;
      ret, record := ReceiveRecord();
      if ret != 1 {
        return -1;
      }
      var m := GetHandshake(record);
      if m == None || m.value.0 != CLIENT_HELLO {
        return -1;
      }
      var point := s.clientPoint(m.value.1);
      if point == None {
        return -1;
      }
      dgst := record[5..];
      var hello := HandshakeRecord(3, SERVER_HELLO, s.serverHello(c.random, s.public(c.ecdhe)));
      outgoing := outgoing + hello;
      dgst := dgst + hello[5..];
      GenerateHandshakeKeys(s.ecdh(c.ecdhe, point.value));
      ret := 1;
    }

    /** The server: EncryptedExtensions, and CertificateRequest if it has authorities. */
    method SendServerExtensions()
      requires Valid()
      modifies this`clientWrite, this`serverWrite, this`dgst, this`outgoing
      ensures Valid() && X() == SendExtensions(s, old(X()), c).x
      ensures outgoing == old(outgoing) + SendExtensions(s, old(X()), c).out
    {
      ghost var start, x := outgoing, X();
      Send(true, HandshakeRecord(3, ENCRYPTED_EXTENSIONS, EE_BODY), 0);
      if c.ca != [] {
        ghost var first := SendOne(s, x, true, EncryptedExtensionsRecord(), c.padding(0));
        Assoc(start, first.out, SendOne(s, first.x, true, RequestRecord(), c.padding(1)).out);
        Send(true, HandshakeRecord(3, CERTIFICATE_REQUEST, CR_BODY), 1);
      }
    }

    /** The server: everything behind its hello. */
    method SendServerFlight() returns (ret: int)
      requires Valid()
      modifies this`clientWrite, this`serverWrite, this`dgst, this`outgoing
      ensures Valid() && ret == if Sendable(s.isCert, c.certs) then 1 else -1
      ensures ret == 1 ==> X() == ServerWrites(s, c, old(X())).x
      ensures outgoing == old(outgoing) +
        if ret == 1 then ServerWrites(s, c, old(X())).out else SendExtensions(s, old(X()), c).out
    {
      ghost var start, x := outgoing, X();
      SendServerExtensions();
      if !Sendable(s.isCert, c.certs) {
        return -1;
      }
      ghost var e := SendExtensions(s, x, c);
      SendCertificateAndVerify(true, 2);
      ghost var a := SendSigned(s, e.x, true, c, 2);
      SendFinishedRecord(true, 4);
      ghost var f := SendFinished(s, a.x, true, c, 4);
      Join4(start, e.out, a.out, f.out);
      ret := 1;
    }

    /** The server: the answer of the client. */
    method ReceiveClientFlight() returns (ret: int)
      requires Valid()
      modifies this`incoming, this`clientWrite, this`serverWrite, this`dgst
      ensures Valid()
      ensures ServerReads(s, c, old(X()), old(incoming)) == if ret == 1 then Some(Taken(X(), incoming)) else None
    {
      if c.ca != [] {
        var record;
        ret, record := ReceiveProtected(false);
        if ret != 1 {
          return -1;
        }
        ret := ReceiveSigned(false, record);
        if ret != 1 {
          return -1;
        }
      }
      ret := ReceiveFinished(false);
      if ret != 1 {
        return -1;
      }
    }

    /** The server up to its Finished. */
    method StartAccept() returns (ret: int)
      requires Valid()
      modifies this
      ensures Valid()
      ensures match TakeClientHello(s, c, ServerHelloRecord(s, c), old(incoming))
        case None => ret == -1 && outgoing == old(outgoing) + []
        case Some(t) => outgoing == old(outgoing) + ServerSays(s, c, t.x) && ret == (if Sendable(s.isCert, c.certs) then 1 else -1) &&
                        (ret == 1 ==> X() == ServerWrites(s, c, t.x).x && incoming == t.rest)
    {
      ghost var start := outgoing;
      ret := ReceiveClientHello();
      if ret != 1 {
        return -1;
      }
      ServerSaid(start, X());
      ret := SendServerFlight();
    }

    /** The server: application secrets, the answer of the client, and then the application keys. */
    method EndAccept() returns (ret: int)
      requires Valid()
      modifies this`incoming, this`clientWrite, this`serverWrite, this`dgst
      ensures match ServerReads(s, c, old(X()), old(incoming))
        case None => ret == -1
        case Some(z) => ret == 1 && Valid() && X() == Finish(s, z.x, old(dgst))
    {
      var serverApplicationSecret := Derive(s, master, "s ap traffic", dgst);
      var clientApplicationSecret := Derive(s, master, "c ap traffic", dgst);
      ret := ReceiveClientFlight();
      if ret != 1 {
        return -1;
      }
      UpdateKeys(clientApplicationSecret, serverApplicationSecret);
    }

    /** tls13_do_accept. */
    method DoAccept() returns (ret: int)
      requires Valid()
      modifies this
      ensures var r := Accept(s, c, old(incoming));
        ret == r.ret && outgoing == old(outgoing) + r.sent && (ret == 1 ==> Valid() && r.session == Some(X()))
    {
      ret := StartAccept();
      if ret != 1 {
        return -1;
      }
      ret := EndAccept();
    }

    lemma ServerSaid(start: bytes, x: Session<Key>)
      requires x.Valid()
      ensures start + ServerSays(s, c, x) == (start + ServerHelloRecord(s, c)) +
        if Sendable(s.isCert, c.certs) then ServerWrites(s, c, x).out else SendExtensions(s, x, c).out
    {
    }

    // ---------------------------------------------------------- application data

    /** tls13_send: the record is sealed with no padding, under the keys of this side. */
    method SendData(isClient: bool, input: bytes)
      requires Valid() && |input| <= MAX_PLAINTEXT_SIZE
      modifies this`clientWrite, this`serverWrite, this`outgoing
      ensures Valid() && outgoing == old(outgoing) + Tls13Data.DataRecord(s.prot, old(X()).Of(!isClient), input)
      ensures X().Of(!isClient) == old(X()).Of(!isClient).Bumped() && X().Of(isClient) == old(X()).Of(isClient)
    {
      var out := GcmEncrypt(s.prot, HalfOf(!isClient), APPLICATION_DATA, input, 0);
      outgoing := outgoing + ([23, 3, 3, |out| / 256 % 256, |out| % 256] + out);
      if isClient {
        clientWrite := clientWrite.Bumped();
      } else {
        serverWrite := serverWrite.Bumped();
      }
    }

    /** tls13_do_recv: the next record is decrypted into the buffer. */
    method DoReceive(isClient: bool) returns (ret: int)
      requires Valid()
      modifies this`clientWrite, this`serverWrite, this`incoming, this`data
      ensures Valid() && X().Of(!isClient) == old(X()).Of(!isClient)
      ensures Tls13Data.NextData(s.prot, old(X()).Of(isClient), old(incoming)) == if ret == 1 then Some((data, incoming)) else None
      ensures ret == 1 ==> X().Of(isClient) == old(X()).Of(isClient).Bumped()
    {
      var record, recordType, content;
      ret, record := ReceiveRecord();
      if ret != 1 {
        return -1;
      }
      assert Content(record) == record[5..];
      ret, recordType, content := GcmDecrypt(s.prot, HalfOf(isClient), record[5..]);
      if ret != 1 {
        return -1;
      }
      data := content;
      if isClient {
        serverWrite := serverWrite.Bumped();
      } else {
        clientWrite := clientWrite.Bumped();
      }
      if recordType != APPLICATION_DATA {
        return -1;
      }
    }

    /** tls13_recv. */
    method ReceiveData(isClient: bool, size: nat) returns (ret: int, out: bytes)
      requires Valid() && size > 0
      modifies this`clientWrite, this`serverWrite, this`incoming, this`data
      ensures Tls13Data.ReadOnce(s.prot, old(X()).Of(isClient), old(incoming), old(data), size) ==
        if ret == 1 then Some(Tls13Data.Reading(X().Of(isClient), incoming, data, out)) else None
      ensures Valid() && X().Of(!isClient) == old(X()).Of(!isClient)
    {
      if data == [] {
        ret := DoReceive(isClient);
        if ret != 1 {
          return -1, [];
        }
      }
      var n := if size <= |data| then size else |data|;
      ret, out, data := 1, data[..n], data[n..];
    }
  }

  lemma Join4(a: bytes, b: bytes, c: bytes, d: bytes)
    ensures ((a + b) + c) + d == a + (b + (c + d))
  {
  }
}
