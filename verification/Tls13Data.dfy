/** Application data after the handshake: one direction of a connection, from tls13_send to
    tls13_recv, over any run of writes and reads. */
module Tls13Data {
  import opened Wrappers
  import opened Octets
  import opened Tls13Record

  function DataRecord<Key>(s: Protection<Key>, h: Half<Key>, data: bytes): bytes
    requires h.Valid()
  {
    var c := Seal(s, h, APPLICATION_DATA, data, 0);
    Header(APPLICATION_DATA, |c|) + c
  }

  /** tls13_do_recv: the content of the next record, and the rest of the stream. */
  function NextData<Key>(s: Protection<Key>, h: Half<Key>, stream: bytes): Option<(bytes, bytes)>
    requires h.Valid()
  {
    var got :- Receive(stream);
    var inner :- Unseal(s, h, Content(got.0));
    if inner.0 != APPLICATION_DATA then None else Some((inner.1, got.1))
  }

  /** Writer, bytes on the way, reader, and what the reader has decrypted but not handed out. */
  datatype Pipe<Key> = Pipe(tx: Half<Key>, wire: bytes, rx: Half<Key>, buffer: bytes) {
    ghost predicate Valid() { tx.Valid() && rx.Valid() }
  }

  datatype Event = Write(data: bytes) | Read(size: nat)

  function Taken(buffer: bytes, size: nat): nat { if size <= |buffer| then size else |buffer| }

  datatype Reading<Key> = Reading(rx: Half<Key>, wire: bytes, buffer: bytes, out: bytes)

  /** tls13_recv: a record is read only when the buffer is empty. */
  function ReadOnce<Key>(s: Protection<Key>, rx: Half<Key>, wire: bytes, buffer: bytes, size: nat): (r: Option<Reading<Key>>)
    requires rx.Valid()
    ensures r.Some? ==> r.value.rx.Valid()
  {
    if buffer == [] then
      var next :- NextData(s, rx, wire);
      var n := Taken(next.0, size);
      Some(Reading(rx.Bumped(), next.1, next.0[n..], next.0[..n]))
    else
      var n := Taken(buffer, size);
      Some(Reading(rx, wire, buffer[n..], buffer[..n]))
  }

  /** One event, and the bytes handed to the reader. A read that cannot go on leaves everything as it is. */
  function Step<Key>(s: Protection<Key>, p: Pipe<Key>, e: Event): (r: (Pipe<Key>, bytes))
    requires p.Valid()
    ensures r.0.Valid()
  {
    match e
    case Write(data) => (p.(tx := p.tx.Bumped(), wire := p.wire + DataRecord(s, p.tx, data)), [])
    case Read(size) =>
      match ReadOnce(s, p.rx, p.wire, p.buffer, size)
      case None => (p, [])
      case Some(r) => (Pipe(p.tx, r.wire, r.rx, r.buffer), r.out)
  }

  /** Everything written and everything handed out in a run. */
  function Written(events: seq<Event>): bytes {
    if events == [] then []
    else Written(events[..|events| - 1]) + match events[|events| - 1] case Write(data) => data case Read(_) => []
  }

  function Run<Key>(s: Protection<Key>, p: Pipe<Key>, events: seq<Event>): (r: (Pipe<Key>, bytes))
    requires p.Valid()
    ensures r.0.Valid()
  {
    if events == [] then (p, [])
    else
      var before := Run(s, p, events[..|events| - 1]);
      var now := Step(s, before.0, events[|events| - 1]);
      (now.0, before.1 + now.1)
  }

  predicate Fitting(chunks: seq<bytes>) { forall i :: 0 <= i < |chunks| ==> |chunks[i]| <= MAX_PLAINTEXT_SIZE }

  /** The records that carry the chunks, sealed one after the other from h on. */
  function Wire<Key>(s: Protection<Key>, h: Half<Key>, chunks: seq<bytes>): bytes
    requires h.Valid()
    decreases |chunks|
  {
    if chunks == [] then [] else DataRecord(s, h, chunks[0]) + Wire(s, h.Bumped(), chunks[1..])
  }

  function After<Key>(h: Half<Key>, n: nat): (r: Half<Key>)
    requires h.Valid()
    ensures r.Valid()
    decreases n
  {
    if n == 0 then h else After(h.Bumped(), n - 1)
  }

  function Flat(chunks: seq<bytes>): bytes { if chunks == [] then [] else chunks[0] + Flat(chunks[1..]) }

  /** The reader is as many records behind the writer as there are chunks on the way. */
  ghost predicate Linked<Key>(s: Protection<Key>, p: Pipe<Key>, chunks: seq<bytes>) {
    p.Valid() && Fitting(chunks) && p.wire == Wire(s, p.rx, chunks) && p.tx == After(p.rx, |chunks|)
  }

  lemma {:induction false} WireMore<Key>(s: Protection<Key>, h: Half<Key>, chunks: seq<bytes>, data: bytes)
    requires h.Valid()
    ensures Wire(s, h, chunks + [data]) == Wire(s, h, chunks) + DataRecord(s, After(h, |chunks|), data)
    ensures After(h, |chunks| + 1) == After(h, |chunks|).Bumped()
    ensures Flat(chunks + [data]) == Flat(chunks) + data
    decreases |chunks|
  {
    if chunks != [] {
      WireMore(s, h.Bumped(), chunks[1..], data);
      assert (chunks + [data])[1..] == chunks[1..] + [data];
      Assoc(DataRecord(s, h, chunks[0]), Wire(s, h.Bumped(), chunks[1..]), DataRecord(s, After(h, |chunks|), data));
      Assoc(chunks[0], Flat(chunks[1..]), data);
    } else {
      assert chunks + [data] == [data];
      assert [data][1..] == [];
      assert DataRecord(s, h, data) + [] == DataRecord(s, h, data) && data + [] == data;
      assert After(h, 1) == After(h.Bumped(), 0);
    }
  }

  /** A data record is received whole and opens to its content. */
  lemma NextDataSent<Key(!new)>(s: Protection<Key>, h: Half<Key>, data: bytes, rest: bytes)
    requires Laws(s) && h.Valid() && |data| <= MAX_PLAINTEXT_SIZE
    ensures NextData(s, h, DataRecord(s, h, data) + rest) == Some((data, rest))
  {
    UnsealSeal(s, h, APPLICATION_DATA, data, 0);
    var r := DataRecord(s, h, data);
    assert Content(r) == Seal(s, h, APPLICATION_DATA, data, 0);
    Digits(|r| - 5);
    ReceiveSent(r, rest);
  }

  predicate FittingEvent(e: Event) { e.Write? ==> |e.data| <= MAX_PLAINTEXT_SIZE }

  /** A prefix handed out and the rest in front of what follows. */
  lemma Halves(x: bytes, n: nat, rest: bytes)
    requires n <= |x|
    ensures x[..n] + (x[n..] + rest) == x + rest
  {
    assert x[..n] + x[n..] == x;
    Assoc(x[..n], x[n..], rest);
  }

  lemma WriteKeeps<Key(!new)>(s: Protection<Key>, p: Pipe<Key>, data: bytes, chunks: seq<bytes>)
    requires Laws(s) && Linked(s, p, chunks) && |data| <= MAX_PLAINTEXT_SIZE
    ensures var r := Step(s, p, Write(data));
      Linked(s, r.0, chunks + [data]) && r.1 + (r.0.buffer + Flat(chunks + [data])) == (p.buffer + Flat(chunks)) + data
  {
    WireMore(s, p.rx, chunks, data);
    Assoc(p.buffer, Flat(chunks), data);
    assert [] + (p.buffer + Flat(chunks + [data])) == p.buffer + Flat(chunks + [data]);
  }

  /** A read with an empty buffer takes the next record, if there is one. */
  lemma ReadNextKeeps<Key(!new)>(s: Protection<Key>, p: Pipe<Key>, size: nat, chunks: seq<bytes>)
    requires Laws(s) && Linked(s, p, chunks) && p.buffer == [] && chunks != []
    ensures var r := Step(s, p, Read(size)); Linked(s, r.0, chunks[1..]) && r.1 + (r.0.buffer + Flat(chunks[1..])) == Flat(chunks)
  {
    NextDataSent(s, p.rx, chunks[0], Wire(s, p.rx.Bumped(), chunks[1..]));
    Halves(chunks[0], Taken(chunks[0], size), Flat(chunks[1..]));
  }

  lemma ReadStands<Key(!new)>(s: Protection<Key>, p: Pipe<Key>, size: nat)
    requires Linked(s, p, []) && p.buffer == []
    ensures Step(s, p, Read(size)) == (p, [])
  {
    assert NextData(s, p.rx, []) == None;
  }

  lemma ReadBufferKeeps<Key(!new)>(s: Protection<Key>, p: Pipe<Key>, size: nat, chunks: seq<bytes>)
    requires Linked(s, p, chunks) && p.buffer != []
    ensures var r := Step(s, p, Read(size));
      Linked(s, r.0, chunks) && r.1 + (r.0.buffer + Flat(chunks)) == p.buffer + Flat(chunks)
  {
    Halves(p.buffer, Taken(p.buffer, size), Flat(chunks));
  }

  /** A step keeps reader and writer linked, and loses and invents no byte. */
  lemma StepKeeps<Key(!new)>(s: Protection<Key>, p: Pipe<Key>, e: Event, chunks: seq<bytes>) returns (after: seq<bytes>)
    requires Laws(s) && Linked(s, p, chunks) && FittingEvent(e)
    ensures var r := Step(s, p, e);
      Linked(s, r.0, after) && r.1 + (r.0.buffer + Flat(after)) ==
      (p.buffer + Flat(chunks)) + match e case Write(data) => data case Read(_) => []
  {
    match e
    case Write(data) =>
      after := chunks + [data];
      WriteKeeps(s, p, data, chunks);
    case Read(size) =>
      after := chunks;
      NothingMore(p.buffer + Flat(chunks));
      if p.buffer != [] {
        ReadBufferKeeps(s, p, size, chunks);
      } else if chunks == [] {
        ReadStands(s, p, size);
        NothingMore(Flat(chunks));
      } else {
        after := chunks[1..];
        ReadNextKeeps(s, p, size, chunks);
        NothingMore(Flat(chunks));
      }
  }

  lemma NothingMore(x: bytes)
    ensures x + [] == x && [] + x == x
  {
  }

  /** In every run from equal keys, ivs and sequence numbers, for any sizes of writes and reads:
      what was handed out, what is buffered and what is on the way are together what was written. */
  lemma {:induction false} RunConserves<Key(!new)>(s: Protection<Key>, h: Half<Key>, events: seq<Event>) returns (chunks: seq<bytes>)
    requires Laws(s) && h.Valid() && forall i :: 0 <= i < |events| ==> FittingEvent(events[i])
    ensures var r := Run(s, Pipe(h, [], h, []), events);
      Linked(s, r.0, chunks) && r.1 + (r.0.buffer + Flat(chunks)) == Written(events)
  {
    if events == [] {
      chunks := [];
      assert Flat([]) == [] && After(h, 0) == h;
    } else {
      var front, e := events[..|events| - 1], events[|events| - 1];
      var before := RunConserves(s, h, front);
      var r := Run(s, Pipe(h, [], h, []), front);
      chunks := StepKeeps(s, r.0, e, before);
      var now := Step(s, r.0, e);
      var more := match e case Write(data) => data case Read(_) => [];
      Assoc(r.1, now.1, now.0.buffer + Flat(chunks));
      Assoc(r.1, r.0.buffer + Flat(before), more);
    }
  }

  /** As long as anything is buffered or on the way, a read of at least one byte goes on: it empties
      one record or hands out bytes. */
  lemma ReadGoesOn<Key(!new)>(s: Protection<Key>, p: Pipe<Key>, size: nat, chunks: seq<bytes>)
    requires Laws(s) && Linked(s, p, chunks) && size > 0
    ensures Step(s, p, Read(size)) == (p, []) <==> p.buffer == [] && chunks == []
  {
    if p.buffer == [] && chunks != [] {
      NextDataSent(s, p.rx, chunks[0], Wire(s, p.rx.Bumped(), chunks[1..]));
      assert |DataRecord(s, p.rx, chunks[0])| > 0;
      assert p.wire != Wire(s, p.rx.Bumped(), chunks[1..]);
    } else if p.buffer == [] {
      assert NextData(s, p.rx, []) == None;
    }
  }
}
