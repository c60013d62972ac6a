/** OBJECT IDENTIFIER in asn1.c, section 8.19 of ITU-T X.690. */
module DerOid {
  import opened Octets
  import opened Der
  import opened DerLists

  const MIN_NODES := 2
  const MAX_NODES := 32
  const NODE_MAX := 0xffff_ffff

  // ------------------------------------------------------------ one node, to the base 128

  /** The digits in front of the last one, with the top bit set. */
  function High(a: nat): bytes {
    if a < 128 then [128 + a] else High(a / 128) + [128 + a % 128]
  }

  function Node(a: nat): (r: bytes)
    ensures r != []
  {
    if a < 128 then [a] else High(a / 128) + [a % 128]
  }

  function Pow128(n: nat): (r: nat)
    ensures r > 0
  {
    if n == 0 then 1 else 128 * Pow128(n - 1)
  }

  /** The digits of a node, the top bit telling all but the last, with none that could be left out in front. */
  lemma {:induction false} NodeAt(a: nat, i: nat)
    requires i < |Node(a)|
    ensures Node(a)[i] == a / Pow128(|Node(a)| - 1 - i) % 128 + if i < |Node(a)| - 1 then 128 else 0
    ensures |Node(a)| > 1 ==> Node(a)[0] != 128
  {
    if a >= 128 {
      HighFront(a / 128);
      if i < |Node(a)| - 1 {
        HighAt(a / 128, i);
        DivideTwice(a, 128, Pow128(|Node(a)| - 2 - i));
      }
    }
  }

  lemma {:induction false} HighAt(a: nat, i: nat)
    requires i < |High(a)|
    ensures High(a)[i] == 128 + a / Pow128(|High(a)| - 1 - i) % 128
  {
    if a >= 128 && i < |High(a)| - 1 {
      HighAt(a / 128, i);
      DivideTwice(a, 128, Pow128(|High(a)| - 2 - i));
    }
  }

  lemma {:induction false} HighFront(a: nat)
    requires a > 0
    ensures |High(a)| > 0 && High(a)[0] != 128
  {
    if a >= 128 {
      HighFront(a / 128);
    }
  }

  lemma Powers()
    ensures Pow128(1) == 128 && Pow128(2) == 16384 && Pow128(3) == 2097152 && Pow128(4) == 268435456
  {
    assert Pow128(0) == 1;
  }

  lemma {:induction false} HighSize(a: nat, n: nat)
    requires n > 0 && a < Pow128(n)
    ensures 1 <= |High(a)| <= n
  {
    if a >= 128 {
      assert Pow128(1) == 128 * Pow128(0) == 128;
      HighSize(a / 128, n - 1);
    }
  }

  /** The first of n + 1 digits is what n divisions leave. */
  lemma {:induction false} HighFirst(a: nat, n: nat, top: nat)
    requires |High(a)| == n + 1 && a < top * Pow128(n) && top <= 128
    ensures 128 <= High(a)[0] < 128 + top
  {
    if a >= 128 {
      assert High(a)[0] == High(a / 128)[0];
      Shrink(a, top, Pow128(n - 1));
      HighFirst(a / 128, n - 1, top);
    } else {
      assert Pow128(0) == 1 && n == 0;
    }
  }

  lemma Shrink(a: nat, top: nat, p: nat)
    requires a < top * (128 * p)
    ensures a / 128 < top * p
  {
    assert top * (128 * p) == 128 * (top * p);
  }

  /** The first loop of asn1_oid_node_to_base128 fills a buffer from the last digit on. */
  method NodeToBuffer(a0: nat) returns (buf: array<byte>, n: nat)
    requires a0 <= NODE_MAX
    ensures fresh(buf) && buf.Length == 5 && n == |Node(a0)| && Backwards(buf[..], Node(a0))
  {
    buf := new byte[5](_ => 0);
    NodeSize(a0);
    ghost var done: bytes := [a0 % 128];
    buf[0] := a0 % 128;
    var a := a0 / 128;
    n := 1;
    while a > 0
      invariant 1 <= n <= 5 == buf.Length && |done| == n && Backwards(buf[..], done)
      invariant a >= 0 && Node(a0) == (if a > 0 then High(a) + done else done)
    {
      if a >= 128 { Assoc(High(a / 128), [128 + a % 128], done); }
      assert |High(a) + done| > n;
      ghost var before := buf[..];
      buf[n] := 128 + a % 128;
      assert buf[..] == before[n := buf[n]];
      BackwardsMore(before, done, buf[n]);
      done := [128 + a % 128] + done;
      a, n := a / 128, n + 1;
    }
  }

  lemma BackwardsMore(buf: bytes, done: bytes, b: byte)
    requires Backwards(buf, done) && |done| < |buf|
    ensures Backwards(buf[|done| := b], [b] + done)
  {
  }

  /** asn1_oid_node_to_base128: the buffer goes out in the other order. */
  method NodeToBase128(a0: nat, s: Sink)
    requires a0 <= NODE_MAX
    modifies s
    ensures s.out == old(s.out) + s.Written(Node(a0)) && s.outlen == old(s.outlen) + |Node(a0)|
  {
    var buf, n := NodeToBuffer(a0);
    ghost var start, done, k := s.out, Node(a0), 0;
    assert done[..0] == [] && start + [] == start && done[..|done|] == done;
    while n > 0
      invariant 0 <= n <= |done| && k == |done| - n && Backwards(buf[..], done)
      invariant s.out == start + s.Written(done[..k]) && s.outlen == old(s.outlen) + k
    {
      n := n - 1;
      assert done[..k + 1] == done[..k] + [done[k]] && buf[..][n] == done[k];
      s.Twice(start, done[..k], [done[k]]);
      s.Put([buf[n]]);
      k := k + 1;
    }
  }

  ghost predicate Backwards(buf: bytes, done: bytes) {
    |done| <= |buf| && forall i :: 0 <= i < |done| ==> buf[i] == done[|done| - 1 - i]
  }

  lemma NodeSize(a: nat)
    requires a <= NODE_MAX
    ensures |Node(a)| <= 5 && (|Node(a)| == 5 ==> 128 <= Node(a)[0] < 144)
  {
    Powers();
    if a >= 128 {
      HighSize(a / 128, 4);
      if |High(a / 128)| == 4 { HighFirst(a / 128, 3, 16); }
    }
  }

  /** The bytes up to the first without the top bit, at most room of them. */
  function Digits(input: bytes, room: nat): Parse<bytes> {
    if input == [] || room == 0 then Bad
    else if input[0] < 128 then Got([input[0]], input[1..])
    else
      match Digits(input[1..], room - 1)
      case Got(d, rest) => Got([input[0]] + d, rest)
      case _ => Bad
  }

  function Weight(d: bytes): nat { if d == [] then 0 else 128 * Weight(d[..|d| - 1]) + d[|d| - 1] % 128 }

  /** asn1_oid_node_from_base128: five digits must fit into 32 bits. */
  function NodeFrom(input: bytes): Parse<nat> {
    match Digits(input, 5)
    case Got(d, rest) => if |d| == 5 && d[0] / 16 % 8 != 0 then Bad else Got(Weight(d), rest)
    case _ => Bad
  }

  lemma {:induction false} DigitsFound(h: bytes, low: byte, rest: bytes, room: nat)
    requires (forall i :: 0 <= i < |h| ==> h[i] >= 128) && low < 128 && |h| < room
    ensures Digits(h + ([low] + rest), room) == Got(h + [low], rest)
    decreases |h|
  {
    var input := h + ([low] + rest);
    if h == [] {
      assert input == [low] + rest && input[1..] == rest && h + [low] == [low];
    } else {
      DigitsFound(h[1..], low, rest, room - 1);
      assert input[1..] == h[1..] + ([low] + rest);
      assert [h[0]] + (h[1..] + [low]) == h + [low];
    }
  }

  lemma {:induction false} HighWeight(a: nat)
    ensures Weight(High(a)) == a && forall i :: 0 <= i < |High(a)| ==> High(a)[i] >= 128
  {
    if a >= 128 {
      HighWeight(a / 128);
      assert High(a)[..|High(a)| - 1] == High(a / 128);
    } else {
      assert High(a)[..0] == [];
    }
  }

  /** Every 32-bit node is read back. */
  lemma NodeRoundTrip(a: nat, rest: bytes)
    requires a <= NODE_MAX
    ensures NodeFrom(Node(a) + rest) == Got(a, rest)
  {
    NodeSize(a);
    var h: bytes := if a < 128 then [] else High(a / 128);
    HighWeight(a / 128);
    assert Node(a) == h + [a % 128] && Node(a)[..|Node(a)| - 1] == h;
    Assoc(h, [a % 128], rest);
    DigitsFound(h, a % 128, rest, 5);
    assert Weight(Node(a)) == a;
  }

  /** The loops of asn1_oid_node_from_base128. */
  method ReadNode(input0: bytes) returns (ret: int, a: nat, rest: bytes)
    ensures NodeFrom(input0) == if ret == 1 then Got(a, rest) else Bad
  {
    var buf: bytes := [];
    rest, a := input0, 0;
    assert Joined([], Digits(rest, 5)) == Digits(rest, 5) by { JoinedNone(Digits(rest, 5)); }
    while true
      invariant |buf| <= 5 && Digits(input0, 5) == Joined(buf, Digits(rest, 5 - |buf|))
      decreases |rest|
    {
      if |rest| < 1 || |buf| >= 5 {
        return -1, 0, rest;
      }
      var b := rest[0];
      if b < 128 {
        buf, rest := buf + [b], rest[1..];
        break;
      }
      JoinedTwice(buf, [b], Digits(rest[1..], 4 - |buf|));
      buf, rest := buf + [b], rest[1..];
    }
    if |buf| == 5 && buf[0] / 16 % 8 != 0 {
      return -1, 0, rest;
    }
    a := Weigh(buf);
    ret := 1;
  }

  /** The second loop. */
  method Weigh(buf: bytes) returns (a: nat)
    ensures a == Weight(buf)
  {
    a := 0;
    var i := 0;
    assert buf[..|buf|] == buf;
    while i < |buf|
      invariant 0 <= i <= |buf| && a == Weight(buf[..i])
    {
      assert buf[..i + 1][..i] == buf[..i];
      a := a * 128 + buf[i] % 128;
      i := i + 1;
    }
  }

  function Joined(a: bytes, b: Parse<bytes>): Parse<bytes> {
    match b case Got(d, rest) => Got(a + d, rest) case _ => b
  }

  lemma JoinedNone(b: Parse<bytes>)
    ensures Joined([], b) == b
  {
    if b.Got? { assert [] + b.value == b.value; }
  }

  lemma JoinedTwice(a: bytes, b: bytes, c: Parse<bytes>)
    ensures Joined(a, Joined(b, c)) == Joined(a + b, c)
  {
    if c.Got? { Assoc(a, b, c.value); }
  }

  // ------------------------------------------------------------ all nodes

  function WriteNode(a: int): bytes { Node(NotNegative(a)) }

  function Nodes(): Item { Item(NODE_MAX, WriteNode, NodeFrom) }

  lemma NodesLaws()
    ensures DerLists.Laws(Nodes())
  {
    forall a: int, more: bytes ensures ItemAt(Nodes(), a, more) {
      if a <= NODE_MAX { NodeRoundTrip(NotNegative(a), more); }
    }
  }

  predicate Counted(nodes: seq<nat>) {
    MIN_NODES <= |nodes| <= MAX_NODES && forall i :: 0 <= i < |nodes| ==> nodes[i] <= NODE_MAX
  }

  /** The first byte holds two nodes, modulo 256. */
  function OidContent(nodes: seq<nat>): (r: bytes)
    requires |nodes| >= 2
    ensures r != []
  {
    [(nodes[0] * 40 + nodes[1]) % 256] + All(Nodes(), nodes[2..])
  }

  /** asn1_object_identifier_to_octets. */
  method ToOctets(nodes: seq<nat>, s: Sink) returns (ret: int)
    requires forall i :: 0 <= i < |nodes| ==> nodes[i] <= NODE_MAX
    modifies s
    ensures ret == if MIN_NODES <= |nodes| <= MAX_NODES then 1 else -1
    ensures ret == 1 ==> s.out == old(s.out) + s.Written(OidContent(nodes)) && s.outlen == old(s.outlen) + |OidContent(nodes)|
  {
    if |nodes| < MIN_NODES || |nodes| > MAX_NODES {
      return -1;
    }
    var first := [(nodes[0] * 40 + nodes[1]) % 256];
    ghost var before, all := s.out, nodes[2..];
    s.Put(first);
    s.Twice(before, first, All(Nodes(), all));
    NodesToBase128(nodes[2..], s);
    ret := 1;
  }

  /** The loop over all nodes but the first two. */
  method NodesToBase128(nodes: seq<nat>, s: Sink)
    requires forall i :: 0 <= i < |nodes| ==> nodes[i] <= NODE_MAX
    modifies s
    ensures s.out == old(s.out) + s.Written(All(Nodes(), nodes)) && s.outlen == old(s.outlen) + |All(Nodes(), nodes)|
  {
    ghost var before := s.out;
    var i := 0;
    assert nodes[0..] == nodes;
    while i < |nodes|
      invariant 0 <= i <= |nodes|
      invariant before + s.Written(All(Nodes(), nodes)) == s.out + s.Written(All(Nodes(), nodes[i..]))
      invariant old(s.outlen) + |All(Nodes(), nodes)| == s.outlen + |All(Nodes(), nodes[i..])|
    {
      s.Twice(s.out, WriteNode(nodes[i]), All(Nodes(), nodes[i + 1..]));
      assert nodes[i..][0] == nodes[i] && nodes[i..][1..] == nodes[i + 1..];
      NodeToBase128(nodes[i], s);
      i := i + 1;
    }
    assert s.out + s.Written([]) == s.out;
  }

  /** asn1_object_identifier_to_der_ex: the octets are made in a buffer. */
  method OidToDer(tag: byte, nodes: seq<nat>, s: Sink) returns (ret: int)
    requires forall i :: 0 <= i < |nodes| ==> nodes[i] <= NODE_MAX
    modifies s
    ensures ret == if MIN_NODES <= |nodes| <= MAX_NODES then 1 else -1
    ensures ret == 1 ==> s.out == old(s.out) + s.Written(Tagged(tag, OidContent(nodes))) &&
                         s.outlen == old(s.outlen) + |Tagged(tag, OidContent(nodes))|
  {
    var octets := new Sink(true);
    ret := ToOctets(nodes, octets);
    if ret != 1 {
      return;
    }
    ghost var before, c := s.out, OidContent(nodes);
    assert octets.out == c;
    s.Put([tag]);
    var _ := LengthToDer(octets.outlen, s);
    s.Put(octets.out);
    s.Twice(before, [tag], Length(|c|));
    s.Twice(before, [tag] + Length(|c|), c);
  }

  /** asn1_object_identifier_from_octets: the count is checked before each node, and only for being too large already. */
  function FromOctets(d: bytes): Parse<seq<nat>>
    requires d != []
  {
    match AllOf(Nodes(), d[1..], MAX_NODES - 1)
    case Got(more, _) => Got([d[0] / 40, d[0] % 40] + more, [])
    case _ => Bad
  }

  /** asn1_object_identifier_from_der_ex. */
  function OidFromDer(tag: byte, input: bytes): Parse<seq<nat>> {
    match TaggedFromDer(tag, input)
    case Got(d, rest) =>
      if d == [] then Bad
      else
        (match FromOctets(d)
         case Got(nodes, _) => Got(nodes, rest)
         case _ => Bad)
    case Absent => Absent
    case Bad => Bad
  }

  lemma {:induction false} ContentSize(nodes: seq<nat>)
    requires forall i :: 0 <= i < |nodes| ==> nodes[i] <= NODE_MAX
    ensures |All(Nodes(), nodes)| <= 5 * |nodes|
  {
    if nodes != [] {
      NodeSize(nodes[0]);
      ContentSize(nodes[1..]);
    }
  }

  lemma {:induction false} FloorsSame(nodes: seq<nat>)
    ensures Floors(nodes) == nodes
  {
    if nodes != [] { FloorsSame(nodes[1..]); }
  }

  /** An identifier that was written is read back as it was exactly if its second node is below 40 and
      its first two fit into a byte. */
  lemma OidRoundTrip(tag: byte, nodes: seq<nat>, rest: bytes)
    requires Counted(nodes)
    ensures OidFromDer(tag, Tagged(tag, OidContent(nodes)) + rest) == Got(nodes, rest) <==>
      nodes[1] < 40 && nodes[0] * 40 + nodes[1] < 256
  {
    var c := OidContent(nodes);
    ContentSize(nodes[2..]);
    TaggedRoundTrip(tag, c, rest);
    OctetsRead(nodes);
    FirstTwo(nodes[0], nodes[1], c[0]);
    FrontSame(nodes, c[0] / 40, c[0] % 40);
  }

  /** The octets give back all nodes but perhaps the first two. */
  lemma OctetsRead(nodes: seq<nat>)
    requires Counted(nodes)
    ensures var c := OidContent(nodes); FromOctets(c) == Got([c[0] / 40, c[0] % 40] + nodes[2..], [])
  {
    var c, tail := OidContent(nodes), nodes[2..];
    OctetsRoom(c[0], tail);
    assert c[1..] == All(Nodes(), tail) && c == [c[0]] + c[1..];
  }

  /** Reading has room for one node more than writing: 33. */
  lemma OctetsRoom(first: byte, tail: seq<nat>)
    requires forall i :: 0 <= i < |tail| ==> tail[i] <= NODE_MAX
    ensures FromOctets([first] + All(Nodes(), tail)) ==
      if 2 + |tail| <= MAX_NODES + 1 then Got([first / 40, first % 40] + tail, []) else Bad
  {
    NodesLaws();
    AllRead(Nodes(), tail, MAX_NODES - 1);
    FloorsSame(tail);
    assert ([first] + All(Nodes(), tail))[1..] == All(Nodes(), tail);
  }

  lemma FrontSame(nodes: seq<nat>, q: nat, r: nat)
    requires |nodes| >= 2
    ensures [q, r] + nodes[2..] == nodes <==> q == nodes[0] && r == nodes[1]
  {
    var t := [q, r] + nodes[2..];
    assert t[0] == q && t[1] == r;
  }

  lemma FirstTwo(a: nat, b: nat, c: byte)
    requires c == (a * 40 + b) % 256
    ensures c / 40 == a && c % 40 == b <==> b < 40 && a * 40 + b < 256
  {
  }
}
