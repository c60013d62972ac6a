/** BIT STRING in asn1.c, section 8.6 of ITU-T X.690, and the masks of flags written as bit strings. */
module DerBits {
  import opened Octets
  import opened Der

  /** The bits of a mask, bit 0 first, without zeros at the end; a zero mask has one bit. */
  function Bits(n: nat): seq<bool> { if n == 0 then [] else [n % 2 == 1] + Bits(n / 2) }

  function MaskBits(n: nat): (l: seq<bool>)
    ensures l != []
  {
    if n == 0 then [false] else Bits(n)
  }

  function Number(l: seq<bool>): nat { if l == [] then 0 else (if l[0] then 1 else 0) + 2 * Number(l[1..]) }

  lemma {:induction false} BitsNumber(n: nat)
    ensures Number(Bits(n)) == n && Number(MaskBits(n)) == n
  {
    if n > 0 {
      BitsNumber(n / 2);
      assert Bits(n)[1..] == Bits(n / 2);
    } else {
      assert [false][1..] == [];
    }
  }

  function Pow2(n: nat): nat { if n == 0 then 1 else 2 * Pow2(n - 1) }

  lemma {:induction false} BitsSize(n: nat, k: nat)
    requires n < Pow2(k)
    ensures |Bits(n)| <= k
  {
    if n > 0 {
      assert k > 0 by { assert Pow2(0) == 1; }
      BitsSize(n / 2, k - 1);
    }
  }

  // ------------------------------------------------------------ bytes, the first bit on top

  /** The mask of bit j of a byte. */
  function Mask(j: nat): nat {
    if j == 0 then 128 else if j == 1 then 64 else if j == 2 then 32 else if j == 3 then 16
    else if j == 4 then 8 else if j == 5 then 4 else if j == 6 then 2 else if j == 7 then 1 else 0
  }

  /** Bits from position j on. */
  function Pack(l: seq<bool>, j: nat): (r: nat)
    requires j + |l| <= 8
    ensures r <= 2 * Mask(j)
    ensures j < 8 ==> r < 2 * Mask(j)
    decreases |l|
  {
    if l == [] then 0 else (if l[0] then Mask(j) else 0) + Pack(l[1..], j + 1)
  }

  lemma {:induction false} PackDouble(l: seq<bool>, j: nat)
    requires j + 1 + |l| <= 8
    ensures 2 * Pack(l, j + 1) == Pack(l, j)
    decreases |l|
  {
    if l != [] { PackDouble(l[1..], j + 1); }
  }

  lemma {:induction false} PackMore(l: seq<bool>, j: nat, b: bool)
    requires j + |l| < 8
    ensures Pack(l + [b], j) == Pack(l, j) + if b then Mask(j + |l|) else 0
    decreases |l|
  {
    if l == [] {
      assert l + [b] == [b] && [b][1..] == [];
    } else {
      PackMore(l[1..], j + 1, b);
      assert (l + [b])[1..] == l[1..] + [b];
    }
  }

  function Content(l: seq<bool>): (r: bytes)
    ensures |r| == (|l| + 7) / 8
    decreases |l|
  {
    if l == [] then [] else if |l| <= 8 then [Pack(l, 0)] else [Pack(l[..8], 0)] + Content(l[8..])
  }

  /** The bits of the last byte that do not count. */
  function Unused(nbits: nat): (u: byte)
    ensures u < 8 && (nbits + 7) / 8 * 8 - nbits == u
  {
    (nbits + 7) / 8 * 8 - nbits
  }

  /** The number of unused bits, and the bits. */
  function BitString(tag: byte, data: bytes, nbits: nat): bytes {
    Tagged(tag, [Unused(nbits)] + data)
  }

  /** asn1_bit_string_to_der_ex. */
  method BitStringToDer(tag: byte, data: bytes, nbits: nat, s: Sink) returns (ret: int)
    requires |data| == (nbits + 7) / 8
    modifies s
    ensures ret == 1 && s.out == old(s.out) + s.Written(BitString(tag, data, nbits)) &&
            s.outlen == old(s.outlen) + |BitString(tag, data, nbits)|
  {
    var unusedNbits := Unused(nbits);
    s.FourTimes(s.out, [tag], Length(|data| + 1), [unusedNbits], data);
    s.Put([tag]);
    var _ := LengthToDer(|data| + 1, s);
    s.Put([unusedNbits]);
    s.Put(data);
    ret := 1;
  }

  /** What is written is read back: the bytes, and how many bits count. */
  lemma BitStringRoundTrip(tag: byte, data: bytes, nbits: nat, rest: bytes)
    requires 0 < nbits < INT_MAX && |data| == (nbits + 7) / 8
    ensures BitStringFromDer(tag, BitString(tag, data, nbits) + rest) == Got((data, nbits), rest)
  {
    var d := [Unused(nbits)] + data;
    TaggedRoundTrip(tag, d, rest);
    assert d[1..] == data;
  }

  /** The buffer of four bytes: i bytes done, and a group begun in the next one. */
  ghost predicate Filled(b: bytes, i: nat, done: bytes, group: seq<bool>) {
    |b| == 4 && i < 4 && |group| <= 8 && b[..i] == done && b[i] == Pack(group, 0) && forall k :: i < k < 4 ==> b[k] == 0
  }

  lemma FillBit(b: bytes, i: nat, done: bytes, group: seq<bool>, bit: bool)
    requires Filled(b, i, done, group) && |group| < 8
    ensures var v := b[i] + if bit then Mask(|group|) else 0;
      v < 256 && Filled(b[i := v], i, done, group + [bit])
  {
    PackMore(group, 0, bit);
  }

  lemma FillNext(b: bytes, i: nat, done: bytes, group: seq<bool>)
    requires Filled(b, i, done, group) && i < 3
    ensures Filled(b, i + 1, done + [b[i]], [])
  {
  }

  /** The state of the loop: the bits left over will complete the bytes done and the group begun. */
  ghost predicate Working(bits0: nat, bits: nat, nbits: nat, mask: nat, i: nat, b: bytes, done: bytes, group: seq<bool>) {
    |group| < 8 && |done| == i && Filled(b, i, done, group) && mask == Mask(|group|) && nbits == 8 * i + |group| &&
    nbits + |Bits(bits)| == |Bits(bits0)| <= 31 && Content(Bits(bits0)) == done + Content(group + Bits(bits))
  }

  lemma Start(bits0: nat)
    requires bits0 <= INT_MAX
    ensures Working(bits0, bits0, 0, 128, 0, [0, 0, 0, 0], [], [])
  {
    PowerWord();
    BitsSize(bits0, 31);
    assert [] + Bits(bits0) == Bits(bits0) && [] + Content(Bits(bits0)) == Content(Bits(bits0));
  }

  lemma OneBit(bits0: nat, bits: nat, nbits: nat, mask: nat, i: nat, b: bytes, done: bytes, group: seq<bool>)
    returns (done': bytes, group': seq<bool>)
    requires Working(bits0, bits, nbits, mask, i, b, done, group) && bits > 0
    ensures var v := b[i] + if bits % 2 == 1 then mask else 0; var full := (nbits + 1) % 8 == 0;
      v < 256 && Working(bits0, bits / 2, nbits + 1, if full then 128 else mask / 2, if full then i + 1 else i, b[i := v], done', group')
  {
    var bit := bits % 2 == 1;
    FillBit(b, i, done, group, bit);
    assert Bits(bits) == [bit] + Bits(bits / 2);
    Assoc(group, [bit], Bits(bits / 2));
    done', group' := done, group + [bit];
    Octave(i, |group|);
    if |group'| == 8 {
      var u := b[i := b[i] + if bit then mask else 0];
      GroupDone(group', Bits(bits / 2), done);
      FillNext(u, i, done, group');
      done', group' := done + [u[i]], [];
      assert group' + Bits(bits / 2) == Bits(bits / 2);
    }
  }

  lemma Octave(i: nat, k: nat)
    requires k < 8
    ensures (8 * i + k + 1) % 8 == 0 <==> k == 7
    ensures k > 0 ==> (8 * i + k + 7) / 8 == i + 1
  {
  }

  method SetFlag(b: array<byte>, i: nat, flag: nat)
    requires i < b.Length && b[..][i] + flag < 256
    modifies b
    ensures b[..] == old(b[..])[i := old(b[..])[i] + flag]
  {
    b[i] := b[i] + flag;
  }

  /** The loop of asn1_bits_to_der_ex: the bytes, and the number of bits. */
  method MaskToBuffer(bits0: nat) returns (buf: bytes, nbits: nat)
    requires bits0 <= INT_MAX
    ensures buf == Content(MaskBits(bits0)) && nbits == |MaskBits(bits0)|
  {
    var b := new byte[4](_ => 0);
    var bits: nat, mask: nat, i: nat := bits0, 128, 0;
    nbits := 0;
    ghost var group: seq<bool>, done: bytes := [], [];
    assert b[..] == [0, 0, 0, 0];
    Start(bits0);
    while bits > 0
      invariant b.Length == 4 && Working(bits0, bits, nbits, mask, i, b[..], done, group)
    {
      done, group := OneBit(bits0, bits, nbits, mask, i, b[..], done, group);
      SetFlag(b, i, if bits % 2 == 1 then mask else 0);
      bits, mask, nbits := bits / 2, mask / 2, nbits + 1;
      if nbits % 8 == 0 {
        i, mask := i + 1, 128;
      }
    }
    Closing(bits0, nbits, mask, i, b[..], done, group);
    if nbits == 0 {
      nbits := 1;
    }
    buf := b[..(nbits + 7) / 8];
  }

  /** At the end the group begun is the last byte; a zero mask leaves one zero. */
  lemma Closing(bits0: nat, nbits: nat, mask: nat, i: nat, b: bytes, done: bytes, group: seq<bool>)
    requires Working(bits0, 0, nbits, mask, i, b, done, group)
    ensures var n := if nbits == 0 then 1 else nbits;
      n == |MaskBits(bits0)| && (n + 7) / 8 <= 4 && b[..(n + 7) / 8] == Content(MaskBits(bits0))
  {
    assert group + [] == group;
    if nbits == 0 {
      assert [false][1..] == [] && b[..1] == [0];
    } else if group == [] {
      assert done + [] == done;
    } else {
      Octave(i, |group|);
      assert b[..i + 1] == done + [b[i]];
    }
  }

  lemma PowerWord()
    ensures Pow2(31) == 0x8000_0000
  {
    assert Pow2(8) == 256;
    assert Pow2(16) == 65536;
    assert Pow2(24) == 0x100_0000;
  }

  lemma GroupDone(group: seq<bool>, rest: seq<bool>, done: bytes)
    requires |group| == 8
    ensures done + Content(group + rest) == (done + [Pack(group, 0)]) + Content(rest)
  {
    assert (group + rest)[..8] == group && (group + rest)[8..] == rest;
    if rest == [] { assert group + rest == group; }
    Assoc(done, [Pack(group, 0)], Content(rest));
  }

  function MaskString(tag: byte, bits: nat): bytes { BitString(tag, Content(MaskBits(bits)), |MaskBits(bits)|) }

  /** asn1_bits_to_der_ex: a negative mask stands for one that is not there. */
  method MaskToDer(tag: byte, bits: int, s: Sink) returns (ret: int)
    requires bits <= INT_MAX
    modifies s
    ensures ret == if bits < 0 then 0 else 1
    ensures bits >= 0 ==> s.out == old(s.out) + s.Written(MaskString(tag, bits)) && s.outlen == old(s.outlen) + |MaskString(tag, bits)|
    ensures bits < 0 ==> s.out == old(s.out) && s.outlen == old(s.outlen)
  {
    if bits < 0 {
      return 0;
    }
    var buf, nbits := MaskToBuffer(bits);
    ret := BitStringToDer(tag, buf, nbits, s);
  }

  // ------------------------------------------------------------ reading

  /** asn1_bit_string_from_der_ex: the bytes and the number of bits. */
  function BitStringFromDer(tag: byte, input: bytes): (r: Parse<(bytes, nat)>)
    ensures r.Got? ==> r.value.1 <= 8 * |r.value.0|
  {
    match TaggedFromDer(tag, input)
    case Got(d, rest) => if |d| < 2 || d[0] > 7 then Bad else Got((d[1..], 8 * (|d| - 1) - d[0]), rest)
    case Absent => Absent
    case Bad => Bad
  }

  /** A byte shifted left. */
  function Doubled(c: byte): byte { c * 2 % 256 }

  /** The next n bits: u bits at the top of c, then the bytes of p. */
  function Next(c: byte, u: nat, p: bytes, n: nat): seq<bool>
    requires n <= u + 8 * |p|
    decreases n, if u == 0 then 1 else 0
  {
    if n == 0 then [] else if u == 0 then Next(p[0], 8, p[1..], n) else [c >= 128] + Next(Doubled(c), u - 1, p, n - 1)
  }

  function MaskFromDer(tag: byte, input: bytes): Parse<nat> {
    match BitStringFromDer(tag, input)
    case Got((p, nbits), rest) => if nbits > 31 then Bad else Got(Number(Next(0, 0, p, nbits)), rest)
    case Absent => Absent
    case Bad => Bad
  }

  /** asn1_bits_from_der_ex. */
  method ReadMask(tag: byte, input: bytes) returns (ret: int, bits: int, rest: bytes)
    ensures match MaskFromDer(tag, input)
      case Got(v, more) => ret == 1 && bits == v && rest == more
      case Absent => ret == 0 && bits == -1
      case Bad => ret == -1
  {
    bits, rest := -1, input;
    match BitStringFromDer(tag, input) {
      case Absent => ret := 0;
      case Bad => ret := -1;
      case Got((p, nbits), more) =>
        if nbits > 31 {
          return -1, -1, input;
        }
        bits := BitsOf(p, nbits);
        ret, rest := 1, more;
    }
  }

  /** The bits read so far are a beginning of all bits, and n are to come. */
  ghost predicate Reading(all: seq<bool>, read: seq<bool>, c: byte, u: nat, p: bytes, n: nat) {
    n <= u + 8 * |p| && all == read + Next(c, u, p, n)
  }

  lemma LoadByte(all: seq<bool>, read: seq<bool>, c: byte, p: bytes, n: nat)
    requires Reading(all, read, c, 0, p, n) && n > 0
    ensures p != [] && Reading(all, read, p[0], 8, p[1..], n)
  {
  }

  lemma ShiftBit(all: seq<bool>, read: seq<bool>, c: byte, u: nat, p: bytes, n: nat)
    requires Reading(all, read, c, u, p, n) && n > 0 && u > 0
    ensures Reading(all, read + [c >= 128], Doubled(c), u - 1, p, n - 1)
    ensures Number(read + [c >= 128]) == Number(read) + if c >= 128 then Pow2(|read|) else 0
  {
    Assoc(read, [c >= 128], Next(Doubled(c), u - 1, p, n - 1));
    NumberMore(read, c >= 128);
  }

  /** One turn of the loop: a new byte after eight bits, and one bit off its top. */
  lemma OneMoreBit(all: seq<bool>, read: seq<bool>, i: nat, c: byte, u: nat, p: bytes, n: nat) returns (u': nat)
    requires Reading(all, read, c, u, p, n) && n > 0 && u < 8 && (u + i) % 8 == 0
    ensures i % 8 == 0 ==> p != []
    ensures var c' := if i % 8 == 0 then p[0] else c; var p' := if i % 8 == 0 then p[1..] else p;
      u' < 8 && (u' + i + 1) % 8 == 0 && Reading(all, read + [c' >= 128], Doubled(c'), u', p', n - 1) &&
      Number(read + [c' >= 128]) == Number(read) + if c' >= 128 then Pow2(|read|) else 0
  {
    Eighth(u, i);
    if u == 0 {
      LoadByte(all, read, c, p, n);
      ShiftBit(all, read, p[0], 8, p[1..], n);
      u' := 7;
    } else {
      ShiftBit(all, read, c, u, p, n);
      u' := u - 1;
    }
  }

  lemma {:induction false} NumberMore(l: seq<bool>, b: bool)
    ensures Number(l + [b]) == Number(l) + if b then Pow2(|l|) else 0
  {
    if l == [] {
      assert l + [b] == [b] && [b][1..] == [];
    } else {
      NumberMore(l[1..], b);
      assert (l + [b])[1..] == l[1..] + [b];
    }
  }

  lemma Eighth(u: nat, i: nat)
    requires u < 8 && (u + i) % 8 == 0
    ensures u == 0 <==> i % 8 == 0
  {
  }

  /** The loop of asn1_bits_from_der_ex. */
  method BitsOf(p0: bytes, nbits: nat) returns (bits: nat)
    requires nbits <= 8 * |p0|
    ensures bits == Number(Next(0, 0, p0, nbits))
  {
    ghost var all, read: seq<bool>, u: nat := Next(0, 0, p0, nbits), [], 0;
    bits := 0;
    var p := p0;
    var c: byte, i: nat, place: nat := 0, 0, 1;
    assert read + all == all;
    while i < nbits
      invariant 0 <= i <= nbits && u < 8 && (u + i) % 8 == 0 && Reading(all, read, c, u, p, nbits - i)
      invariant |read| == i && place == Pow2(i) && bits == Number(read)
    {
      u := OneMoreBit(all, read, i, c, u, p, nbits - i);
      if i % 8 == 0 {
        c, p := p[0], p[1..];
      }
      if c >= 128 {
        bits := bits + place;
      }
      read := read + [c >= 128];
      c, place, i := Doubled(c), place * 2, i + 1;
    }
    assert read + [] == read;
  }

  // ------------------------------------------------------------ the round trip

  lemma TopBit(g: seq<bool>)
    requires 1 <= |g| <= 8
    ensures Doubled(Pack(g, 0)) == Pack(g[1..], 0) && (Pack(g, 0) >= 128 <==> g[0])
  {
    PackDouble(g[1..], 0);
    PackFirst(g);
    ShiftOut(Pack(g, 0), Pack(g[1..], 1), g[0]);
  }

  lemma PackFirst(g: seq<bool>)
    requires 1 <= |g| <= 8
    ensures Pack(g, 0) == (if g[0] then 128 else 0) + Pack(g[1..], 1) && Pack(g[1..], 1) < 128
  {
  }

  lemma ShiftOut(c: byte, x: nat, b: bool)
    requires x < 128 && c == (if b then 128 else 0) + x
    ensures Doubled(c) == 2 * x && (c >= 128 <==> b)
  {
  }

  /** The bits of one group are read off the top of its byte. */
  lemma {:induction false} GroupRead(g: seq<bool>, u: nat, p: bytes, m: nat)
    requires |g| <= u <= 8 && (m > 0 ==> u == |g|) && m <= 8 * |p|
    ensures Next(Pack(g, 0), u, p, |g| + m) == g + Next(0, 0, p, m)
    decreases |g|
  {
    if g == [] {
      assert g + Next(0, 0, p, m) == Next(0, 0, p, m);
    } else {
      var rest := g[1..];
      TopBit(g);
      GroupRead(rest, u - 1, p, m);
      assert [g[0]] + (rest + Next(0, 0, p, m)) == g + Next(0, 0, p, m);
    }
  }

  lemma {:induction false} ContentRead(l: seq<bool>)
    ensures Next(0, 0, Content(l), |l|) == l
    decreases |l|
  {
    if 0 < |l| <= 8 {
      GroupRead(l, 8, [], 0);
      assert Content(l)[1..] == [] && l + [] == l;
    } else if l != [] {
      var g, rest := l[..8], l[8..];
      ContentRead(rest);
      GroupRead(g, 8, Content(rest), |rest|);
      assert Content(l)[1..] == Content(rest) && g + rest == l;
    }
  }

  /** Every mask that is not negative is read back. */
  lemma MaskRoundTrip(tag: byte, bits: nat, rest: bytes)
    requires bits <= INT_MAX
    ensures MaskFromDer(tag, MaskString(tag, bits) + rest) == Got(bits, rest)
  {
    var l := MaskBits(bits);
    PowerWord();
    BitsSize(bits, 31);
    BitStringRoundTrip(tag, Content(l), |l|, rest);
    ContentRead(l);
    BitsNumber(bits);
  }
}
