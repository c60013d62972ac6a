/** The DER codecs of asn1.c for lengths, non-negative integers and lists of them. */
module Der {
  import opened Octets
  import Modular

  const INT_MAX := 0x7fff_ffff

  /** The out, outlen pair of every to_der function: with out NULL only the length is counted. */
  class Sink {
    const writes: bool
    var out: bytes
    var outlen: nat

    constructor (writes: bool)
      ensures this.writes == writes && out == [] && outlen == 0
    {
      this.writes, out, outlen := writes, [], 0;
    }

    method Put(d: bytes)
      modifies this
      ensures out == old(out) + Written(d) && outlen == old(outlen) + |d|
    {
      if writes {
        out := out + d;
      } else {
        assert out == out + [];
      }
      outlen := outlen + |d|;
    }

    function Written(d: bytes): bytes { if writes then d else [] }

    /** Two pieces written one after the other. */
    lemma Twice(before: bytes, a: bytes, b: bytes)
      ensures (before + Written(a)) + Written(b) == before + Written(a + b)
    {
      Assoc(before, Written(a), Written(b));
    }

    lemma FourTimes(before: bytes, a: bytes, b: bytes, c: bytes, d: bytes)
      ensures (((before + Written(a)) + Written(b)) + Written(c)) + Written(d) == before + Written(a + b + (c + d))
    {
      Twice(before, a, b);
      Twice(before + Written(a + b), c, d);
      Twice(before, a + b, c + d);
    }
  }

  /** The outcome of a from_der function: an error, a tag that is not there, or a value and what follows. */
  datatype Parse<T> = Bad | Absent | Got(value: T, rest: bytes)

  // ------------------------------------------------------------ lengths, section 8.1.3 of ITU-T X.690

  function LengthBytes(n: nat): nat { if n < 256 then 1 else if n < 65536 then 2 else if n < 0x100_0000 then 3 else 4 }

  /** Nothing is written for a length above INT_MAX. */
  function Length(n: nat): bytes {
    if n > INT_MAX then [] else if n < 128 then [n] else [0x80 + LengthBytes(n)] + BigEndian(LengthBytes(n), n)
  }

  lemma {:induction false} BigEndianSuffix(n: nat, k: nat, v: nat)
    requires k <= n
    ensures BigEndian(n, v)[n - k..] == BigEndian(k, v)
  {
    if k > 0 {
      BigEndianSuffix(n - 1, k - 1, v / 256);
    }
  }

  /** asn1_length_to_der. */
  method LengthToDer(len: nat, s: Sink) returns (ret: int)
    modifies s
    ensures ret == if len > INT_MAX then -1 else 1
    ensures s.out == old(s.out) + s.Written(Length(len)) && s.outlen == old(s.outlen) + |Length(len)|
  {
    if len > INT_MAX {
      assert s.out == s.out + [];
      return -1;
    }
    if len < 128 {
      s.Put([len]);
    } else {
      var nbytes := if len < 256 then 1 else if len < 65536 then 2 else if len < 0x100_0000 then 3 else 4;
      var buf := BigEndian(4, len);
      BigEndianSuffix(4, nbytes, len);
      s.Twice(s.out, [0x80 + nbytes], buf[4 - nbytes..]);
      s.Put([0x80 + nbytes]);
      s.Put(buf[4 - nbytes..]);
    }
    ret := 1;
  }

  /** asn1_length_from_der; that many bytes must follow. */
  function LengthFromDer(input: bytes): Parse<nat> {
    if input == [] then Bad
    else if input[0] < 128 then Enough(input[0], input[1..])
    else
      var nbytes := input[0] - 128;
      if nbytes < 1 || nbytes > 4 || |input| - 1 < nbytes then Bad
      else Enough(Value(input[1..1 + nbytes]), input[1 + nbytes..])
  }

  function Enough(len: nat, rest: bytes): Parse<nat> { if |rest| < len then Bad else Got(len, rest) }

  lemma LengthFits(n: nat)
    requires 128 <= n <= INT_MAX
    ensures n < Pow256(LengthBytes(n))
  {
    assert Pow256(0) == 1 && Pow256(1) == 256 && Pow256(2) == 65536 && Pow256(3) == 0x100_0000 && Pow256(4) == 0x1_0000_0000;
  }

  /** A length is read back, and the bytes behind it are left. */
  lemma LengthRoundTrip(n: nat, rest: bytes)
    requires n <= INT_MAX && n <= |rest|
    ensures LengthFromDer(Length(n) + rest) == Got(n, rest)
  {
    var k := LengthBytes(n);
    var input := Length(n) + rest;
    if n < 128 {
      assert input[1..] == rest;
    } else {
      LengthFits(n);
      ValueOfBigEndian(k, n);
      assert input[1..1 + k] == BigEndian(k, n) && input[1 + k..] == rest;
    }
  }

  /** Whatever reads as a length that can be written is at least as long, and only what is written is as short. */
  lemma LengthMinimal(n: nat, input: bytes, rest: bytes)
    requires n <= INT_MAX && LengthFromDer(input) == Got(n, rest)
    ensures |input| >= |Length(n)| + |rest|
    ensures |input| == |Length(n)| + |rest| ==> input == Length(n) + rest
  {
    if input[0] < 128 {
      assert input == [input[0]] + input[1..];
    } else {
      var k := input[0] - 128;
      var digits := input[1..1 + k];
      assert n < Pow256(k);
      assert input == [0x80 + k] + digits + rest;
      if n >= 128 {
        LengthNeeds(n, k);
        BigEndianOfValue(digits);
      }
    }
  }

  lemma LengthNeeds(n: nat, k: nat)
    requires 1 <= k <= 4 && 128 <= n < Pow256(k)
    ensures LengthBytes(n) <= k
  {
    assert Pow256(0) == 1 && Pow256(1) == 256 && Pow256(2) == 65536 && Pow256(3) == 0x100_0000;
  }

  // ------------------------------------------------------------ tagged contents

  function Tagged(tag: byte, content: bytes): bytes { [tag] + Length(|content|) + content }

  /** asn1_type_from_der, and the start of the other from_der functions. */
  function TaggedFromDer(tag: byte, input: bytes): Parse<bytes> {
    if input == [] || input[0] != tag then Absent
    else
      match LengthFromDer(input[1..])
      case Got(len, rest) => (LengthEnough(input[1..]); Got(rest[..len], rest[len..]))
      case _ => Bad
  }

  lemma LengthEnough(input: bytes)
    ensures match LengthFromDer(input) case Got(len, rest) => len <= |rest| && |rest| < |input| case _ => true
  {
  }

  lemma TaggedRoundTrip(tag: byte, content: bytes, rest: bytes)
    requires |content| <= INT_MAX
    ensures TaggedFromDer(tag, Tagged(tag, content) + rest) == Got(content, rest)
  {
    LengthRoundTrip(|content|, content + rest);
    TaggedParsed(tag, Length(|content|), content, rest);
  }

  lemma TaggedParsed(tag: byte, length: bytes, content: bytes, rest: bytes)
    requires LengthFromDer(length + (content + rest)) == Got(|content|, content + rest)
    ensures TaggedFromDer(tag, [tag] + length + content + rest) == Got(content, rest)
  {
    var input := [tag] + length + content + rest;
    assert input[1..] == length + (content + rest);
    assert (content + rest)[..|content|] == content && (content + rest)[|content|..] == rest;
  }

  // ------------------------------------------------------------ INTEGER, section 8.3 of ITU-T X.690

  /** A big-endian number without leading zeros; zero keeps one. */
  function Stripped(a: bytes): (r: bytes)
    requires a != []
    ensures r != [] && Value(r) == Value(a) && (|r| > 1 ==> r[0] != 0) && |r| <= |a|
  {
    if a[0] == 0 && |a| > 1 then ValueZero(a); Stripped(a[1..]) else a
  }

  lemma {:induction false} ValueZero(a: bytes)
    requires |a| > 1 && a[0] == 0
    ensures Value(a[1..]) == Value(a)
  {
    var front := a[..|a| - 1];
    assert a[1..][..|a| - 2] == front[1..];
    if |a| > 2 {
      ValueZero(front);
    } else {
      assert front == [0] && front[..0] == [] && a[1..][..0] == [];
    }
  }

  function IntegerContent(a: bytes): bytes
    requires a != []
  {
    if a[0] >= 0x80 then [0] + a else a
  }

  function Integer(tag: byte, a: bytes): bytes
    requires a != []
  {
    Tagged(tag, IntegerContent(Stripped(a)))
  }

  /** asn1_integer_to_der_ex, for data that are not NULL. */
  method IntegerToDer(tag: byte, a0: bytes, s: Sink) returns (ret: int)
    modifies s
    ensures ret == if a0 == [] || |a0| > INT_MAX then -1 else 1
    ensures ret == 1 ==> s.out == old(s.out) + s.Written(Integer(tag, a0)) && s.outlen == old(s.outlen) + |Integer(tag, a0)|
    ensures ret == -1 ==> s.out == old(s.out) && s.outlen == old(s.outlen)
  {
    if |a0| == 0 || |a0| > INT_MAX {
      return -1;
    }
    ghost var before := s.out;
    s.Put([tag]);
    var a := a0;
    while a[0] == 0 && |a| > 1
      invariant a != [] && Stripped(a) == Stripped(a0)
      decreases |a|
    {
      a := a[1..];
    }
    if a[0] >= 0x80 {
      var _ := LengthToDer(|a| + 1, s);
      s.Put([0]);
      s.Put(a);
      s.Twice(before, [tag], Length(|a| + 1));
      s.Twice(before, [tag] + Length(|a| + 1), [0]);
      s.Twice(before, [tag] + Length(|a| + 1) + [0], a);
      Assoc([tag] + Length(|a| + 1), [0], a);
    } else {
      var _ := LengthToDer(|a|, s);
      s.Put(a);
      s.Twice(before, [tag], Length(|a|));
      s.Twice(before, [tag] + Length(|a|), a);
    }
    ret := 1;
  }

  /** The checks of asn1_integer_from_der_ex on the content. */
  function IntegerOf(d: bytes): Parse<bytes> {
    if d == [] || d[0] >= 0x80 then Bad
    else if d[0] == 0 && |d| > 1 then (if d[1] < 0x80 then Bad else Got(d[1..], []))
    else Got(d, [])
  }

  /** asn1_integer_from_der_ex: the magnitude. */
  function IntegerFromDer(tag: byte, input: bytes): Parse<bytes> {
    match TaggedFromDer(tag, input)
    case Got(d, rest) =>
      (match IntegerOf(d)
       case Got(a, _) => Got(a, rest)
       case _ => Bad)
    case Absent => Absent
    case Bad => Bad
  }

  /** What is read is what was written without leading zeros: the same number. */
  lemma IntegerRoundTrip(tag: byte, a: bytes, rest: bytes)
    requires a != [] && |IntegerContent(Stripped(a))| <= INT_MAX
    ensures IntegerFromDer(tag, Integer(tag, a) + rest) == Got(Stripped(a), rest) && Value(Stripped(a)) == Value(a)
  {
    var c := IntegerContent(Stripped(a));
    TaggedRoundTrip(tag, c, rest);
    if Stripped(a)[0] >= 0x80 { assert c[1..] == Stripped(a); }
  }

  /** Only the content that is written for it reads as a magnitude. */
  lemma IntegerCanonical(d: bytes)
    ensures match IntegerOf(d)
      case Got(a, _) => a != [] && Stripped(a) == a && d == IntegerContent(a)
      case _ => forall a :: a != [] ==> IntegerContent(Stripped(a)) != d
  {
    forall a: bytes | a != [] ensures IntegerContent(Stripped(a)) == d ==> IntegerOf(d).Got? {
      var b := Stripped(a);
      if b[0] >= 0x80 { assert IntegerContent(b)[1] == b[0]; }
    }
    if IntegerOf(d).Got? && d[0] == 0 && |d| > 1 { assert d == [0] + d[1..]; }
  }

  // ------------------------------------------------------------ int

  /** The bytes of a positive int; of anything else one zero. */
  function Magnitude(a: int): (r: bytes)
    ensures r != []
    decreases if a > 0 then a else 0
  {
    if a <= 0 then [0] else if a < 256 then [a] else Magnitude(a / 256) + [a % 256]
  }

  lemma {:induction false} MagnitudeValue(a: int)
    ensures Value(Magnitude(a)) == (if a > 0 then a else 0) && Stripped(Magnitude(a)) == Magnitude(a)
    ensures a > 0 ==> Magnitude(a)[0] != 0
    decreases if a > 0 then a else 0
  {
    if a >= 256 {
      MagnitudeValue(a / 256);
      var m := Magnitude(a);
      assert m[..|m| - 1] == Magnitude(a / 256) && m[0] == Magnitude(a / 256)[0];
    } else {
      assert Magnitude(a)[..0] == [];
    }
  }

  lemma {:induction false} MagnitudeSize(a: int, n: nat)
    requires n >= 1 && a < Pow256(n)
    ensures |Magnitude(a)| <= n
  {
    if a >= 256 {
      assert Pow256(1) == 256 * Pow256(0) == 256;
      MagnitudeSize(a / 256, n - 1);
    }
  }

  /** The last len bytes of the buffer are done, and what is left over will complete them. */
  ghost predicate Filling(a0: int, a: int, len: nat, buf: bytes) {
    |buf| == 4 && len <= 4 && |Magnitude(a0)| <= 4 && a >= 0 &&
    Magnitude(a0) == if a > 0 then Magnitude(a) + buf[4 - len..] else buf[4 - len..]
  }

  lemma FillByte(a0: int, a: int, len: nat, buf: bytes)
    requires Filling(a0, a, len, buf) && a > 0
    ensures len < 4 && Filling(a0, a / 256, len + 1, buf[3 - len := a % 256])
  {
    var done := buf[4 - len..];
    assert |Magnitude(a) + done| > len;
    assert buf[3 - len := a % 256][3 - len..] == [a % 256] + done;
    if a >= 256 { Assoc(Magnitude(a / 256), [a % 256], done); }
  }

  /** The loop of asn1_int_to_der_ex, which fills a buffer from its end. */
  method IntToBuffer(a0: int) returns (d: bytes)
    requires a0 <= INT_MAX
    ensures d == Magnitude(a0)
  {
    var buf := new byte[4](_ => 0);
    var a, len: nat := a0, 0;
    FourBytes(a0);
    while a > 0
      invariant buf.Length == 4 && (a0 <= 0 ==> a == a0 && len == 0 && buf[3] == 0)
      invariant a0 > 0 ==> Filling(a0, a, len, buf[..])
      decreases a
    {
      ghost var before := buf[..];
      FillByte(a0, a, len, before);
      buf[3 - len] := a % 256;
      assert buf[..] == before[3 - len := buf[3 - len]];
      a, len := a / 256, len + 1;
    }
    if len == 0 {
      len := 1;
    }
    d := buf[4 - len..];
  }

  lemma FourBytes(a: int)
    requires a <= INT_MAX
    ensures |Magnitude(a)| <= 4
  {
    assert Pow256(0) == 1 && Pow256(1) == 256 && Pow256(2) == 65536 && Pow256(3) == 0x100_0000 && Pow256(4) == 0x1_0000_0000;
    MagnitudeSize(a, 4);
  }

  /** asn1_int_to_der_ex: -1 stands for a value that is not there. */
  method IntToDer(tag: byte, a: int, s: Sink) returns (ret: int)
    requires a <= INT_MAX
    modifies s
    ensures ret == if a == -1 then 0 else 1
    ensures ret == 1 ==> s.out == old(s.out) + s.Written(Integer(tag, Magnitude(a))) && s.outlen == old(s.outlen) + |Integer(tag, Magnitude(a))|
    ensures ret == 0 ==> s.out == old(s.out) && s.outlen == old(s.outlen)
  {
    if a == -1 {
      return 0;
    }
    FourBytes(a);
    var d := IntToBuffer(a);
    ret := IntegerToDer(tag, d, s);
  }

  /** The conversion to a 32-bit int. */
  function Signed(v: nat): int
    requires v < 0x1_0000_0000
  {
    if v > INT_MAX then v - 0x1_0000_0000 else v
  }

  /** asn1_int_from_der_ex. */
  function IntFromDer(tag: byte, input: bytes): Parse<nat> {
    match IntegerFromDer(tag, input)
    case Got(p, rest) => if |p| > 4 || Value(p) > INT_MAX then Bad else Got(Value(p), rest)
    case Absent => Absent
    case Bad => Bad
  }

  /** The loop of asn1_int_from_der_ex; -1 stands for a value that is not there or an error. */
  method ReadInt(tag: byte, input: bytes) returns (ret: int, a: int, rest: bytes)
    ensures match IntFromDer(tag, input)
      case Got(v, more) => ret == 1 && a == v && rest == more
      case Absent => ret == 0 && a == -1
      case Bad => ret == -1
  {
    a, rest := -1, input;
    match IntegerFromDer(tag, input) {
      case Absent => ret := 0;
      case Bad => ret := -1;
      case Got(p, more) =>
        if |p| > 4 {
          return -1, -1, input;
        }
        var v: int, i := 0, 0;
        ValueBelow(p);
        assert p[..|p|] == p;
        while i < |p|
          invariant 0 <= i <= |p| && v == Value(p[..i])
        {
          assert p[..i + 1][..i] == p[..i];
          v := v * 256 + p[i];
          i := i + 1;
        }
        a, rest := Signed(v), more;
        ret := if a < 0 then -1 else 1;
    }
  }

  lemma ValueBelow(p: bytes)
    requires |p| <= 4
    ensures Value(p) < 0x1_0000_0000
  {
    assert Pow256(0) == 1 && Pow256(1) == 256 && Pow256(2) == 65536 && Pow256(3) == 0x100_0000 && Pow256(4) == 0x1_0000_0000;
  }

  /** An int is read back exactly if it is not negative: of other negative numbers than -1 a zero is written. */
  lemma IntRoundTrip(tag: byte, a: int, rest: bytes)
    requires a <= INT_MAX
    ensures IntFromDer(tag, Integer(tag, Magnitude(a)) + rest) == Got(if a > 0 then a else 0, rest)
  {
    MagnitudeValue(a);
    FourBytes(a);
    IntegerRoundTrip(tag, Magnitude(a), rest);
  }
}
