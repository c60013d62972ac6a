/** Bytes as numbers, and the big-endian numbers and length-prefixed arrays of tls.c. */
module Octets {
  import opened Wrappers
  import Modular

  type byte = x: int | 0 <= x < 256
  type bytes = seq<byte>

  function Zeros(n: nat): bytes { seq(n, i => 0) }

  function Pow256(n: nat): (r: nat)
    ensures r > 0
  {
    if n == 0 then 1 else 256 * Pow256(n - 1)
  }

  /** The low n bytes of v, most significant first. */
  function BigEndian(n: nat, v: nat): (r: bytes)
    ensures |r| == n
  {
    if n == 0 then [] else BigEndian(n - 1, v / 256) + [v % 256]
  }

  function Value(b: bytes): (r: nat)
    ensures r < Pow256(|b|)
  {
    if b == [] then 0 else 256 * Value(b[..|b| - 1]) + b[|b| - 1]
  }

  lemma {:induction false} ValueOfBigEndian(n: nat, v: nat)
    requires v < Pow256(n)
    ensures Value(BigEndian(n, v)) == v
  {
    if n > 0 {
      ValueOfBigEndian(n - 1, v / 256);
      assert BigEndian(n, v)[..n - 1] == BigEndian(n - 1, v / 256);
    }
  }

  lemma {:induction false} BigEndianOfValue(b: bytes)
    ensures BigEndian(|b|, Value(b)) == b
  {
    if b != [] {
      BigEndianOfValue(b[..|b| - 1]);
      assert Value(b) / 256 == Value(b[..|b| - 1]) && Value(b) % 256 == b[|b| - 1];
    }
  }

  /** Digit by digit: byte i counts 256^(n - 1 - i). */
  lemma {:induction false} BigEndianAt(n: nat, v: nat, i: nat)
    requires i < n
    ensures BigEndian(n, v)[i] == v / Pow256(n - 1 - i) % 256
  {
    if i < n - 1 {
      BigEndianAt(n - 1, v / 256, i);
      DivideTwice(v, 256, Pow256(n - 2 - i));
    }
  }

  lemma DivideTwice(v: nat, x: nat, y: nat)
    requires x > 0 && y > 0
    ensures x * y > 0 && v / x / y == v / (x * y)
  {
    var q, r := v / x, v % x;
    var q', r' := q / y, q % y;
    assert v == q * x + r && q == q' * y + r';
    assert v == q' * (x * y) + (r' * x + r) by { assert q * x == q' * (x * y) + r' * x by { Spread(q', y, r', x); } }
    assert 0 <= r' * x + r < x * y by { Below(r', y, x, r); }
    Modular.DivUnique(v, q', r' * x + r, x * y);
  }

  lemma Spread(a: int, y: int, r: int, x: int)
    ensures (a * y + r) * x == a * (x * y) + r * x
  {
    assert (a * y) * x == a * (x * y);
  }

  lemma Below(r: int, y: int, x: int, s: int)
    requires 0 <= r < y && 0 <= s < x
    ensures 0 <= r * x + s < x * y
  {
    assert r * x <= (y - 1) * x;
  }

  lemma OneByte(v: nat)
    ensures BigEndian(1, v) == [v % 256]
  {
    assert BigEndian(0, v / 256) == [];
  }

  lemma TwoBytes(v: nat)
    ensures BigEndian(2, v) == [v / 256 % 256, v % 256]
  {
    OneByte(v / 256);
  }

  lemma ThreeBytes(v: nat)
    ensures BigEndian(3, v) == [v / 65536 % 256, v / 256 % 256, v % 256]
  {
    TwoBytes(v / 256);
    DivideTwice(v, 256, 256);
  }

  lemma Assoc<T>(a: seq<T>, b: seq<T>, c: seq<T>)
    ensures (a + b) + c == a + (b + c)
  {
  }

  // ------------------------------------------------------------ arrays with a length in front

  /** tls_uint8array_to_bytes, tls_uint16array_to_bytes and tls_uint24array_to_bytes, for n = 1, 2, 3. */
  function PutArray(n: nat, d: bytes): bytes { BigEndian(n, |d|) + d }

  /** tls_uint8array_from_bytes and its siblings: the array and what follows it. */
  function GetArray(n: nat, input: bytes): Option<(bytes, bytes)> {
    if |input| < n then None
    else
      var len := Value(input[..n]);
      if |input| - n < len then None else Some((input[n..n + len], input[n + len..]))
  }

  /** An array is read back, and nothing after it is touched. */
  lemma GetPut(n: nat, d: bytes, rest: bytes)
    requires |d| < Pow256(n)
    ensures GetArray(n, PutArray(n, d) + rest) == Some((d, rest))
  {
    var input := PutArray(n, d) + rest;
    ValueOfBigEndian(n, |d|);
    assert input[..n] == BigEndian(n, |d|);
    assert input[n..n + |d|] == d && input[n + |d|..] == rest;
  }
}
