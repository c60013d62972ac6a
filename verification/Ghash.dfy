/** GHASH of gcm.c, one-shot and streaming, over any field elements with a byte form. The
    instance with gf128.c is at the end. */
module Ghash {
  type byte = bv8

  /** The functions of gf128.c, and the block of the two bit lengths. */
  datatype Field<!G> = Field(zero: G, from: seq<byte> -> G, to: G -> seq<byte>, add: (G, G) -> G, mul: (G, G) -> G,
    lengths: (nat, nat) -> seq<byte>)

  function Zeros(n: nat): (s: seq<byte>)
    ensures |s| == n && forall i :: 0 <= i < n ==> s[i] == 0
  {
    if n == 0 then [] else Zeros(n - 1) + [0]
  }

  function Padded(d: seq<byte>): (s: seq<byte>)
    requires |d| <= 16
    ensures |s| == 16
  {
    d + Zeros(16 - |d|)
  }

  /** One block into the accumulator. */
  function Step<G>(f: Field<G>, H: G, X: G, block: seq<byte>): G {
    f.mul(f.add(X, f.from(block)), H)
  }

  /** All of d, the last block padded with zeros. */
  function Absorb<G>(f: Field<G>, H: G, X: G, d: seq<byte>): G
    decreases |d|
  {
    if d == [] then X
    else if |d| >= 16 then Absorb(f, H, Step(f, H, X, d[..16]), d[16..])
    else Step(f, H, X, Padded(d))
  }

  /** GHASH(H, A, C). */
  function Hash<G>(f: Field<G>, h: seq<byte>, aad: seq<byte>, c: seq<byte>): seq<byte> {
    var H := f.from(h);
    var X := Absorb(f, H, Absorb(f, H, f.zero, aad), c);
    f.to(Step(f, H, X, f.lengths(|aad|, |c|)))
  }

  /** The one-shot loops: whole blocks from the front, then the padded rest. */
  method AbsorbLoop<G>(f: Field<G>, H: G, X0: G, d0: seq<byte>) returns (X: G)
    ensures X == Absorb(f, H, X0, d0)
  {
    var d := d0;
    X := X0;
    while d != []
      invariant Absorb(f, H, X, d) == Absorb(f, H, X0, d0)
      decreases |d|
    {
      var A: G;
      if |d| >= 16 {
        A := f.from(d[..16]);
        d := d[16..];
      } else {
        A := f.from(Padded(d));
        d := [];
      }
      X := f.add(X, A);
      X := f.mul(X, H);
    }
  }

  /** ghash. */
  method OneShot<G>(f: Field<G>, h: seq<byte>, aad: seq<byte>, c: seq<byte>) returns (out: seq<byte>)
    ensures out == Hash(f, h, aad, c)
  {
    var H := f.from(h);
    var L := f.from(f.lengths(|aad|, |c|));
    var X := AbsorbLoop(f, H, f.zero, aad);
    X := AbsorbLoop(f, H, X, c);
    X := f.add(X, L);
    H := f.mul(X, H);
    out := f.to(H);
  }

  // ------------------------------------------------------------ the sum of section 6.4

  ghost predicate LawsAt<G(!new)>(f: Field<G>, x: G, y: G, z: G) {
    && f.mul(f.mul(x, y), z) == f.mul(x, f.mul(y, z))
    && f.mul(f.add(x, y), z) == f.add(f.mul(x, z), f.mul(y, z))
    && f.add(f.add(x, y), z) == f.add(x, f.add(y, z))
  }

  ghost predicate Laws<G(!new)>(f: Field<G>) { forall x, y, z :: LawsAt(f, x, y, z) }

  /** The blocks of d, the last one padded. */
  ghost function Blocks(d: seq<byte>): seq<seq<byte>>
    decreases |d|
  {
    if d == [] then [] else if |d| >= 16 then [d[..16]] + Blocks(d[16..]) else [Padded(d)]
  }

  /** H^n for n at least 1. */
  ghost function Power<G>(f: Field<G>, H: G, n: nat): G
    requires n > 0
  {
    if n == 1 then H else f.mul(Power(f, H, n - 1), H)
  }

  /** (X + B_1) H^n + B_2 H^(n-1) + ... + B_n H. */
  ghost function Sum<G>(f: Field<G>, H: G, X: G, bs: seq<seq<byte>>): G {
    if bs == [] then X
    else if |bs| == 1 then f.mul(f.add(X, f.from(bs[0])), H)
    else f.add(f.mul(f.add(X, f.from(bs[0])), Power(f, H, |bs|)), Tail(f, H, bs[1..]))
  }

  ghost function Tail<G>(f: Field<G>, H: G, bs: seq<seq<byte>>): G
    requires bs != []
  {
    if |bs| == 1 then f.mul(f.from(bs[0]), H)
    else f.add(f.mul(f.from(bs[0]), Power(f, H, |bs|)), Tail(f, H, bs[1..]))
  }

  ghost function Fold<G>(f: Field<G>, H: G, X: G, bs: seq<seq<byte>>): G
    decreases |bs|
  {
    if bs == [] then X else Fold(f, H, Step(f, H, X, bs[0]), bs[1..])
  }

  lemma {:induction false} AbsorbIsFold<G>(f: Field<G>, H: G, X: G, d: seq<byte>)
    ensures Absorb(f, H, X, d) == Fold(f, H, X, Blocks(d))
    decreases |d|
  {
    if |d| >= 16 {
      AbsorbIsFold(f, H, Step(f, H, X, d[..16]), d[16..]);
      assert Blocks(d)[1..] == Blocks(d[16..]);
    } else if d != [] {
      assert Fold(f, H, Step(f, H, X, Padded(d)), []) == Step(f, H, X, Padded(d));
      assert Blocks(d)[1..] == [];
    }
  }

  lemma {:induction false} PowerShift<G(!new)>(f: Field<G>, H: G, n: nat)
    requires Laws(f) && n > 0
    ensures f.mul(H, Power(f, H, n)) == Power(f, H, n + 1)
  {
    if n > 1 {
      PowerShift(f, H, n - 1);
      assert LawsAt(f, H, Power(f, H, n - 1), H);
    }
  }

  /** X H^n + the sum of the blocks times descending powers. */
  lemma {:induction false} FoldIsSum<G(!new)>(f: Field<G>, H: G, X: G, bs: seq<seq<byte>>)
    requires Laws(f) && bs != []
    ensures Fold(f, H, X, bs) == Sum(f, H, X, bs)
    decreases |bs|
  {
    var s := Step(f, H, X, bs[0]);
    if |bs| == 1 {
      assert Fold(f, H, s, bs[1..]) == s;
    } else {
      var rest, n := bs[1..], |bs| - 1;
      FoldIsSum(f, H, s, rest);
      SumSplits(f, H, s, rest);
      var x := f.add(X, f.from(bs[0]));
      assert LawsAt(f, x, H, Power(f, H, n));
      PowerShift(f, H, n);
    }
  }

  lemma SumSplits<G(!new)>(f: Field<G>, H: G, X: G, bs: seq<seq<byte>>)
    requires Laws(f) && bs != []
    ensures Sum(f, H, X, bs) == f.add(f.mul(X, Power(f, H, |bs|)), Tail(f, H, bs))
  {
    var b, p := f.from(bs[0]), Power(f, H, |bs|);
    assert LawsAt(f, X, b, p);
    if |bs| > 1 {
      assert LawsAt(f, f.mul(X, p), f.mul(b, p), Tail(f, H, bs[1..]));
    }
  }

  /** The accumulator of ghash is the sum of the blocks times descending powers of H. */
  lemma HashIsSum<G(!new)>(f: Field<G>, h: seq<byte>, aad: seq<byte>, c: seq<byte>)
    requires Laws(f)
    ensures Hash(f, h, aad, c) ==
      f.to(Sum(f, f.from(h), f.zero, Blocks(aad) + Blocks(c) + [f.lengths(|aad|, |c|)]))
  {
    var H, L := f.from(h), f.lengths(|aad|, |c|);
    AbsorbIsFold(f, H, f.zero, aad);
    AbsorbIsFold(f, H, Fold(f, H, f.zero, Blocks(aad)), c);
    FoldConcat(f, H, f.zero, Blocks(aad), Blocks(c));
    FoldConcat(f, H, f.zero, Blocks(aad) + Blocks(c), [L]);
    assert [L][1..] == [];
    FoldIsSum(f, H, f.zero, Blocks(aad) + Blocks(c) + [L]);
  }

  lemma {:induction false} FoldConcat<G>(f: Field<G>, H: G, X: G, a: seq<seq<byte>>, b: seq<seq<byte>>)
    ensures Fold(f, H, X, a + b) == Fold(f, H, Fold(f, H, X, a), b)
    decreases |a|
  {
    if a == [] {
      assert a + b == b;
    } else {
      FoldConcat(f, H, Step(f, H, X, a[0]), a[1..], b);
      assert (a + b)[1..] == a[1..] + b;
    }
  }

  // ------------------------------------------------------------ streaming

  /** Whole blocks first, then anything. */
  lemma {:induction false} AbsorbAppend<G>(f: Field<G>, H: G, X: G, a: seq<byte>, b: seq<byte>)
    requires |a| % 16 == 0
    ensures Absorb(f, H, X, a + b) == Absorb(f, H, Absorb(f, H, X, a), b)
    decreases |a|
  {
    if a == [] {
      assert a + b == b;
    } else {
      AbsorbAppend(f, H, Step(f, H, X, a[..16]), a[16..], b);
      assert (a + b)[..16] == a[..16] && (a + b)[16..] == a[16..] + b;
    }
  }

  lemma AbsorbBlock<G>(f: Field<G>, H: G, X: G, a: seq<byte>, b: seq<byte>)
    requires |a| % 16 == 0 && |b| == 16
    ensures Absorb(f, H, X, a + b) == Step(f, H, Absorb(f, H, X, a), b)
  {
    AbsorbAppend(f, H, X, a, b);
    assert b[..16] == b && b[16..] == [];
    assert Absorb(f, H, Step(f, H, Absorb(f, H, X, a), b), []) == Step(f, H, Absorb(f, H, X, a), b);
  }

  /** GHASH_CTX. The ghost field whole holds the bytes that X has absorbed. */
  class Context<G(==)> {
    var H: G
    var X: G
    var aadlen: nat
    var clen: nat
    const block: array<byte>
    var num: nat
    ghost var start: G
    ghost var whole: seq<byte>

    /** Whole blocks are in X, the rest is in the buffer. */
    ghost predicate Valid(f: Field<G>)
      reads this, block
    {
      block.Length == 16 && num < 16 && clen == |Data()| && Absorbed(f)
    }

    ghost predicate Absorbed(f: Field<G>)
      reads this
    {
      |whole| % 16 == 0 && X == Absorb(f, H, start, whole)
    }

    /** Everything passed to ghash_update so far. */
    ghost function Data(): seq<byte>
      requires num <= block.Length
      reads this, block
    {
      whole + block[..num]
    }

    /** ghash_init. */
    constructor (f: Field<G>, h: seq<byte>, aad: seq<byte>)
      ensures Valid(f) && fresh(block)
      ensures Data() == [] && H == f.from(h) && aadlen == |aad| && start == Absorb(f, f.from(h), f.zero, aad)
    {
      var H0 := f.from(h);
      var X0 := AbsorbLoop(f, H0, f.zero, aad);
      H, X, aadlen, clen, num := H0, X0, |aad|, 0, 0;
      block := new byte[16](_ => 0);
      start, whole := X0, [];
    }

    /** memcpy(ctx->block + at, c, |c|). */
    method Fill(at: nat, c: seq<byte>)
      requires block.Length == 16 && at + |c| <= 16
      modifies block
      ensures block[..at + |c|] == old(block[..at]) + c
    {
      var i := 0;
      while i < |c|
        invariant 0 <= i <= |c| && block[..at + i] == old(block[..at]) + c[..i]
      {
        block[at + i] := c[i];
        i := i + 1;
        assert c[..i] == c[..i - 1] + [c[i - 1]];
      }
      assert c[..|c|] == c;
    }

    /** One block from the buffer or the input. */
    method Take(f: Field<G>, b: seq<byte>)
      requires Absorbed(f) && |b| == 16
      modifies this`X, this`whole
      ensures Absorbed(f) && whole == old(whole) + b
    {
      var C := f.from(b);
      AbsorbBlock(f, H, start, whole, b);
      X := f.add(X, C);
      X := f.mul(X, H);
      whole := whole + b;
    }

    /** The loop over whole blocks of the input; what is left is shorter than a block. */
    method TakeAll(f: Field<G>, c0: seq<byte>) returns (c: seq<byte>)
      requires Absorbed(f)
      modifies this`X, this`whole
      ensures Absorbed(f) && |c| < 16 && whole + c == old(whole) + c0
    {
      c := c0;
      while |c| >= 16
        invariant Absorbed(f) && whole + c == old(whole) + c0
        decreases |c|
      {
        assert c == c[..16] + c[16..];
        Take(f, c[..16]);
        c := c[16..];
      }
    }

    /** Completing the buffered block, if the input suffices. */
    method TopUp(f: Field<G>, c0: seq<byte>) returns (done: bool, c: seq<byte>)
      requires Absorbed(f) && block.Length == 16 && num < 16
      modifies this`X, this`whole, this`num, block
      ensures Absorbed(f)
      ensures done ==> c == [] && num == old(num) + |c0| < 16 && Data() == old(Data()) + c0
      ensures !done ==> whole + c == old(Data()) + c0
    {
      var left := 16 - num;
      if |c0| < left {
        Fill(num, c0);
        num := num + |c0|;
        assert whole + (old(block[..num]) + c0) == whole + old(block[..num]) + c0;
        return true, [];
      }
      Fill(num, c0[..left]);
      ghost var b := block[..];
      assert b == old(block[..num]) + c0[..left];
      Take(f, block[..]);
      assert c0 == c0[..left] + c0[left..];
      return false, c0[left..];
    }

    /** ghash_update: any number of bytes at a time. */
    method Update(f: Field<G>, c0: seq<byte>)
      requires Valid(f)
      modifies this`X, this`whole, this`clen, this`num, block
      ensures Valid(f) && Data() == old(Data()) + c0
    {
      var c := c0;
      clen := clen + |c|;
      ghost var all := Data() + c0;
      if num > 0 {
        var done: bool;
        done, c := TopUp(f, c);
        if done {
          return;
        }
      }
      assert whole + c == all;
      c := TakeAll(f, c);
      num := |c|;
      Fill(0, c);
      assert block[..num] == c;
    }

    /** ghash_finish: the result is the one-shot GHASH of everything, however it was cut up. */
    method Finish(f: Field<G>, ghost h: seq<byte>, ghost aad: seq<byte>) returns (out: seq<byte>)
      requires Valid(f) && H == f.from(h) && aadlen == |aad| && start == Absorb(f, f.from(h), f.zero, aad)
      modifies this`X, this`H
      ensures out == Hash(f, h, aad, old(Data()))
    {
      AbsorbAppend(f, H, start, whole, block[..num]);
      if num > 0 {
        var C := f.from(Padded(block[..num]));
        X := f.add(X, C);
        X := f.mul(X, H);
      }
      var L := f.from(f.lengths(aadlen, clen));
      X := f.add(X, L);
      H := f.mul(X, H);
      out := f.to(H);
    }
  }
}
