/** The block modes of sm4_modes.c over any 16-byte block cipher: CBC with padding, CTR, and the
    streaming contexts that buffer an incomplete block. Output buffers are returned sequences. */
module BlockModes {
  type byte = bv8

  /** A mode on whole blocks: the output block and the next chaining value. */
  datatype Mode = Mode(out: (seq<byte>, seq<byte>) -> seq<byte>, next: (seq<byte>, seq<byte>) -> seq<byte>)

  ghost predicate SizesAt(m: Mode, s: seq<byte>, b: seq<byte>) {
    |s| == 16 && |b| == 16 ==> |m.out(s, b)| == 16 && |m.next(s, b)| == 16
  }

  ghost predicate Sizes(m: Mode) { forall s, b :: SizesAt(m, s, b) }

  function Run(m: Mode, s: seq<byte>, d: seq<byte>): seq<byte>
    requires |d| % 16 == 0
    decreases |d|
  {
    if d == [] then [] else m.out(s, d[..16]) + Run(m, m.next(s, d[..16]), d[16..])
  }

  function End(m: Mode, s: seq<byte>, d: seq<byte>): seq<byte>
    requires |d| % 16 == 0
    decreases |d|
  {
    if d == [] then s else End(m, m.next(s, d[..16]), d[16..])
  }

  lemma {:induction false} RunAppend(m: Mode, s: seq<byte>, a: seq<byte>, b: seq<byte>)
    requires |a| % 16 == 0 && |b| % 16 == 0
    ensures Run(m, s, a + b) == Run(m, s, a) + Run(m, End(m, s, a), b)
    ensures End(m, s, a + b) == End(m, End(m, s, a), b)
    decreases |a|
  {
    if a == [] {
      assert a + b == b;
    } else {
      RunAppend(m, m.next(s, a[..16]), a[16..], b);
      assert (a + b)[..16] == a[..16] && (a + b)[16..] == a[16..] + b;
    }
  }

  lemma {:induction false} RunSize(m: Mode, s: seq<byte>, d: seq<byte>)
    requires |d| % 16 == 0 && |s| == 16 && Sizes(m)
    ensures |Run(m, s, d)| == |d| && |End(m, s, d)| == 16
    decreases |d|
  {
    if d != [] {
      assert SizesAt(m, s, d[..16]);
      RunSize(m, m.next(s, d[..16]), d[16..]);
    }
  }

  /** sm4_cbc_encrypt, sm4_cbc_decrypt and sm4_ctr_encrypt on whole blocks. */
  method RunBlocks(m: Mode, s0: seq<byte>, d0: seq<byte>) returns (out: seq<byte>, s: seq<byte>)
    requires |d0| % 16 == 0
    ensures out == Run(m, s0, d0) && s == End(m, s0, d0)
  {
    var d := d0;
    out, s := [], s0;
    while d != []
      invariant |d| % 16 == 0
      invariant Run(m, s0, d0) == out + Run(m, s, d) && End(m, s0, d0) == End(m, s, d)
      decreases |d|
    {
      var b := d[..16];
      out := out + m.out(s, b);
      s := m.next(s, b);
      d := d[16..];
    }
  }

  lemma Assoc(a: seq<byte>, b: seq<byte>, c: seq<byte>)
    ensures a + (b + c) == a + b + c
    ensures a + [] == a
  {
  }

  lemma Cut(a: seq<byte>, c: seq<byte>, len: nat)
    requires len <= |c|
    ensures a + c[..len] + c[len..] == a + c
  {
    assert c == c[..len] + c[len..];
  }

  /** memcpy(a + at, c, |c|). */
  method Fill(a: array<byte>, at: nat, c: seq<byte>)
    requires at + |c| <= a.Length
    modifies a
    ensures a[..at + |c|] == old(a[..at]) + c
  {
    var i := 0;
    while i < |c|
      invariant 0 <= i <= |c| && a[..at + i] == old(a[..at]) + c[..i]
    {
      a[at + i] := c[i];
      i := i + 1;
      assert c[..i] == c[..i - 1] + [c[i - 1]];
    }
    assert c[..|c|] == c;
  }

  // ------------------------------------------------------------ streaming

  lemma Regroup(w: seq<byte>, x: seq<byte>, y: seq<byte>, z: seq<byte>)
    ensures (w + (x + y)) + z == (w + x) + (y + z)
  {
  }

  /** The bytes of n in whole blocks. */
  function WholeBlocks(n: nat): (r: nat)
    ensures r <= n < r + 16 && r % 16 == 0
  {
    n - n % 16
  }

  /** SM4_CBC_CTX and SM4_CTR_CTX: the chaining value and an incomplete block. */
  class Context {
    const m: Mode
    const block: array<byte>
    var state: seq<byte>
    var num: nat
    ghost const start: seq<byte>
    ghost var whole: seq<byte>

    ghost predicate Valid()
      reads this, block
    {
      block.Length == 16 && num <= 16 && |whole| % 16 == 0 && state == End(m, start, whole)
    }

    /** Everything passed to the update calls so far. */
    ghost function Data(): seq<byte>
      requires num <= block.Length
      reads this, block
    {
      whole + block[..num]
    }

    /** What the update calls have put out so far. */
    ghost function Output(): seq<byte>
      requires |whole| % 16 == 0
      reads this
    {
      Run(m, start, whole)
    }

    constructor (m: Mode, iv: seq<byte>)
      ensures Valid() && fresh(block) && Data() == [] && num == 0 && this.m == m && start == iv
    {
      this.m, state, num, start, whole := m, iv, 0, iv, [];
      block := new byte[16](_ => 0);
    }

    /** Whole blocks from the buffer or the input. */
    method Take(d: seq<byte>) returns (out: seq<byte>)
      requires |whole| % 16 == 0 && state == End(m, start, whole) && |d| % 16 == 0
      modifies this`state, this`whole
      ensures whole == old(whole) + d && state == End(m, start, whole)
      ensures Output() == old(Output()) + out
    {
      RunAppend(m, start, whole, d);
      out, state := RunBlocks(m, state, d);
      whole := whole + d;
    }

    /** Completing the buffered block; with strict more input than that must follow. */
    method TopUp(c0: seq<byte>, strict: bool) returns (done: bool, out: seq<byte>, c: seq<byte>)
      requires Valid() && (strict || num < 16)
      modifies this`state, this`whole, this`num, block
      ensures |whole| % 16 == 0 && state == End(m, start, whole) && Output() == old(Output()) + out
      ensures done ==> out == [] && c == [] && num <= 16 && (strict || num < 16)
      ensures done ==> num == old(num) + |c0| && Data() == old(Data()) + c0
      ensures !done ==> whole + c == old(Data()) + c0 && (strict ==> c != [])
    {
      var left := 16 - num;
      if |c0| < left || (strict && |c0| == left) {
        Fill(block, num, c0);
        num := num + |c0|;
        Assoc(whole, old(block[..num]), c0);
        return true, [], [];
      }
      var first, rest := c0[..left], c0[left..];
      Fill(block, num, first);
      assert block[..16] == old(block[..num]) + first;
      out := Take(block[..16]);
      Regroup(old(whole), old(block[..num]), first, rest);
      assert c0 == first + rest;
      return false, out, rest;
    }

    /** The first len bytes of c, and the rest into the buffer. */
    method TakeRest(c: seq<byte>, len: nat) returns (out: seq<byte>)
      requires block.Length == 16 && |whole| % 16 == 0 && state == End(m, start, whole)
      requires len <= |c| && len % 16 == 0 && |c| - len <= 16
      modifies this`state, this`whole, this`num, block
      ensures Valid() && num == |c| - len && whole == old(whole) + c[..len] && Data() == old(whole) + c
      ensures Output() == old(Output()) + out
    {
      var first, rest := c[..len], c[len..];
      ghost var before := whole;
      out := Take(first);
      num := |rest|;
      Fill(block, 0, rest);
      assert block[..num] == rest;
      Cut(before, c, len);
    }

    /** The same after some output out. */
    method TakeMore(c: seq<byte>, len: nat, out0: seq<byte>, ghost before: seq<byte>) returns (out: seq<byte>)
      requires block.Length == 16 && |whole| % 16 == 0 && state == End(m, start, whole) && Output() == before + out0
      requires len <= |c| && len % 16 == 0 && |c| - len <= 16
      modifies this`state, this`whole, this`num, block
      ensures Valid() && num == |c| - len && whole == old(whole) + c[..len] && Data() == old(whole) + c
      ensures Output() == before + out
    {
      var more := TakeRest(c, len);
      Assoc(before, out0, more);
      out := out0 + more;
    }

    /** sm4_cbc_encrypt_update and sm4_ctr_encrypt_update: an incomplete block waits. */
    method EncryptUpdate(c0: seq<byte>) returns (out: seq<byte>)
      requires Valid() && num < 16
      modifies this`state, this`whole, this`num, block
      ensures Valid() && num < 16 && Data() == old(Data()) + c0 && Output() == old(Output()) + out
    {
      var c := c0;
      out := [];
      if num > 0 {
        var done: bool;
        done, out, c := TopUp(c, false);
        if done {
          return;
        }
      }
      assert num == 0 && old(num) == 0 ==> old(Data()) == whole;
      assert whole + c == old(Data()) + c0;
      out := TakeMore(c, WholeBlocks(|c|), out, old(Output()));
    }

    /** sm4_cbc_decrypt_update: even a complete last block waits, as it may be the padding. */
    method DecryptUpdate(c0: seq<byte>) returns (out: seq<byte>)
      requires Valid() && (num == 0 ==> whole == [])
      modifies this`state, this`whole, this`num, block
      ensures Valid() && (num == 0 ==> whole == []) && Data() == old(Data()) + c0 && Output() == old(Output()) + out
    {
      var c := c0;
      out := [];
      if num > 0 {
        var done: bool;
        done, out, c := TopUp(c, true);
        if done {
          return;
        }
      }
      assert num == 0 && old(num) == 0 ==> old(Data()) == whole;
      assert whole + c == old(Data()) + c0;
      var len := if |c| > 16 then WholeBlocks(|c| - 1) else 0;
      out := TakeMore(c, len, out, old(Output()));
    }
  }
}
