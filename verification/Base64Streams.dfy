/** BASE64_CTX: encoding and decoding in pieces of any size. */
module Base64Streams {
  import opened Octets
  import opened Base64Groups
  import opened Base64

  /** memcpy into a buffer. */
  method Copy(buffer: array<byte>, at: nat, input: bytes)
    requires at + |input| <= buffer.Length
    modifies buffer
    ensures buffer[..at + |input|] == old(buffer[..at]) + input
  {
    forall i | 0 <= i < |input| { buffer[at + i] := input[i]; }
  }

  class Encoder {
    const c: Coder
    const encData: array<byte>
    var num: nat
    /** Everything given to the updates, and everything they put out. */
    ghost var fed: bytes
    ghost var sent: bytes

    ghost predicate Valid()
      reads this, encData
    {
      encData.Length == 80 && num < LINE && encData[..num] == Rest(fed) && sent == Lines(c, fed)
    }

    /** base64_encode_init. */
    constructor (c: Coder)
      ensures Valid() && fresh(encData) && this.c == c && fed == sent == []
    {
      this.c := c;
      encData, num, fed, sent := new byte[80], 0, [], [];
    }

    /** base64_encode_update. Only an empty input, or output longer than an int can count, is refused. */
    method Update(input: bytes) returns (ret: int, out: bytes)
      requires Valid()
      modifies this, encData
      ensures Valid() && ret == if input == [] || |Lines(c, old(Rest(fed)) + input)| > INT_MAX then 0 else 1
      ensures ret == 1 ==> fed == old(fed) + input && sent == old(sent) + out
    {
      out := [];
      if input == [] {
        return 0, [];
      }
      ghost var before := Rest(fed);
      LinesAppend(c, fed, input);
      if LINE - num > |input| {
        Copy(encData, num, input);
        num := num + |input|;
        fed := fed + input;
        assert sent + [] == sent;
        return 1, [];
      }
      var rest := input;
      if num != 0 {
        rest := FillLine(rest);
        var line := EncodeBlock(c, encData[..LINE]);
        out := line + [NEWLINE];
        FirstLine(before, input);
      } else {
        assert before + input == input && [] + Lines(c, input) == Lines(c, input);
      }
      out, rest := WholeLines(out, rest, before + input);
      if |out| > INT_MAX {
        num, fed, sent := 0, [], [];
        return 0, [];
      }
      Copy(encData, 0, rest);
      assert encData[..|rest|] == rest;
      assert out + [] == out;
      num, fed, sent, ret := |rest|, fed + input, sent + out, 1;
    }

    /** The line in the buffer is filled up. */
    method FillLine(input: bytes) returns (rest: bytes)
      requires encData.Length == 80 && num < LINE && LINE - num <= |input|
      modifies this`num, encData
      ensures num == 0 && encData[..LINE] + rest == old(encData[..num]) + input && |rest| < |input|
    {
      var i := LINE - num;
      Copy(encData, num, input[..i]);
      rest := input[i..];
      assert input[..i] + rest == input;
      Assoc(encData[..num], input[..i], rest);
      num := 0;
    }

    lemma FirstLine(before: bytes, input: bytes)
      requires |before| < LINE && |before| + |input| >= LINE
      ensures var d := before + input; Lines(c, d) == Encode(c, d[..LINE]) + [NEWLINE] + Lines(c, d[LINE..])
    {
    }

    /** The loop over whole lines, which stops when there is too much output. */
    method WholeLines(start: bytes, input: bytes, ghost all: bytes) returns (out: bytes, rest: bytes)
      requires start + Lines(c, input) == Lines(c, all) && Rest(input) == Rest(all)
      ensures |out| > INT_MAX <==> |Lines(c, all)| > INT_MAX
      ensures |out| <= INT_MAX ==> out == Lines(c, all) && rest == Rest(all)
    {
      out, rest := start, input;
      while |rest| >= LINE && |out| <= INT_MAX
        invariant out + Lines(c, rest) == Lines(c, all) && Rest(rest) == Rest(all)
        decreases |rest|
      {
        var line := EncodeBlock(c, rest[..LINE]);
        Assoc(out, line + [NEWLINE], Lines(c, rest[LINE..]));
        out, rest := out + (line + [NEWLINE]), rest[LINE..];
      }
    }

    /** base64_encode_finish: however the input was cut up, its text has been put out. */
    method Finish() returns (out: bytes)
      requires Valid()
      modifies this`num
      ensures num == 0 && sent + out == Text(c, fed)
    {
      out := [];
      if num != 0 {
        out := EncodeBlock(c, encData[..num]);
        out := out + [NEWLINE];
        num := 0;
      }
    }
  }

  // ------------------------------------------------------------ decoding

  /** The characters cs of the text so far: those in front of the buffer are decoded, and the padding
      count is that of the end of cs, as far as it still matters. */
  ghost predicate Scan(c: Coder, cs: bytes, buffer: bytes, eof: nat, sent: bytes) {
    |buffer| <= |cs| && (|cs| - |buffer|) % 4 == 0 && buffer == cs[|cs| - |buffer|..] &&
    sent == Decoded(c, cs[..|cs| - |buffer|]) && (buffer != [] ==> eof == Pads(cs)) && (eof > 0 ==> eof == Pads(cs))
  }

  /** Only padding follows padding, in the second half of a group. */
  lemma NextChar(c: Coder, cs: bytes, buffer: bytes, eof: nat, sent: bytes, a: byte)
    requires Scan(c, cs, buffer, eof, sent) && Good(cs + [a])
    ensures if a == PAD then eof + 1 <= 2 else eof == 0
    ensures Scan(c, cs + [a], buffer + [a], if a == PAD then eof + 1 else eof, sent)
  {
    var all, n := cs + [a], |cs|;
    assert all[|all| - |buffer + [a]|..] == buffer + [a] && all[..n - |buffer|] == cs[..n - |buffer|];
    assert all[n] == a;
    PadPlace(all, n);
    if n > 0 { PadPlace(all, n - 1); }
    if n > 1 { PadPlace(all, n - 2); }
  }

  /** Whole groups in the buffer are decoded: nothing in front of them is padded. */
  lemma Flushed(c: Coder, cs: bytes, buffer: bytes, eof: nat, sent: bytes)
    requires Laws(c) && Scan(c, cs, buffer, eof, sent) && Good(cs) && buffer != [] && |buffer| % 4 == 0
    ensures |Raw(c, buffer)| == |buffer| / 4 * 3 && eof <= |Raw(c, buffer)|
    ensures Scan(c, cs, [], eof, sent + Raw(c, buffer)[..|Raw(c, buffer)| - eof])
  {
    var w := cs[..|cs| - |buffer|];
    Parts(cs, |cs| - |buffer|);
    FlushedAt(c, w, buffer, eof);
  }

  lemma Parts(t: bytes, k: nat)
    requires k <= |t|
    ensures t == t[..k] + t[k..]
  {
  }

  lemma FlushedAt(c: Coder, w: bytes, buffer: bytes, eof: nat)
    requires Laws(c) && Good(w + buffer) && |w| % 4 == 0 && |buffer| % 4 == 0 && buffer != [] && eof == Pads(w + buffer)
    ensures |Raw(c, buffer)| == |buffer| / 4 * 3 && eof <= |Raw(c, buffer)|
    ensures Scan(c, w + buffer, [], eof, Decoded(c, w) + Raw(c, buffer)[..|Raw(c, buffer)| - eof])
  {
    DecodedParts(c, w, buffer);
    Fours(|w|, |buffer|);
    ScanAll(c, w + buffer, eof, Decoded(c, w + buffer));
  }

  lemma Fours(a: nat, b: nat)
    requires a % 4 == 0 && b % 4 == 0
    ensures (a + b) % 4 == 0
  {
  }

  lemma ScanAll(c: Coder, cs: bytes, eof: nat, sent: bytes)
    requires |cs| % 4 == 0 && sent == Decoded(c, cs) && eof == Pads(cs)
    ensures Scan(c, cs, [], eof, sent)
  {
    assert cs[..|cs|] == cs && cs[|cs|..] == [];
  }

  lemma DecodedParts(c: Coder, w: bytes, buffer: bytes)
    requires Laws(c) && Good(w + buffer) && |w| % 4 == 0 && |buffer| % 4 == 0 && buffer != []
    ensures var f, n := Raw(c, buffer), Pads(w + buffer);
      |f| == |buffer| / 4 * 3 && n <= |f| && Decoded(c, w + buffer) == Decoded(c, w) + f[..|f| - n]
  {
    NotPadded(w, buffer);
    RawAppend(c, w, buffer);
    RawSize(c, w);
    RawSize(c, buffer);
    CutBehind(Raw(c, w), Raw(c, buffer), Pads(w + buffer));
    assert Raw(c, w)[..|Raw(c, w)|] == Raw(c, w);
  }

  lemma PadPlace(t: bytes, i: nat)
    requires Good(t) && i < |t|
    ensures t[i] == PAD ==> PadAt(t, i)
  {
  }

  lemma NotPadded(w: bytes, more: bytes)
    requires Good(w + more) && more != [] && |w| % 4 == 0
    ensures Pads(w) == 0
  {
    if w != [] { PadPlace(w + more, |w| - 1); }
  }

  /** The padding count at the start of a call. */
  function Leftover(buffer: bytes): nat {
    if |buffer| > 0 && buffer[|buffer| - 1] == PAD then (if |buffer| > 1 && buffer[|buffer| - 2] == PAD then 2 else 1) else 0
  }

  lemma LeftoverPads(c: Coder, cs: bytes, buffer: bytes, sent: bytes)
    requires Good(cs) && Scan(c, cs, buffer, Pads(cs), sent)
    ensures Scan(c, cs, buffer, Leftover(buffer), sent)
  {
    var n, k := |cs|, |buffer|;
    if k > 0 {
      assert buffer[k - 1] == cs[n - 1];
      if cs[n - 1] == PAD { assert PadAt(cs, n - 1); }
      if k > 1 { assert buffer[k - 2] == cs[n - 2]; }
    }
  }

  /** What the loop has: 1 to go on, 0 after the end of input, -1 after an error; the buffer, the
      padding count, and the output. */
  datatype State = State(go: int, buffer: bytes, eof: nat, out: bytes)

  /** The padding count after a character, or -1 for a character that is not allowed. */
  function Admit(a: byte, eof: nat): int {
    var v := FromAscii(a);
    if v == ERROR then -1
    else if a != PAD && eof > 0 && !NotBase64(v) then -1
    else
      var e := if a == PAD then eof + 1 else eof;
      if e > 2 then -1 else e
  }

  /** What cleaning keeps of one byte. */
  function Kept(a: byte): bytes { if IsChar(a) then [a] else [] }

  /** The buffer is decoded, but for the padding. */
  function Emptied(c: Coder, s: State): State {
    var f := Raw(c, s.buffer);
    if s.eof > |f| then State(-1, [], s.eof, s.out) else State(s.go, [], s.eof, s.out + f[..|f| - s.eof])
  }

  function Feed(c: Coder, s: State, a: byte): State {
    var e := Admit(a, s.eof);
    if s.go != 1 then s
    else if e < 0 then s.(go := -1)
    else if FromAscii(a) == EOF then s.(go := 0, eof := e)
    else
      var t := State(1, s.buffer + Kept(a), e, s.out);
      if |t.buffer| == 64 then Emptied(c, t) else t
  }

  function FeedAll(c: Coder, s: State, input: bytes): State {
    if input == [] then s else Feed(c, FeedAll(c, s, input[..|input| - 1]), input[|input| - 1])
  }

  /** The end of a call: whole groups are decoded at once. The end of input inside a group is an error. */
  function Ended(c: Coder, s: State): State {
    if s.go == -1 || s.buffer == [] then s
    else if |s.buffer| % 4 == 0 then Emptied(c, s)
    else if s.go == 0 then s.(go := -1)
    else s
  }

  /** A call that starts with a buffer: final state. */
  function Call(c: Coder, buffer: bytes, input: bytes): State {
    Ended(c, FeedAll(c, State(1, buffer, Leftover(buffer), []), input))
  }

  class Decoder {
    const c: Coder
    const d: array<byte>
    var num: nat
    /** The text given to the updates, and the bytes they put out. */
    ghost var fed: bytes
    ghost var sent: bytes

    ghost predicate Valid()
      reads this, d
    {
      d.Length == 80 && num < 64 && Chars(d[..num])
    }

    /** base64_decode_init. */
    constructor (c: Coder)
      ensures Valid() && fresh(d) && this.c == c && num == 0 && fed == sent == [] && InStep(c, fed, d[..num], sent)
    {
      this.c := c;
      d, num, fed, sent := new byte[80], 0, [], [];
    }

    /** The block at the end of the loop body, and at the end of the call. */
    method Empty(n: nat, eof: nat, out0: bytes, ghost go: int) returns (ok: bool, out: bytes)
      requires n <= 64 && n % 4 == 0 && d.Length == 80 && Chars(d[..n]) && go >= 0
      ensures Emptied(c, State(go, d[..n], eof, out0)) == State(if ok then go else -1, [], eof, out)
    {
      out := out0;
      var decodedLen, block := DecodeBlock(c, d[..n]);
      ok := !(decodedLen < 0 || eof > decodedLen);
      if ok {
        out := out0 + block[..decodedLen - eof];
      }
    }

    /** The loop body. */
    method Char(a: byte, n0: nat, eof0: nat, out0: bytes) returns (go: int, n: nat, eof: nat, out: bytes)
      requires d.Length == 80 && n0 < 64 && Chars(d[..n0])
      modifies d
      ensures n < 64 && Chars(d[..n]) && go >= -1
      ensures State(go, d[..n], eof, out) == Feed(c, State(1, old(d[..n0]), eof0, out0), a)
    {
      n, eof, out := n0, eof0, out0;
      var admit := Admit(a, eof);
      if admit < 0 {
        return -1, n, eof, out;
      }
      eof := admit;
      if FromAscii(a) == EOF {
        return 0, n, eof, out;
      }
      ghost var buffer := d[..n];
      assert buffer + [] == buffer;
      if !NotBase64(FromAscii(a)) {
        Copy(d, n, [a]);
        n := n + 1;
      }
      assert d[..n] == buffer + Kept(a);
      go := 1;
      if n == 64 {
        var ok;
        ok, out := Empty(n, eof, out, 1);
        n := 0;
        assert d[..0] == [];
        go := if ok then 1 else -1;
      }
    }

    /** The loop. */
    method Loop(input: bytes, n0: nat, eof0: nat) returns (go: int, n: nat, eof: nat, out: bytes)
      requires d.Length == 80 && n0 < 64 && Chars(d[..n0])
      modifies d
      ensures n < 64 && Chars(d[..n]) && go >= -1
      ensures State(go, d[..n], eof, out) == FeedAll(c, State(1, old(d[..n0]), eof0, []), input)
    {
      ghost var start := State(1, d[..n0], eof0, []);
      go, n, eof, out := 1, n0, eof0, [];
      var i := 0;
      assert input[..0] == [];
      while i < |input| && go == 1
        invariant 0 <= i <= |input| && n < 64 && Chars(d[..n]) && go >= -1
        invariant State(go, d[..n], eof, out) == FeedAll(c, start, input[..i])
      {
        assert input[..i + 1][..i] == input[..i];
        go, n, eof, out := Char(input[i], n, eof, out);
        i := i + 1;
      }
      Stopped(c, start, input, i);
    }

    /** What follows the loop. */
    method Tail(go0: int, n0: nat, eof: nat, out0: bytes) returns (go: int, n: nat, out: bytes)
      requires d.Length == 80 && n0 < 64 && Chars(d[..n0]) && go0 >= -1
      ensures n <= n0 && go >= -1 && State(go, d[..n], eof, out) == Ended(c, State(go0, d[..n0], eof, out0))
    {
      go, n, out := go0, n0, out0;
      if go >= 0 && n > 0 {
        if n % 4 == 0 {
          var ok;
          ok, out := Empty(n, eof, out, go);
          n := 0;
          assert d[..0] == [];
          go := if ok then go else -1;
        } else if go == 0 {
          go := -1;
        }
      }
    }

    /** The loop and what follows it. */
    method Pass(input: bytes) returns (go: int, n: nat, eof: nat, out: bytes)
      requires Valid()
      modifies d
      ensures n < 64 && Chars(d[..n]) && go >= -1 && State(go, d[..n], eof, out) == Call(c, old(d[..num]), input)
    {
      go, n, eof, out := Loop(input, num, Leftover(d[..num]));
      go, n, out := Tail(go, n, eof, out);
    }

    /** base64_decode_update: what is left in the buffer by one call is decoded by later ones. As long as
        the text given so far can be continued to the text of some bytes, no call fails. */
    method Update(input: bytes) returns (rv: int, out: bytes)
      requires Valid()
      modifies this, d
      ensures Valid() && fed == old(fed) + input && sent == old(sent) + out
      ensures input == [] ==> rv == 0 && out == [] && d[..num] == old(d[..num])
      ensures input != [] ==> var r := Call(c, old(d[..num]), input);
        d[..num] == r.buffer && out == r.out && rv == if r.go == 1 then (if num == 0 && r.eof > 0 then 0 else 1) else r.go
      ensures Laws(c) && old(InStep(c, fed, d[..num], sent)) && Acceptable(fed) ==> rv >= 0 && InStep(c, fed, d[..num], sent)
    {
      CallStep(c, fed, d[..num], sent, input);
      out, fed := [], fed + input;
      if input == [] {
        assert fed == old(fed);
        return 0, [];
      }
      var go, n, eof;
      go, n, eof, out := Pass(input);
      rv := if go == 1 then (if n == 0 && eof > 0 then 0 else 1) else go;
      num, sent := n, sent + out;
    }
  }

  /** After an error or the end of input nothing more is looked at. */
  lemma {:induction false} Stopped(c: Coder, s: State, input: bytes, i: nat)
    requires i <= |input| && (i == |input| || FeedAll(c, s, input[..i]).go != 1)
    ensures FeedAll(c, s, input) == FeedAll(c, s, input[..i])
    decreases |input|
  {
    if i == |input| {
      assert input[..i] == input;
    } else {
      var front := input[..|input| - 1];
      assert front[..i] == input[..i];
      Stopped(c, s, front, i);
    }
  }

  // ------------------------------------------------------------ any way of cutting up a text

  /** A character that continues a good text keeps the loop in step. */
  lemma FeedKeeps(c: Coder, cs: bytes, s: State, a: byte, before: bytes)
    requires Laws(c) && s.go == 1 && |s.buffer| < 64 && Scan(c, cs, s.buffer, s.eof, before + s.out)
    requires LegalByte(a) && Good(cs + Kept(a))
    ensures var t := Feed(c, s, a);
      t.go == 1 && |t.buffer| < 64 && Scan(c, cs + Kept(a), t.buffer, t.eof, before + t.out)
  {
    if IsChar(a) {
      NextChar(c, cs, s.buffer, s.eof, before + s.out, a);
    } else {
      assert cs + [] == cs && s.buffer + [] == s.buffer;
    }
    var t := State(1, s.buffer + Kept(a), Admit(a, s.eof), s.out);
    if |t.buffer| == 64 { EmptiedKeeps(c, cs + Kept(a), t, before); }
  }

  lemma EmptiedKeeps(c: Coder, cs: bytes, s: State, before: bytes)
    requires Laws(c) && Good(cs) && s.buffer != [] && |s.buffer| % 4 == 0 && Scan(c, cs, s.buffer, s.eof, before + s.out)
    ensures var t := Emptied(c, s); t.go == s.go && t.buffer == [] && Scan(c, cs, [], t.eof, before + t.out)
  {
    Flushed(c, cs, s.buffer, s.eof, before + s.out);
    Assoc(before, s.out, Raw(c, s.buffer)[..|Raw(c, s.buffer)| - s.eof]);
  }

  lemma {:induction false} FeedAllKeeps(c: Coder, text: bytes, s: State, input: bytes, before: bytes)
    requires Laws(c) && s.go == 1 && |s.buffer| < 64 && Scan(c, Clean(text), s.buffer, s.eof, before + s.out)
    requires Acceptable(text + input)
    ensures var t := FeedAll(c, s, input);
      t.go == 1 && |t.buffer| < 64 && Scan(c, Clean(text + input), t.buffer, t.eof, before + t.out)
    decreases |input|
  {
    if input == [] {
      assert text + input == text;
    } else {
      var front, a := input[..|input| - 1], input[|input| - 1];
      assert text + input == (text + front) + [a];
      AcceptablePrefix(text + front, [a]);
      FeedAllKeeps(c, text, s, front, before);
      OneMore(text + front, a);
      FeedKeeps(c, Clean(text + front), FeedAll(c, s, front), a, before);
    }
  }

  lemma OneMore(text: bytes, a: byte)
    requires Acceptable(text + [a])
    ensures LegalByte(a) && Clean(text + [a]) == Clean(text) + Kept(a) && Good(Clean(text) + Kept(a))
  {
    var t := text + [a];
    assert t[..|t| - 1] == text && LegalByte(t[|t| - 1]);
  }

  /** Between calls: no whole group is left, and everything in front of the buffer has been put out. */
  ghost predicate InStep(c: Coder, text: bytes, buffer: bytes, sent: bytes) {
    |buffer| < 64 && (buffer == [] || |buffer| % 4 != 0) && Scan(c, Clean(text), buffer, Pads(Clean(text)), sent)
  }

  /** A call never refuses the continuation of a good text, and stays in step, wherever the text is cut. */
  lemma CallKeeps(c: Coder, text: bytes, buffer: bytes, sent: bytes, input: bytes)
    requires Laws(c) && InStep(c, text, buffer, sent) && Acceptable(text + input)
    ensures var r := Call(c, buffer, input); r.go == 1 && InStep(c, text + input, r.buffer, sent + r.out)
  {
    AcceptablePrefix(text, input);
    LeftoverPads(c, Clean(text), buffer, sent);
    var s := State(1, buffer, Leftover(buffer), []);
    assert sent + [] == sent;
    FeedAllKeeps(c, text, s, input, sent);
    var t := FeedAll(c, s, input);
    if t.buffer != [] && |t.buffer| % 4 == 0 { EmptiedKeeps(c, Clean(text + input), t, sent); }
  }

  lemma CallStep(c: Coder, text: bytes, buffer: bytes, sent: bytes, input: bytes)
    ensures Laws(c) && InStep(c, text, buffer, sent) && Acceptable(text + input) ==>
      var r := Call(c, buffer, input); r.go == 1 && InStep(c, text + input, r.buffer, sent + r.out)
  {
    if Laws(c) && InStep(c, text, buffer, sent) && Acceptable(text + input) { CallKeeps(c, text, buffer, sent, input); }
  }

  /** All calls of a run: the buffer after it, everything put out, and whether every call went on. */
  function Calls(c: Coder, pieces: seq<bytes>): (r: (bool, bytes, bytes)) {
    if pieces == [] then (true, [], [])
    else
      var (ok, buffer, sent) := Calls(c, pieces[..|pieces| - 1]);
      var s := Call(c, buffer, pieces[|pieces| - 1]);
      (ok && s.go == 1, s.buffer, sent + s.out)
  }

  function Joined(pieces: seq<bytes>): bytes {
    if pieces == [] then [] else Joined(pieces[..|pieces| - 1]) + pieces[|pieces| - 1]
  }

  lemma {:induction false} CallsKeep(c: Coder, pieces: seq<bytes>)
    requires Laws(c) && Acceptable(Joined(pieces))
    ensures var (ok, buffer, sent) := Calls(c, pieces); ok && InStep(c, Joined(pieces), buffer, sent)
  {
    if pieces == [] {
      Fresh(c);
    } else {
      var front, last := pieces[..|pieces| - 1], pieces[|pieces| - 1];
      AcceptablePrefix(Joined(front), last);
      CallsKeep(c, front);
      var (ok, buffer, sent) := Calls(c, front);
      CallKeeps(c, Joined(front), buffer, sent, last);
    }
  }

  lemma Fresh(c: Coder)
    ensures InStep(c, [], [], [])
  {
  }

  /** However the text of a byte string is cut into pieces, inside its lines or its padding or not at all,
      the calls put out exactly that string, none fails, and nothing stays in the buffer. */
  lemma AnyPieces(c: Coder, x: bytes, pieces: seq<bytes>)
    requires Laws(c) && Joined(pieces) == Text(c, x)
    ensures Calls(c, pieces) == (true, [], x)
  {
    TextDecodes(c, x);
    CallsKeep(c, pieces);
    var (ok, buffer, sent) := Calls(c, pieces);
    AllDecoded(c, x, buffer, sent);
  }

  /** When a text has been given to the updates, its bytes are out, and nothing is left for
      base64_decode_finish. */
  lemma AllDecoded(c: Coder, x: bytes, buffer: bytes, sent: bytes)
    requires Laws(c) && InStep(c, Text(c, x), buffer, sent)
    ensures Acceptable(Text(c, x)) && sent == x && buffer == []
  {
    TextDecodes(c, x);
    var cs := Clean(Text(c, x));
    FourLeft(|cs|, |buffer|);
    assert cs[..|cs|] == cs;
  }

  lemma FourLeft(a: nat, b: nat)
    requires b <= a && a % 4 == 0 && (a - b) % 4 == 0
    ensures b % 4 == 0
  {
  }
}
