/** Texts of four-character groups, for any code of up to three bytes as four characters. */
module Base64Groups {
  import opened Octets
  import Modular

  const LINE := 48
  const PAD: byte := 61
  const NEWLINE: byte := 10

  // ------------------------------------------------------------ the alphabet

  const EOLN := 0xF0
  const CR := 0xF1
  const EOF := 0xF2
  const WS := 0xE0
  const ERROR := 0xFF

  /** data_ascii2bin, and an error for bytes with the top bit. */
  function FromAscii(a: byte): int {
    if 65 <= a <= 90 then a - 65
    else if 97 <= a <= 122 then a - 97 + 26
    else if 48 <= a <= 57 then a - 48 + 52
    else if a == 43 then 62
    else if a == 47 then 63
    else if a == 61 then 0
    else if a == 9 || a == 32 then WS
    else if a == 10 then EOLN
    else if a == 13 then CR
    else if a == 45 then EOF
    else ERROR
  }

  /** B64_NOT_BASE64: the four values for white space, line ends and the end of input. */
  predicate NotBase64(v: int) { v == EOLN || v == CR || v == EOF || v == WS }

  predicate IsChar(a: byte) { FromAscii(a) < 64 }

  predicate Chars(t: bytes) { forall i :: 0 <= i < |t| ==> IsChar(t[i]) }

  // ------------------------------------------------------------ groups

  datatype Coder = Coder(encode: bytes -> bytes, decode: bytes -> bytes)

  function Encode(c: Coder, f: bytes): bytes {
    if f == [] then [] else if |f| <= 3 then c.encode(f) else c.encode(f[..3]) + Encode(c, f[3..])
  }

  /** All groups, padding characters counting as zeros. */
  function Raw(c: Coder, t: bytes): bytes {
    if |t| < 4 then [] else c.decode(t[..4]) + Raw(c, t[4..])
  }

  /** The number of padding characters at the end, at most two. */
  function Pads(t: bytes): nat {
    if |t| > 0 && t[|t| - 1] == PAD then (if |t| > 1 && t[|t| - 2] == PAD then 2 else 1) else 0
  }

  /** What a complete text stands for: one byte less for each padding character. */
  function Decoded(c: Coder, t: bytes): bytes {
    var f := Raw(c, t);
    if Pads(t) <= |f| then f[..|f| - Pads(t)] else []
  }

  /** One to three bytes become four characters, and come back when the padding is taken off. */
  ghost predicate CodeAt(c: Coder, f: bytes) {
    1 <= |f| <= 3 ==>
      var t := c.encode(f);
      |t| == 4 && Chars(t) && Pads(t) == 3 - |f| && |c.decode(t)| == 3 && c.decode(t)[..|f|] == f && t[0] != PAD && t[1] != PAD &&
      (|f| == 3 ==> t[2] != PAD)
  }

  ghost predicate Laws(c: Coder) { (forall f :: CodeAt(c, f)) && forall t :: SizeAt(c, t) }

  ghost predicate SizeAt(c: Coder, t: bytes) { |c.decode(t)| == 3 }

  // ------------------------------------------------------------ characters, good and complete

  /** What the decoder keeps of a text: white space and line ends are dropped. */
  function Clean(t: bytes): bytes {
    if t == [] then [] else Clean(t[..|t| - 1]) + if IsChar(t[|t| - 1]) then [t[|t| - 1]] else []
  }

  predicate LegalByte(a: byte) { FromAscii(a) != ERROR && FromAscii(a) != EOF }

  predicate Legal(t: bytes) { forall i :: 0 <= i < |t| ==> LegalByte(t[i]) }

  /** Padding only in the second half of a group, which is the last one, and nothing but padding after it. */
  predicate Good(t: bytes) {
    forall i {:trigger PadAt(t, i)} :: 0 <= i < |t| && t[i] == PAD ==> PadAt(t, i)
  }

  predicate PadAt(t: bytes, i: int)
    requires 0 <= i
  {
    i % 4 >= 2 && |t| <= i / 4 * 4 + 4 && forall j :: i < j < |t| ==> t[j] == PAD
  }

  /** A beginning of a text that decodes. */
  predicate Acceptable(t: bytes) { Legal(t) && Good(Clean(t)) }

  lemma {:induction false} CleanAppend(a: bytes, b: bytes)
    ensures Clean(a + b) == Clean(a) + Clean(b)
  {
    if b == [] {
      assert a + b == a;
    } else {
      var last := b[|b| - 1];
      CleanAppend(a, b[..|b| - 1]);
      assert (a + b)[..|a + b| - 1] == a + b[..|b| - 1];
      Assoc(Clean(a), Clean(b[..|b| - 1]), if IsChar(last) then [last] else []);
    }
  }

  lemma {:induction false} CleanChars(t: bytes)
    ensures Chars(Clean(t)) && (Chars(t) ==> Clean(t) == t)
  {
    if t != [] {
      CleanChars(t[..|t| - 1]);
      assert t == t[..|t| - 1] + [t[|t| - 1]];
    }
  }

  lemma GoodPrefix(a: bytes, b: bytes)
    requires Good(a + b)
    ensures Good(a)
  {
    forall i | 0 <= i < |a| && a[i] == PAD ensures PadAt(a, i) {
      assert (a + b)[i] == PAD && PadAt(a + b, i);
      forall j | i < j < |a| ensures a[j] == PAD { assert (a + b)[j] == PAD; }
    }
  }

  lemma AcceptablePrefix(a: bytes, b: bytes)
    requires Acceptable(a + b)
    ensures Acceptable(a) && Legal(b)
  {
    CleanAppend(a, b);
    GoodPrefix(Clean(a), Clean(b));
    forall i | 0 <= i < |a| ensures LegalByte(a[i]) { assert LegalByte((a + b)[i]); }
    forall i | 0 <= i < |b| ensures LegalByte(b[i]) { assert LegalByte((a + b)[|a| + i]); }
  }

  // ------------------------------------------------------------ the round trip of whole texts

  lemma {:induction false} RawAppend(c: Coder, a: bytes, b: bytes)
    requires |a| % 4 == 0
    ensures Raw(c, a + b) == Raw(c, a) + Raw(c, b)
    decreases |a|
  {
    if a == [] {
      assert a + b == b;
    } else {
      RawAppend(c, a[4..], b);
      assert (a + b)[..4] == a[..4] && (a + b)[4..] == a[4..] + b;
      Assoc(c.decode(a[..4]), Raw(c, a[4..]), Raw(c, b));
    }
  }

  lemma {:induction false} RawSize(c: Coder, t: bytes)
    requires Laws(c)
    ensures |Raw(c, t)| == |t| / 4 * 3
  {
    if |t| >= 4 {
      assert SizeAt(c, t[..4]);
      RawSize(c, t[4..]);
    }
  }

  /** A group in front changes neither padding nor goodness. */
  lemma GroupInFront(g: bytes, t: bytes)
    requires |g| == 4 && Pads(g) == 0 && t != [] && Good(t) && Chars(g) && Chars(t) && |t| % 4 == 0
    requires g[0] != PAD && g[1] != PAD && g[2] != PAD
    ensures Good(g + t) && Pads(g + t) == Pads(t) && Chars(g + t)
  {
    forall i | 0 <= i < |g + t| && (g + t)[i] == PAD ensures PadAt(g + t, i) {
      assert i >= 4 && t[i - 4] == PAD && PadAt(t, i - 4);
      forall j | i < j < |g + t| ensures (g + t)[j] == PAD { assert t[j - 4] == PAD; }
    }
  }

  lemma GroupGood(c: Coder, f: bytes)
    requires Laws(c) && 1 <= |f| <= 3
    ensures var t := c.encode(f); |t| == 4 && Good(t) && Chars(t) && Decoded(c, t) == f && Raw(c, t) == c.decode(t)
  {
    assert CodeAt(c, f);
    var t := c.encode(f);
    assert SizeAt(c, t);
    assert t[..4] == t && t[4..] == [];
    assert Raw(c, t) == c.decode(t) + [];
  }

  /** Decoding inverts encoding. */
  lemma {:induction false} EncodeDecodes(c: Coder, x: bytes)
    requires Laws(c)
    ensures var t := Encode(c, x); |t| % 4 == 0 && Chars(t) && Good(t) && Decoded(c, t) == x && (x != [] ==> t != [])
    decreases |x|
  {
    if 0 < |x| <= 3 {
      GroupGood(c, x);
    } else if x != [] {
      EncodeDecodes(c, x[3..]);
      DecodedFront(c, x[..3], x[3..], Encode(c, x[3..]));
      assert x == x[..3] + x[3..];
    }
  }

  lemma DecodedFront(c: Coder, x: bytes, y: bytes, t: bytes)
    requires Laws(c) && |x| == 3 && t != [] && |t| % 4 == 0 && Chars(t) && Good(t) && Decoded(c, t) == y
    ensures var u := c.encode(x) + t; |u| % 4 == 0 && Chars(u) && Good(u) && Decoded(c, u) == x + y
  {
    var g := c.encode(x);
    GroupGood(c, x);
    assert CodeAt(c, x);
    GroupInFront(g, t);
    DecodedJoin(c, g, t, x);
  }

  lemma DecodedJoin(c: Coder, g: bytes, t: bytes, x: bytes)
    requires Laws(c) && |g| == 4 && Raw(c, g) == x && t != [] && |t| % 4 == 0 && Pads(g + t) == Pads(t)
    ensures Decoded(c, g + t) == x + Decoded(c, t)
  {
    RawAppend(c, g, t);
    RawSize(c, t);
    CutBehind(x, Raw(c, t), Pads(t));
  }

  lemma CutBehind(x: bytes, f: bytes, n: nat)
    requires n <= |f|
    ensures (x + f)[..|x + f| - n] == x + f[..|f| - n]
  {
  }

  lemma EncodeThreeMore(c: Coder, x: bytes, y: bytes)
    requires |x| == 3
    ensures Encode(c, x + y) == Encode(c, x) + Encode(c, y)
  {
    assert (x + y)[..3] == x && (x + y)[3..] == y;
    if y == [] { assert x + y == x && Encode(c, x) + [] == Encode(c, x); }
  }

  lemma {:induction false} EncodeAppend(c: Coder, a: bytes, b: bytes)
    requires |a| % 3 == 0
    ensures Encode(c, a + b) == Encode(c, a) + Encode(c, b)
    decreases |a|
  {
    if a == [] {
      assert a + b == b;
    } else {
      var x, rest := a[..3], a[3..];
      EncodeAppend(c, rest, b);
      EncodeThreeMore(c, x, rest);
      EncodeThreeMore(c, x, rest + b);
      assert a == x + rest && a + b == x + (rest + b);
      Assoc(Encode(c, x), Encode(c, rest), Encode(c, b));
    }
  }

  // ------------------------------------------------------------ lines

  /** The full lines of a byte string, and the bytes behind them. */
  function Lines(c: Coder, d: bytes): bytes {
    if |d| < LINE then [] else Encode(c, d[..LINE]) + [NEWLINE] + Lines(c, d[LINE..])
  }

  function Rest(d: bytes): (r: bytes)
    ensures |r| < LINE
  {
    if |d| < LINE then d else Rest(d[LINE..])
  }

  function LastLine(c: Coder, r: bytes): bytes { if r == [] then [] else Encode(c, r) + [NEWLINE] }

  /** Lines of 64 characters, the last one maybe shorter, each with a line end. */
  function Text(c: Coder, d: bytes): bytes { Lines(c, d) + LastLine(c, Rest(d)) }

  lemma {:induction false} EncodeSize(c: Coder, f: bytes)
    requires Laws(c)
    ensures |Encode(c, f)| == (|f| + 2) / 3 * 4 && Chars(Encode(c, f))
    decreases |f|
  {
    if 0 < |f| <= 3 {
      assert CodeAt(c, f);
    } else if f != [] {
      assert CodeAt(c, f[..3]);
      EncodeSize(c, f[3..]);
    }
  }

  lemma FirstLine(c: Coder, d: bytes)
    requires |d| >= LINE
    ensures Text(c, d) == Encode(c, d[..LINE]) + [NEWLINE] + Text(c, d[LINE..])
  {
    Assoc(Encode(c, d[..LINE]) + [NEWLINE], Lines(c, d[LINE..]), LastLine(c, Rest(d[LINE..])));
  }

  lemma ShortText(c: Coder, d: bytes)
    requires |d| < LINE
    ensures Text(c, d) == LastLine(c, d)
  {
  }

  lemma {:induction false} TextSize(c: Coder, d: bytes)
    requires Laws(c)
    ensures |Text(c, d)| == (|d| + 2) / 3 * 4 + (|d| + 47) / 48
    decreases |d|
  {
    if |d| < LINE {
      ShortText(c, d);
      EncodeSize(c, d);
    } else {
      FirstLine(c, d);
      EncodeSize(c, d[..LINE]);
      TextSize(c, d[LINE..]);
    }
  }

  ghost predicate EndAt(t: bytes, p: nat)
    requires p < |t|
  {
    t[p] == NEWLINE <==> p % 65 == 64 || p == |t| - 1
  }

  /** A line end comes behind every 64 characters and at the very end, and nowhere else. */
  lemma {:induction false} LinesOf64(c: Coder, d: bytes, p: nat)
    requires Laws(c) && p < |Text(c, d)|
    ensures EndAt(Text(c, d), p)
    decreases |d|
  {
    if |d| < LINE {
      ShortText(c, d);
      EncodeSize(c, d);
      OneLine(Encode(c, d), [], p);
    } else {
      FirstLine(c, d);
      EncodeSize(c, d[..LINE]);
      if p >= 65 { LinesOf64(c, d[LINE..], p - 65); }
      OneLine(Encode(c, d[..LINE]), Text(c, d[LINE..]), p);
    }
  }

  lemma OneLine(line: bytes, more: bytes, p: nat)
    requires Chars(line) && |line| <= 64 && p < |line + [NEWLINE] + more|
    requires more != [] ==> |line| == 64 && (p >= 65 ==> EndAt(more, p - 65))
    ensures EndAt(line + [NEWLINE] + more, p)
  {
    if p < |line| {
      assert IsChar(line[p]);
    } else if p > |line| {
      assert p % 65 == (p - 65) % 65 by { Modular.ModShift(p - 65, 1, 65); }
    }
  }

  lemma {:induction false} LinesAppend(c: Coder, d: bytes, input: bytes)
    ensures Lines(c, d + input) == Lines(c, d) + Lines(c, Rest(d) + input)
    ensures Rest(d + input) == Rest(Rest(d) + input)
    decreases |d|
  {
    if |d| >= LINE {
      LinesAppend(c, d[LINE..], input);
      assert (d + input)[..LINE] == d[..LINE] && (d + input)[LINE..] == d[LINE..] + input;
      Assoc(Encode(c, d[..LINE]) + [NEWLINE], Lines(c, d[LINE..]), Lines(c, Rest(d) + input));
    }
  }

  lemma LegalAppend(a: bytes, b: bytes)
    requires Legal(a) && Legal(b)
    ensures Legal(a + b)
  {
  }

  /** A line is legal, and cleaning takes away the line end. */
  lemma LineClean(t: bytes)
    requires Chars(t)
    ensures Legal(t + [NEWLINE]) && Clean(t + [NEWLINE]) == t
  {
    CleanChars(t);
    NewlineClean();
    CleanAppend(t, [NEWLINE]);
    CharsLegal(t);
    LegalAppend(t, [NEWLINE]);
  }

  lemma NewlineClean()
    ensures Legal([NEWLINE]) && Clean([NEWLINE]) == []
  {
    assert [NEWLINE][..0] == [];
  }

  lemma CharsLegal(t: bytes)
    requires Chars(t)
    ensures Legal(t)
  {
    forall i | 0 <= i < |t| ensures LegalByte(t[i]) { assert IsChar(t[i]); }
  }

  lemma LineInFront(c: Coder, x: bytes, rest: bytes, text: bytes)
    requires Laws(c) && |x| == LINE && Legal(text) && Clean(text) == Encode(c, rest)
    ensures var t := Encode(c, x) + [NEWLINE] + text; Legal(t) && Clean(t) == Encode(c, x + rest)
  {
    var line := Encode(c, x) + [NEWLINE];
    EncodeDecodes(c, x);
    LineClean(Encode(c, x));
    CleanAppend(line, text);
    LegalAppend(line, text);
    EncodeAppend(c, x, rest);
  }

  lemma {:induction false} TextClean(c: Coder, d: bytes)
    requires Laws(c)
    ensures Legal(Text(c, d)) && Clean(Text(c, d)) == Encode(c, d)
    decreases |d|
  {
    if |d| < LINE {
      assert Text(c, d) == LastLine(c, d);
      EncodeDecodes(c, d);
      LineClean(Encode(c, d));
    } else {
      var x, rest := d[..LINE], d[LINE..];
      TextClean(c, rest);
      LineInFront(c, x, rest, Text(c, rest));
      Assoc(Encode(c, x) + [NEWLINE], Lines(c, rest), LastLine(c, Rest(rest)));
      assert d == x + rest;
    }
  }

  /** The loop of base64_encode_block; rest are the bytes that the input pointer is at. */
  method EncodeBlock(c: Coder, f: bytes) returns (t: bytes)
    ensures t == Encode(c, f)
  {
    t := [];
    var rest := f;
    while rest != []
      invariant t + Encode(c, rest) == Encode(c, f)
      decreases |rest|
    {
      if |rest| >= 3 {
        EncodeNext(c, t, rest);
        t, rest := t + c.encode(rest[..3]), rest[3..];
      } else {
        t, rest := t + c.encode(rest), [];
      }
    }
  }

  lemma EncodeNext(c: Coder, t: bytes, rest: bytes)
    requires |rest| >= 3
    ensures t + Encode(c, rest) == (t + c.encode(rest[..3])) + Encode(c, rest[3..])
  {
    if |rest| == 3 {
      assert rest[..3] == rest && c.encode(rest) + [] == c.encode(rest);
    }
    Assoc(t, c.encode(rest[..3]), Encode(c, rest[3..]));
  }

  lemma CharsFrom(f: bytes)
    requires |f| >= 4 && IsChar(f[0]) && IsChar(f[1]) && IsChar(f[2]) && IsChar(f[3])
    ensures Chars(f) <==> Chars(f[4..])
  {
    if Chars(f[4..]) {
      forall i | 0 <= i < |f| ensures IsChar(f[i]) {
        if i >= 4 { assert IsChar(f[4..][i - 4]); }
      }
    }
  }

  /** The loop of base64_decode_block over the groups. */
  method DecodeGroups(c: Coder, t: bytes) returns (ret: int, out: bytes)
    requires |t| % 4 == 0
    ensures if Chars(t) then ret == |out| && out == Raw(c, t) else ret == -1
  {
    out := [];
    var f := t;
    while f != []
      invariant |f| % 4 == 0 && (Chars(t) <==> Chars(f)) && out + Raw(c, f) == Raw(c, t)
      decreases |f|
    {
      if FromAscii(f[0]) >= 0x80 || FromAscii(f[1]) >= 0x80 || FromAscii(f[2]) >= 0x80 || FromAscii(f[3]) >= 0x80 {
        return -1, [];
      }
      Assoc(out, c.decode(f[..4]), Raw(c, f[4..]));
      CharsFrom(f);
      out, f := out + c.decode(f[..4]), f[4..];
    }
    ret := |out|;
  }

  /** White space at the front and line ends at the back are dropped. */
  method Trim(t: bytes) returns (f: bytes)
    ensures Chars(t) ==> f == t
  {
    f := t;
    while f != [] && FromAscii(f[0]) == WS
      invariant Chars(t) ==> f == t
      decreases |f|
    {
      f := f[1..];
    }
    var n := |f|;
    while n > 3 && NotBase64(FromAscii(f[n - 1]))
      invariant 0 <= n <= |f| && (Chars(t) ==> n == |f|)
    {
      n := n - 1;
    }
    f := f[..n];
  }

  /** base64_decode_block. */
  method DecodeBlock(c: Coder, t: bytes) returns (ret: int, out: bytes)
    ensures ret == -1 || ret == |out|
    ensures Chars(t) ==> if |t| % 4 == 0 then ret == |out| && out == Raw(c, t) else ret == -1
  {
    out := [];
    var f := Trim(t);
    if |f| % 4 != 0 {
      return -1, [];
    }
    ret, out := DecodeGroups(c, f);
  }

  /** The text of any byte string is acceptable and complete, and its characters decode to the string. */
  lemma TextDecodes(c: Coder, d: bytes)
    requires Laws(c)
    ensures var t := Clean(Text(c, d)); Acceptable(Text(c, d)) && |t| % 4 == 0 && Decoded(c, t) == d
  {
    TextClean(c, d);
    EncodeDecodes(c, d);
  }
}

/** The code of base64.c. */
module Base64 {
  import opened Octets
  import opened Base64Groups
  import Modular

  const INT_MAX := 0x7fff_ffff

  /** data_bin2ascii: the letters, the digits, plus and slash. */
  function ToAscii(v: int): (a: byte)
    requires 0 <= v < 64
    ensures FromAscii(a) == v && a != PAD
  {
    if v < 26 then 65 + v else if v < 52 then 97 + (v - 26) else if v < 62 then 48 + (v - 52) else if v == 62 then 43 else 47
  }

  function Group3(f0: nat, f1: nat, f2: nat): nat { 65536 * f0 + 256 * f1 + f2 }

  /** conv_bin2ascii of l shifted right: the low six bits of l / k. */
  function Letter(l: nat, k: nat): (a: byte)
    requires k > 0
    ensures a != PAD && FromAscii(a) == l / k % 64
  {
    ToAscii(l / k % 64)
  }

  function At(f: bytes, i: nat): nat { if i < |f| then f[i] else 0 }

  /** Three, two or one bytes as four characters. */
  function EncodeGroup(f: bytes): (t: bytes)
    ensures |t| == 4
  {
    var l := Group3(At(f, 0), At(f, 1), At(f, 2));
    [Letter(l, 262144), Letter(l, 4096), if |f| < 2 then PAD else Letter(l, 64), if |f| < 3 then PAD else Letter(l, 1)]
  }

  function Weight(t: bytes): nat {
    if |t| == 4 then 262144 * FromAscii(t[0]) + 4096 * FromAscii(t[1]) + 64 * FromAscii(t[2]) + FromAscii(t[3]) else 0
  }

  /** Four characters as three bytes. */
  function DecodeGroup(t: bytes): (f: bytes)
    ensures |f| == 3
  {
    var l := Weight(t);
    [l / 65536 % 256, l / 256 % 256, l % 256]
  }

  function Code(): Coder { Coder(EncodeGroup, DecodeGroup) }

  /** The two branches of the loop body of base64_encode_block. */
  method EncodeThree(f: bytes) returns (group: bytes)
    requires |f| >= 3
    ensures group == EncodeGroup(f[..3])
  {
    var l := Group3(f[0], f[1], f[2]);
    group := [Letter(l, 262144), Letter(l, 4096), Letter(l, 64), Letter(l, 1)];
  }

  method EncodeLast(f: bytes) returns (group: bytes)
    requires 1 <= |f| <= 2
    ensures group == EncodeGroup(f)
  {
    var l: nat := Group3(f[0], 0, 0);
    if |f| == 2 {
      l := Group3(f[0], f[1], 0);
    }
    group := [Letter(l, 262144), Letter(l, 4096), if |f| == 1 then PAD else Letter(l, 64), PAD];
  }

  lemma GroupRoundTrip(f: bytes)
    ensures CodeAt(Code(), f)
  {
    if 1 <= |f| <= 3 {
      var l := Group3(f[0], At(f, 1), At(f, 2));
      var t := EncodeGroup(f);
      Sextets(f[0], At(f, 1), At(f, 2), l);
      Weights(|f|, t, l / 262144 % 64, l / 4096 % 64, l / 64 % 64, l % 64);
      assert DecodeGroup(t) == [f[0], At(f, 1), At(f, 2)];
    }
  }

  /** Replacing zero digits by padding characters, which count as zero, changes nothing. */
  lemma Weights(n: nat, t: bytes, a: int, b: int, c: int, d: int)
    requires 1 <= n <= 3 && |t| == 4 && FromAscii(t[0]) == a && FromAscii(t[1]) == b
    requires if n < 2 then t[2] == PAD && c == 0 else FromAscii(t[2]) == c
    requires if n < 3 then t[3] == PAD && d == 0 else FromAscii(t[3]) == d
    ensures Weight(t) == 262144 * a + 4096 * b + 64 * c + d
  {
  }

  /** The six-bit digits of a 24-bit number. */
  lemma Sextets(f0: byte, f1: byte, f2: byte, l: int)
    requires l == Group3(f0, f1, f2)
    ensures l == 262144 * (l / 262144 % 64) + 4096 * (l / 4096 % 64) + 64 * (l / 64 % 64) + l % 64
    ensures l / 65536 % 256 == f0 && l / 256 % 256 == f1 && l % 256 == f2
    ensures f2 == 0 ==> l % 64 == 0
    ensures f1 == 0 && f2 == 0 ==> l / 64 % 64 == 0
  {
    var b, c := f0 % 4 * 16 + f1 / 16, f1 % 16 * 4 + f2 / 64;
    Digits4(l, f0 / 4, b, c, f2 % 64, 64);
    Digits4(l, 0, f0, f1, f2, 256);
  }

  /** Four digits to a base are found by dividing. */
  lemma Digits4(l: int, a: int, b: int, c: int, d: int, n: int)
    requires (n == 64 || n == 256) && 0 <= a < n && 0 <= b < n && 0 <= c < n && 0 <= d < n
    requires l == ((a * n + b) * n + c) * n + d
    ensures l % n == d && l / n % n == c && l / (n * n) % n == b && l / (n * n * n) % n == a
  {
    var x, y := a * n + b, (a * n + b) * n + c;
    Modular.ModUnique(l, y, d, n);
    Modular.DivUnique(l, y, d, n);
    Modular.ModUnique(y, x, c, n);
    Modular.ModUnique(x, a, b, n);
    Modular.ModUnique(a, 0, a, n);
    DivSquare(l, x, c, d, n);
    Below(c, d, n);
    assert l == x * (n * n) + (c * n + d);
    DivCube(l, a, b, c * n + d, n, n * n);
    assert n * (n * n) == n * n * n;
  }

  lemma DivSquare(l: int, x: int, c: int, d: int, n: int)
    requires n > 0 && 0 <= c < n && 0 <= d < n && l == (x * n + c) * n + d
    ensures l / (n * n) == x
  {
    Below(c, d, n);
    assert l == x * (n * n) + (c * n + d);
    Modular.DivUnique(l, x, c * n + d, n * n);
  }

  lemma DivCube(l: int, a: int, b: int, r: int, n: int, m: int)
    requires n > 0 && m > 0 && 0 <= b < n && 0 <= r < m && l == (a * n + b) * m + r
    ensures n * m > 0 && l / (n * m) == a
  {
    assert (n - 1 - b) * m >= 0 && n * m > 0;
    assert l == a * (n * m) + (b * m + r);
    Modular.DivUnique(l, a, b * m + r, n * m);
  }

  lemma Below(c: int, d: int, n: int)
    requires n > 0 && 0 <= c && 0 <= d < n
    ensures 0 <= c * n + d && (c < n ==> c * n + d < n * n)
  {
    if c < n { assert (n - 1 - c) * n >= 0; }
  }

  /** The characters of a group: the sextets of its bytes, the first byte in front. */
  lemma GroupIs(a: byte, b: byte, c: byte)
    ensures EncodeGroup([a, b, c]) == [ToAscii(a / 4), ToAscii(a % 4 * 16 + b / 16), ToAscii(b % 16 * 4 + c / 64), ToAscii(c % 64)]
    ensures EncodeGroup([a, b]) == [ToAscii(a / 4), ToAscii(a % 4 * 16 + b / 16), ToAscii(b % 16 * 4), 61]
    ensures EncodeGroup([a]) == [ToAscii(a / 4), ToAscii(a % 4 * 16), 61, 61]
  {
    GroupLetters(a, b, c);
    GroupLetters(a, b, 0);
    GroupLetters(a, 0, 0);
  }

  lemma GroupLetters(a: byte, b: byte, c: byte)
    ensures
      var l := Group3(a, b, c);
      l / 262144 % 64 == a / 4 && l / 4096 % 64 == a % 4 * 16 + b / 16 && l / 64 % 64 == b % 16 * 4 + c / 64 && l % 64 == c % 64
  {
    Digits4(Group3(a, b, c), a / 4, a % 4 * 16 + b / 16, b % 16 * 4 + c / 64, c % 64, 64);
  }

  lemma CodeLaws()
    ensures Laws(Code())
  {
    forall f: bytes ensures CodeAt(Code(), f) { GroupRoundTrip(f); }
    forall t: bytes ensures SizeAt(Code(), t) { }
  }
}
