/** The round structure of SM4 over words of any type: the recurrence
    X[i+4] = X[i] xor T(X[i+1] xor X[i+2] xor X[i+3] xor rk[i]), the five rotating registers that
    compute it, the key schedule, and decryption as encryption with the keys reversed. */
module Sm4Rounds {

  datatype Words<!W> = Words(xor: (W, W) -> W, t: W -> W)

  ghost predicate LawsAt<W(!new)>(f: Words<W>, x: W, y: W, z: W) {
    && f.xor(x, y) == f.xor(y, x)
    && f.xor(f.xor(x, y), z) == f.xor(x, f.xor(y, z))
    && f.xor(f.xor(x, y), y) == x
  }

  ghost predicate Laws<W(!new)>(f: Words<W>) { forall x, y, z :: LawsAt(f, x, y, z) }

  /** Four consecutive words of the recurrence. */
  datatype State<W> = State(a: W, b: W, c: W, d: W)

  function Next<W>(f: Words<W>, x0: W, x1: W, x2: W, x3: W, rk: W): W {
    f.xor(x0, f.t(f.xor(f.xor(f.xor(x1, x2), x3), rk)))
  }

  function Step<W>(f: Words<W>, s: State<W>, rk: W): State<W> {
    State(s.b, s.c, s.d, Next(f, s.a, s.b, s.c, s.d, rk))
  }

  function Steps<W>(f: Words<W>, s: State<W>, rks: seq<W>): State<W> {
    if rks == [] then s else Step(f, Steps(f, s, rks[..|rks| - 1]), rks[|rks| - 1])
  }

  function Flip<W>(s: State<W>): State<W> { State(s.d, s.c, s.b, s.a) }

  /** The whole cipher on words. */
  function Crypt<W>(f: Words<W>, s: State<W>, rks: seq<W>): State<W> { Flip(Steps(f, s, rks)) }

  function Reversed<W>(s: seq<W>): seq<W> {
    if s == [] then [] else [s[|s| - 1]] + Reversed(s[..|s| - 1])
  }

  lemma StepSnoc<W>(f: Words<W>, s: State<W>, rks: seq<W>, rk: W)
    ensures Steps(f, s, rks + [rk]) == Step(f, Steps(f, s, rks), rk)
  {
    assert (rks + [rk])[..|rks|] == rks;
  }

  lemma {:induction false} StepsCons<W>(f: Words<W>, s: State<W>, rk: W, rks: seq<W>)
    ensures Steps(f, s, [rk] + rks) == Steps(f, Step(f, s, rk), rks)
    decreases |rks|
  {
    if rks == [] {
      assert [rk] + rks == [rk] && [rk][..0] == [];
    } else {
      var init, last := rks[..|rks| - 1], rks[|rks| - 1];
      StepsCons(f, s, rk, init);
      assert [rk] + rks == ([rk] + init) + [last];
      StepSnoc(f, s, [rk] + init, last);
    }
  }

  /** A step with the same key, seen from the other end, undoes a step. */
  lemma StepBack<W(!new)>(f: Words<W>, s: State<W>, rk: W)
    requires Laws(f)
    ensures Step(f, Flip(Step(f, s, rk)), rk) == Flip(s)
  {
    assert LawsAt(f, s.b, s.c, s.d) && LawsAt(f, s.d, s.c, s.b) && LawsAt(f, s.c, s.d, s.b) && LawsAt(f, f.xor(s.b, s.c), s.d, s.d);
    assert LawsAt(f, s.a, f.t(f.xor(f.xor(f.xor(s.b, s.c), s.d), rk)), s.a);
  }

  /** Decryption is the same cipher with the round keys in reverse order. */
  lemma {:induction false} CryptInverts<W(!new)>(f: Words<W>, s: State<W>, rks: seq<W>)
    requires Laws(f)
    ensures Crypt(f, Crypt(f, s, rks), Reversed(rks)) == s
  {
    if rks == [] {
    } else {
      var init, last := rks[..|rks| - 1], rks[|rks| - 1];
      CryptInverts(f, s, init);
      StepBack(f, Steps(f, s, init), last);
      StepsCons(f, Crypt(f, s, rks), last, Reversed(init));
    }
  }

  lemma {:induction false} ReversedAt<W>(s: seq<W>, i: nat)
    requires i < |s|
    ensures |Reversed(s)| == |s| && Reversed(s)[i] == s[|s| - 1 - i]
  {
    if |s| > 1 { ReversedAt(s[..|s| - 1], if i > 0 then i - 1 else 0); }
  }

  // ------------------------------------------------------------ five registers

  /** The state after i rounds. */
  ghost predicate After<W>(f: Words<W>, rk: seq<W>, i: nat, s: State<W>, a: W, b: W, c: W, d: W) {
    i <= |rk| && Steps(f, s, rk[..i]) == State(a, b, c, d)
  }

  lemma Prefix<W>(f: Words<W>, s: State<W>, rk: seq<W>, i: nat)
    requires i < |rk|
    ensures Steps(f, s, rk[..i + 1]) == Step(f, Steps(f, s, rk[..i]), rk[i])
  {
    assert rk[..i + 1] == rk[..i] + [rk[i]];
    StepSnoc(f, s, rk[..i], rk[i]);
  }

  lemma FirstState<W>(f: Words<W>, rk: seq<W>, s: State<W>)
    ensures After(f, rk, 0, s, s.a, s.b, s.c, s.d)
  {
    assert rk[..0] == [];
  }

  // ------------------------------------------------------------ the recurrence, word by word

  ghost predicate TrailAt<W>(f: Words<W>, k: seq<W>, w: seq<W>, i: nat)
    requires i < |k| && |w| == |k| + 4
  {
    w[i + 4] == Next(f, w[i], w[i + 1], w[i + 2], w[i + 3], k[i])
  }

  /** w holds the words of the recurrence with the keys k. */
  ghost predicate Trail<W>(f: Words<W>, k: seq<W>, w: seq<W>) {
    |w| == |k| + 4 && forall i :: 0 <= i < |k| ==> TrailAt(f, k, w, i)
  }

  lemma TrailPrefix<W>(f: Words<W>, k: seq<W>, w: seq<W>, n: nat)
    requires Trail(f, k, w) && n <= |k|
    ensures Trail(f, k[..n], w[..n + 4])
  {
    var k0, w0 := k[..n], w[..n + 4];
    forall i | 0 <= i < n ensures TrailAt(f, k0, w0, i) {
      assert TrailAt(f, k, w, i);
    }
  }

  /** The last four words are the state after all rounds. */
  lemma {:induction false} TrailEnds<W>(f: Words<W>, k: seq<W>, w: seq<W>)
    requires Trail(f, k, w)
    ensures Steps(f, State(w[0], w[1], w[2], w[3]), k) == State(w[|k|], w[|k| + 1], w[|k| + 2], w[|k| + 3])
  {
    if k != [] {
      var n := |k| - 1;
      TrailPrefix(f, k, w, n);
      TrailEnds(f, k[..n], w[..n + 4]);
      assert TrailAt(f, k, w, n);
    }
  }

  /** The recurrence written out, round i. */
  ghost predicate RoundAt<W>(xor: (W, W) -> W, t: W -> W, k: seq<W>, w: seq<W>, i: nat)
    requires i < |k| && |w| == |k| + 4
  {
    w[i + 4] == xor(w[i], t(xor(xor(xor(w[i + 1], w[i + 2]), w[i + 3]), k[i])))
  }

  ghost predicate Recurrence<W>(xor: (W, W) -> W, t: W -> W, k: seq<W>, w: seq<W>) {
    |w| == |k| + 4 && forall i :: 0 <= i < |k| ==> RoundAt(xor, t, k, w, i)
  }

  lemma RecurrenceTrails<W(!new)>(f: Words<W>, t: W -> W, k: seq<W>, w: seq<W>)
    requires Recurrence(f.xor, t, k, w) && forall x :: t(x) == f.t(x)
    ensures Trail(f, k, w)
  {
    forall i | 0 <= i < |k| ensures TrailAt(f, k, w, i) {
      assert RoundAt(f.xor, t, k, w, i);
    }
  }

  // ------------------------------------------------------------ key schedule

  /** Round key i is word i + 4 of the recurrence with the constants as keys. */
  function Key<W>(f: Words<W>, s: State<W>, ck: seq<W>, i: nat): W
    requires i < |ck|
  {
    Steps(f, s, ck[..i + 1]).d
  }

  function Keys<W>(f: Words<W>, s: State<W>, ck: seq<W>): (r: seq<W>)
    ensures |r| == |ck|
  {
    seq(|ck|, i requires 0 <= i < |ck| => Key(f, s, ck, i))
  }

  /** The first n round keys are the words behind the first four. */
  lemma TrailKeys<W>(f: Words<W>, k: seq<W>, w: seq<W>, n: nat)
    requires n <= |k| && Trail(f, k[..n], w)
    ensures Keys(f, State(w[0], w[1], w[2], w[3]), k)[..n] == w[4..]
  {
    var s := State(w[0], w[1], w[2], w[3]);
    forall i | 0 <= i < n ensures Key(f, s, k, i) == w[i + 4] { TrailKey(f, k, w, n, i); }
  }

  lemma TrailKey<W>(f: Words<W>, k: seq<W>, w: seq<W>, n: nat, i: nat)
    requires i < n <= |k| && Trail(f, k[..n], w)
    ensures Key(f, State(w[0], w[1], w[2], w[3]), k, i) == w[i + 4]
  {
    assert k[..n][..i + 1] == k[..i + 1];
    TrailPrefix(f, k[..n], w, i + 1);
    TrailEnds(f, k[..i + 1], w[..i + 5]);
  }

  /** Five lines of ROUNDS with ENC_ROUND or DEC_ROUND: each also stores its word. */
  method FiveKeys<W>(f: Words<W>, ck: seq<W>, i: nat, rk: array<W>, reverse: bool, ghost s: State<W>,
                     y0: W, y1: W, y2: W, y3: W) returns (x0: W, x1: W, x2: W, x3: W)
    requires |ck| == rk.Length == 32 && i + 5 <= 32 && After(f, ck, i, s, y0, y1, y2, y3)
    requires forall j :: 0 <= j < i ==> rk[At(reverse, j)] == Key(f, s, ck, j)
    modifies rk
    ensures After(f, ck, i + 5, s, x0, x1, x2, x3)
    ensures forall j :: 0 <= j < i + 5 ==> rk[At(reverse, j)] == Key(f, s, ck, j)
  {
    x0, x1, x2, x3 := y0, y1, y2, y3;
    var x4 := KeyRound(f, ck, i, rk, reverse, s, x0, x1, x2, x3);
    x0 := KeyRound(f, ck, i + 1, rk, reverse, s, x1, x2, x3, x4);
    x1 := KeyRound(f, ck, i + 2, rk, reverse, s, x2, x3, x4, x0);
    x2 := KeyRound(f, ck, i + 3, rk, reverse, s, x3, x4, x0, x1);
    x3 := KeyRound(f, ck, i + 4, rk, reverse, s, x4, x0, x1, x2);
  }

  function At(reverse: bool, j: int): int { if reverse then 31 - j else j }

  /** ENC_ROUND and DEC_ROUND. */
  method KeyRound<W>(f: Words<W>, ck: seq<W>, i: nat, rk: array<W>, reverse: bool, ghost s: State<W>,
                     x0: W, x1: W, x2: W, x3: W) returns (x4: W)
    requires |ck| == rk.Length == 32 && i < 32 && After(f, ck, i, s, x0, x1, x2, x3)
    requires forall j :: 0 <= j < i ==> rk[At(reverse, j)] == Key(f, s, ck, j)
    modifies rk
    ensures After(f, ck, i + 1, s, x1, x2, x3, x4)
    ensures forall j :: 0 <= j < i + 1 ==> rk[At(reverse, j)] == Key(f, s, ck, j)
  {
    x4 := Next(f, x0, x1, x2, x3, ck[i]);
    Prefix(f, s, ck, i);
    rk[if reverse then 31 - i else i] := x4;
  }

  /** sm4_set_encrypt_key, and with reverse sm4_set_decrypt_key. */
  method SetKey<W>(f: Words<W>, ck: seq<W>, s: State<W>, rk: array<W>, reverse: bool)
    requires |ck| == rk.Length == 32
    modifies rk
    ensures rk[..] == if reverse then Reversed(Keys(f, s, ck)) else Keys(f, s, ck)
  {
    var x0, x1, x2, x3 := s.a, s.b, s.c, s.d;
    FirstState(f, ck, s);
    x0, x1, x2, x3 := FiveKeys(f, ck, 0, rk, reverse, s, x0, x1, x2, x3);
    x0, x1, x2, x3 := FiveKeys(f, ck, 5, rk, reverse, s, x0, x1, x2, x3);
    x0, x1, x2, x3 := FiveKeys(f, ck, 10, rk, reverse, s, x0, x1, x2, x3);
    x0, x1, x2, x3 := FiveKeys(f, ck, 15, rk, reverse, s, x0, x1, x2, x3);
    x0, x1, x2, x3 := FiveKeys(f, ck, 20, rk, reverse, s, x0, x1, x2, x3);
    x0, x1, x2, x3 := FiveKeys(f, ck, 25, rk, reverse, s, x0, x1, x2, x3);
    var x4 := KeyRound(f, ck, 30, rk, reverse, s, x0, x1, x2, x3);
    x0 := KeyRound(f, ck, 31, rk, reverse, s, x1, x2, x3, x4);
    ghost var keys := Keys(f, s, ck);
    if reverse {
      ReversedAt(keys, 0);
      forall j | 0 <= j < 32 ensures rk[..][j] == Reversed(keys)[j] {
        ReversedAt(keys, j);
        assert rk[At(true, 31 - j)] == Key(f, s, ck, 31 - j);
      }
    } else {
      forall j | 0 <= j < 32 ensures rk[..][j] == keys[j] {
        assert rk[At(false, j)] == Key(f, s, ck, j);
      }
    }
  }
}
