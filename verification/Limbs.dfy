/** Multi-precision numbers held as little-endian 32-bit limbs in 64-bit words.
    Assigning to a `u64` is a proof that the machine word does not overflow;
    where the program relies on wrap-around, `Wrap` is written out. */
module Limbs {
  type u64 = x: int | 0 <= x < 0x1_0000_0000_0000_0000

  /** The residue that a 64-bit word keeps. */
  function Wrap(x: int): int {
    x % 0x1_0000_0000_0000_0000
  }

  /** x * 2^(32 k): the contribution of digit x at place k. */
  ghost function Place(x: int, k: nat): int {
    if k == 0 then x else 0x1_0000_0000 * Place(x, k - 1)
  }

  /** The number that the limbs stand for: the sum of s[i] * 2^(32 i). */
  ghost function Val(s: seq<int>): int {
    if s == [] then 0 else Val(s[..|s| - 1]) + Place(s[|s| - 1], |s| - 1)
  }

  /** Every limb fits in 32 bits. */
  ghost predicate Norm(s: seq<int>) {
    forall i :: 0 <= i < |s| ==> 0 <= s[i] < 0x1_0000_0000
  }

  /** Every limb but the most significant one fits in 32 bits. */
  ghost predicate LowNorm(s: seq<int>) {
    forall i :: 0 <= i < |s| - 1 ==> 0 <= s[i] < 0x1_0000_0000
  }

  lemma {:induction false} PlaceAdd(x: int, y: int, k: nat)
    ensures Place(x + y, k) == Place(x, k) + Place(y, k)
  {
    if k > 0 { PlaceAdd(x, y, k - 1); }
  }

  lemma {:induction false} PlaceMono(x: int, y: int, k: nat)
    ensures x <= y <==> Place(x, k) <= Place(y, k)
    ensures Place(0, k) == 0
  {
    if k > 0 { PlaceMono(x, y, k - 1); }
  }

  lemma {:induction false} PlaceShift(x: int, k: nat, m: nat)
    ensures Place(Place(x, m), k) == Place(x, k + m)
  {
    if k > 0 { PlaceShift(x, k - 1, m); }
  }

  lemma {:induction false} PlaceCarry(x: int, k: nat)
    ensures Place(x, k) == Place(x % 0x1_0000_0000, k) + Place(x / 0x1_0000_0000, k + 1)
  {
    var q := x / 0x1_0000_0000;
    PlaceAdd(x % 0x1_0000_0000, 0x1_0000_0000 * q, k);
    assert Place(q, 1) == 0x1_0000_0000 * q by { assert Place(q, 0) == q; }
    PlaceShift(q, k, 1);
  }

  lemma {:induction false} PlaceScale(x: int, y: int, k: nat)
    ensures Place(x * y, k) == x * Place(y, k)
  {
    if k > 0 {
      PlaceScale(x, y, k - 1);
      var w := Place(y, k - 1);
      assert 0x1_0000_0000 * (x * w) == x * (0x1_0000_0000 * w);
    }
  }

  lemma ValSnoc(s: seq<int>, i: nat)
    requires i < |s|
    ensures Val(s[..i + 1]) == Val(s[..i]) + Place(s[i], i)
  {
    assert s[..i + 1][..i] == s[..i];
  }

  lemma SnocNorm(low: seq<int>, x: int)
    requires Norm(low)
    ensures LowNorm(low + [x])
    ensures Val(low + [x]) == Val(low) + Place(x, |low|)
  {
    assert (low + [x])[..|low|] == low;
  }

  /** Normalised limbs stand for a number below 2^(32 |s|). */
  lemma {:induction false} ValBound(s: seq<int>)
    requires Norm(s)
    ensures 0 <= Val(s) < Place(1, |s|)
  {
    if s != [] {
      var n := |s| - 1;
      ValBound(s[..n]);
      PlaceMono(0, s[n], n);
      PlaceMono(s[n], 0xffff_ffff, n);
      PlaceAdd(0xffff_ffff, 1, n);
      PlaceShift(1, n, 1);
      assert Place(1, 1) == 0x1_0000_0000 by { assert Place(1, 0) == 1; }
    }
  }

  /** The value of a concatenation: the upper part is shifted by the length of the lower. */
  lemma {:induction false} ValConcat(s: seq<int>, t: seq<int>)
    ensures Val(s + t) == Val(s) + Place(Val(t), |s|)
  {
    if t == [] {
      assert s + t == s;
      PlaceMono(0, 0, |s|);
    } else {
      var n := |t| - 1;
      assert (s + t)[..|s| + n] == s + t[..n];
      ValConcat(s, t[..n]);
      PlaceShift(t[n], |s|, n);
      PlaceAdd(Val(t[..n]), Place(t[n], n), |s|);
    }
  }

  lemma ValSplit(s: seq<int>, i: nat)
    requires i <= |s|
    ensures Val(s) == Val(s[..i]) + Place(Val(s[i..]), i)
  {
    assert s == s[..i] + s[i..];
    ValConcat(s[..i], s[i..]);
  }

  lemma {:induction false} ValZero(s: seq<int>)
    requires forall i :: 0 <= i < |s| ==> s[i] == 0
    ensures Val(s) == 0
  {
    if s != [] {
      ValZero(s[..|s| - 1]);
      PlaceMono(0, 0, |s| - 1);
    }
  }

  // ---------------------------------------------------------------- addition

  /** The limbs before k are final and x is the word at place k, not yet masked. */
  ghost predicate AddInv(low: seq<int>, x: int, a: seq<int>, b: seq<int>, k: nat) {
    |low| == k < |a| == |b| && Norm(low) &&
    Val(low) + Place(x, k) == Val(a[..k + 1]) + Val(b[..k + 1])
  }

  lemma AddStart(a: seq<int>, b: seq<int>)
    requires |a| == |b| >= 1
    ensures AddInv([], a[0] + b[0], a, b, 0)
  {
    ValSnoc(a, 0); ValSnoc(b, 0);
  }

  lemma AddStep(low: seq<int>, x: int, a: seq<int>, b: seq<int>, k: nat)
    requires AddInv(low, x, a, b, k) && k + 1 < |a|
    ensures AddInv(low + [x % 0x1_0000_0000], a[k + 1] + b[k + 1] + x / 0x1_0000_0000, a, b, k + 1)
  {
    ValSnoc(a, k + 1); ValSnoc(b, k + 1);
    var low' := low + [x % 0x1_0000_0000];
    assert low'[..k] == low;
    PlaceCarry(x, k);
    PlaceAdd(a[k + 1], b[k + 1], k + 1);
    PlaceAdd(a[k + 1] + b[k + 1], x / 0x1_0000_0000, k + 1);
  }

  lemma AddEnd(low: seq<int>, x: int, a: seq<int>, b: seq<int>)
    requires a != [] && AddInv(low, x, a, b, |a| - 1)
    ensures LowNorm(low + [x]) && Val(low + [x]) == Val(a) + Val(b)
  {
    assert a[..|a|] == a && b[..|a|] == b;
    SnocNorm(low, x);
  }

  /** sm2_bn_add and sm2_bn288_add: a carry pass, then a mask over all limbs but the last. */
  method BnAdd(r: array<u64>, a: array<u64>, b: array<u64>)
    requires r.Length == a.Length == b.Length > 0
    requires LowNorm(a[..]) && LowNorm(b[..])
    requires a[a.Length - 1] as int + b[b.Length - 1] as int < 0xffff_ffff_ffff_ffff
    modifies r
    ensures LowNorm(r[..])
    ensures Val(r[..]) == old(Val(a[..])) + old(Val(b[..]))
  {
    var n := r.Length;
    ghost var sa: seq<int>, sb: seq<int> := a[..], b[..];
    r[0] := a[0] + b[0];
    ghost var low: seq<int> := [];
    AddStart(sa, sb);
    var i := 1;
    while i < n
      invariant 1 <= i <= n && a[i..] == sa[i..] && b[i..] == sb[i..]
      invariant Carrying(low, r[..i], sa, sb)
    {
      low := AddLimb(r, a, b, i, low, sa, sb);
      i := i + 1;
    }
    assert r[..n] == r[..];
    AddEnd(low, r[n - 1], sa, sb);
    MaskLow(r, low);
  }

  /** The words rs are written, the last of them with its carry. */
  ghost predicate Carrying(low: seq<int>, rs: seq<int>, a: seq<int>, b: seq<int>) {
    var k := |rs| - 1;
    k >= 0 && AddInv(low, rs[k], a, b, k) && rs[k] <= a[k] + b[k] + 1 && Unmasked(low, rs)
  }

  /** low holds the low 32 bits of the words but the last. */
  ghost predicate Unmasked(low: seq<int>, rs: seq<int>) {
    |low| == |rs| - 1 && forall j :: 0 <= j < |low| ==> low[j] == rs[j] % 0x1_0000_0000
  }

  /** The loop body: one limb and the carry from the word before it. */
  method AddLimb(r: array<u64>, a: array<u64>, b: array<u64>, i: nat, ghost low: seq<int>, ghost sa: seq<int>, ghost sb: seq<int>)
    returns (ghost low': seq<int>)
    requires 1 <= i < r.Length == a.Length == b.Length == |sa| == |sb| && LowNorm(sa) && LowNorm(sb)
    requires sa[|sa| - 1] + sb[|sa| - 1] < 0xffff_ffff_ffff_ffff
    requires a[i..] == sa[i..] && b[i..] == sb[i..] && Carrying(low, r[..i], sa, sb)
    modifies r
    ensures a[i + 1..] == sa[i + 1..] && b[i + 1..] == sb[i + 1..] && Carrying(low', r[..i + 1], sa, sb)
  {
    ghost var rs: seq<int> := r[..i];
    assert a[i] == sa[i] && b[i] == sb[i] && rs[i - 1] == r[i - 1];
    CarryRoom(sa, sb, i, r[i - 1]);
    r[i] := a[i] + b[i] + r[i - 1] / 0x1_0000_0000;
    assert r[..i + 1] == rs + [r[i] as int];
    assert a[i + 1..] == a[i..][1..] && b[i + 1..] == b[i..][1..];
    low' := low + [rs[i - 1] % 0x1_0000_0000];
    CarryStep(low, rs, r[i], sa, sb);
  }

  lemma CarryStep(low: seq<int>, rs: seq<int>, v: int, a: seq<int>, b: seq<int>)
    requires Carrying(low, rs, a, b) && |rs| < |a| && LowNorm(a) && LowNorm(b)
    requires v == a[|rs|] + b[|rs|] + rs[|rs| - 1] / 0x1_0000_0000
    ensures Carrying(low + [rs[|rs| - 1] % 0x1_0000_0000], rs + [v], a, b)
  {
    var i := |rs|;
    AddStep(low, rs[i - 1], a, b, i - 1);
    assert rs[i - 1] <= a[i - 1] + b[i - 1] + 1;
    assert (rs + [v])[..i] == rs;
  }

  lemma CarryRoom(a: seq<int>, b: seq<int>, i: nat, x: u64)
    requires 1 <= i < |a| == |b| && LowNorm(a) && LowNorm(b) && x as int <= a[i - 1] + b[i - 1] + 1
    requires a[|a| - 1] + b[|a| - 1] < 0xffff_ffff_ffff_ffff
    ensures x / 0x1_0000_0000 <= 1 && a[i] + b[i] < 0xffff_ffff_ffff_ffff
  {
  }

  /** The second loop of the additions: keeps the low 32 bits of every limb but the last. */
  method MaskLow(r: array<u64>, ghost low: seq<int>)
    requires r.Length > 0 && |low| == r.Length - 1
    requires forall k :: 0 <= k < |low| ==> low[k] == r[k] % 0x1_0000_0000
    modifies r
    ensures r[..] == low + [old(r[r.Length - 1])]
  {
    var i := 0;
    while i < r.Length - 1
      invariant 0 <= i <= r.Length - 1
      invariant r[r.Length - 1] == old(r[r.Length - 1])
      invariant forall k :: i <= k < r.Length - 1 ==> low[k] == r[k] % 0x1_0000_0000
      invariant forall k :: 0 <= k < i ==> r[k] == low[k]
    {
      r[i] := r[i] % 0x1_0000_0000;
      i := i + 1;
    }
  }

  // ------------------------------------------------------------- subtraction

  /** The limbs before k are final; x is the word at place k with 2^32 borrowed into it. */
  ghost predicate SubInv(low: seq<int>, x: int, a: seq<int>, b: seq<int>, k: nat) {
    |low| == k < |a| == |b| && Norm(low) &&
    Val(low) + Place(x - 0x1_0000_0000, k) == Val(a[..k + 1]) - Val(b[..k + 1])
  }

  lemma SubStart(a: seq<int>, b: seq<int>)
    requires |a| == |b| >= 1
    ensures SubInv([], 0x1_0000_0000 + a[0] - b[0], a, b, 0)
  {
    ValSnoc(a, 0); ValSnoc(b, 0);
  }

  lemma SubStep(low: seq<int>, x: int, a: seq<int>, b: seq<int>, k: nat)
    requires SubInv(low, x, a, b, k) && k + 1 < |a|
    ensures SubInv(low + [x % 0x1_0000_0000], 0xffff_ffff + a[k + 1] - b[k + 1] + x / 0x1_0000_0000, a, b, k + 1)
  {
    ValSnoc(a, k + 1); ValSnoc(b, k + 1);
    var low' := low + [x % 0x1_0000_0000];
    assert low'[..k] == low;
    PlaceBorrow(x, k);
    PlaceAdd(a[k + 1] - b[k + 1], b[k + 1], k + 1);
    PlaceAdd(a[k + 1] - b[k + 1], x / 0x1_0000_0000 - 1, k + 1);
  }

  lemma PlaceBorrow(x: int, k: nat)
    ensures Place(x - 0x1_0000_0000, k) == Place(x % 0x1_0000_0000, k) + Place(x / 0x1_0000_0000 - 1, k + 1)
  {
    var y := x - 0x1_0000_0000;
    assert y % 0x1_0000_0000 == x % 0x1_0000_0000 && y / 0x1_0000_0000 == x / 0x1_0000_0000 - 1;
    PlaceCarry(y, k);
  }

  lemma WrapCases(t: int)
    requires -0x1_0000_0000_0000_0000 <= t < 0x1_0000_0000_0000_0000
    ensures Wrap(t) == if t < 0 then t + 0x1_0000_0000_0000_0000 else t
  {
  }

  /** The true top limb t may be negative; the stored one is its residue modulo 2^64. */
  lemma SubEnd(low: seq<int>, x: int, a: seq<int>, b: seq<int>, top: int)
    requires a != [] && SubInv(low, x, a, b, |a| - 1)
    requires -0x1_0000_0000_0000_0000 <= x - 0x1_0000_0000 < 0x1_0000_0000_0000_0000
    requires top == Wrap(x - 0x1_0000_0000)
    ensures LowNorm(low + [top])
    ensures Val(low + [top]) == Val(a) - Val(b) + if Val(a) >= Val(b) then 0 else Place(0x1_0000_0000_0000_0000, |a| - 1)
  {
    assert a[..|a|] == a && b[..|a|] == b;
    var t, n := x - 0x1_0000_0000, |a| - 1;
    WrapCases(t);
    ValBound(low);
    PlaceMono(0, t, n);
    PlaceMono(t, -1, n);
    PlaceAdd(1, -1, n);
    PlaceAdd(t, 0x1_0000_0000_0000_0000, n);
    SnocNorm(low, top);
  }

  /** sm2_bn_sub and sm2_bn288_sub: every limb but the last borrows 2^32 from the next one;
      the last limb is computed modulo 2^64. */
  method BnSub(ret: array<u64>, a: array<u64>, b: array<u64>)
    requires ret.Length == a.Length == b.Length >= 2
    requires LowNorm(a[..]) && LowNorm(b[..])
    modifies ret
    ensures LowNorm(ret[..])
    ensures Val(ret[..]) == old(Val(a[..])) - old(Val(b[..]))
                          + if old(Val(a[..])) >= old(Val(b[..])) then 0
                            else Place(0x1_0000_0000_0000_0000, ret.Length - 1)
  {
    var n := ret.Length;
    ghost var sa: seq<int>, sb: seq<int> := a[..], b[..];
    var r := new u64[n];
    ghost var low := BorrowPass(r, a, b);
    SubStep(low, r[n - 2], sa, sb, n - 2);
    low := low + [r[n - 2] % 0x1_0000_0000];
    ghost var x := 0xffff_ffff + sa[n - 1] - sb[n - 1] + r[n - 2] / 0x1_0000_0000;
    r[n - 1] := Wrap(a[n - 1] as int - b[n - 1] as int + r[n - 2] / 0x1_0000_0000 - 1);
    r[n - 2] := r[n - 2] % 0x1_0000_0000;
    SubEnd(low, x, sa, sb, r[n - 1]);
    assert r[..] == low + [r[n - 1]];
    BnCopy(ret, r);
  }

  /** The loop of the subtraction: the words before the last, all but the newest one masked. */
  method BorrowPass(r: array<u64>, a: array<u64>, b: array<u64>) returns (ghost low: seq<int>)
    requires r.Length == a.Length == b.Length >= 2 && r != a && r != b
    requires LowNorm(a[..]) && LowNorm(b[..])
    modifies r
    ensures |low| == r.Length - 2 && forall k :: 0 <= k < |low| ==> r[k] == low[k]
    ensures r[|low|] < 0x2_0000_0000 && SubInv(low, r[|low|], a[..], b[..], |low|)
  {
    ghost var sa: seq<int>, sb: seq<int> := a[..], b[..];
    r[0] := 0x1_0000_0000 + a[0] - b[0];
    low := [];
    SubStart(sa, sb);
    var i := 1;
    while i < r.Length - 1
      invariant 1 <= i <= r.Length - 1 && a[..] == sa && b[..] == sb
      invariant SubInv(low, r[i - 1], sa, sb, i - 1)
      invariant forall k :: 0 <= k < i - 1 ==> r[k] == low[k]
      invariant r[i - 1] < 0x2_0000_0000
    {
      assert a[i] == sa[i] && b[i] == sb[i];
      SubStep(low, r[i - 1], sa, sb, i - 1);
      low := low + [r[i - 1] % 0x1_0000_0000];
      r[i] := 0xffff_ffff + a[i] - b[i] + r[i - 1] / 0x1_0000_0000;
      r[i - 1] := r[i - 1] % 0x1_0000_0000;
      i := i + 1;
    }
  }

  /** A constant of the source as a fresh array. */
  method FromLimbs(v: seq<u64>) returns (m: array<u64>)
    ensures fresh(m) && m.Length == |v| && m[..] == v
  {
    m := new u64[|v|](i requires 0 <= i < |v| => v[i]);
  }

  /** sm2_bn_copy. */
  method BnCopy(r: array<u64>, a: array<u64>)
    requires r.Length == a.Length
    modifies r
    ensures r[..] == old(a[..])
  {
    var i := 0;
    while i < r.Length
      invariant 0 <= i <= r.Length
      invariant forall k :: 0 <= k < i ==> r[k] == old(a[k])
      invariant forall k :: i <= k < r.Length ==> a[k] == old(a[k])
    {
      r[i] := a[i];
      i := i + 1;
    }
  }

  // -------------------------------------------------------------- comparison

  /** sm2_bn_cmp and sm2_bn288_cmp: compares from the most significant limb down. */
  method BnCmp(a: array<u64>, b: array<u64>) returns (c: int)
    requires a.Length == b.Length > 0
    requires LowNorm(a[..]) && LowNorm(b[..])
    ensures c == if Val(a[..]) > Val(b[..]) then 1 else if Val(a[..]) < Val(b[..]) then -1 else 0
  {
    ghost var sa: seq<int>, sb: seq<int> := a[..], b[..];
    var i := a.Length - 1;
    while i >= 0
      invariant -1 <= i < a.Length
      invariant forall k :: i < k < a.Length ==> sa[k] == sb[k]
    {
      if a[i] > b[i] {
        CmpAt(sb, sa, i);
        return 1;
      }
      if a[i] < b[i] {
        CmpAt(sa, sb, i);
        return -1;
      }
      i := i - 1;
    }
    assert sa == sb;
    return 0;
  }

  lemma CmpAt(s: seq<int>, t: seq<int>, i: nat)
    requires i < |s| == |t| && LowNorm(s) && LowNorm(t)
    requires s[i] < t[i] && forall k :: i < k < |s| ==> s[k] == t[k]
    ensures Val(s) < Val(t)
  {
    assert s[i + 1..] == t[i + 1..];
    ValSplit(s, i + 1); ValSplit(t, i + 1);
    ValSnoc(s, i); ValSnoc(t, i);
    ValBound(s[..i]); ValBound(t[..i]);
    PlaceMono(s[i] + 1, t[i], i);
    PlaceAdd(s[i], 1, i);
  }

  // ---------------------------------------------------------- multiplication

  /** The first |row| words of s + x * b are final and w is the carry out of them. */
  ghost predicate RowInv(row: seq<int>, w: int, s: seq<int>, x: int, b: seq<int>) {
    |row| <= |s| && |row| <= |b| && Norm(row) &&
    Val(row) + Place(w, |row|) == Val(s[..|row|]) + x * Val(b[..|row|])
  }

  lemma RowStep(row: seq<int>, w: int, s: seq<int>, x: int, b: seq<int>, t: int)
    requires RowInv(row, w, s, x, b) && |row| < |s| && |row| < |b|
    requires t == w + s[|row|] + x * b[|row|]
    ensures RowInv(row + [t % 0x1_0000_0000], t / 0x1_0000_0000, s, x, b)
  {
    var j := |row|;
    var row' := row + [t % 0x1_0000_0000];
    assert row'[..j] == row;
    ValSnoc(s, j);
    ScaleSnoc(x, b, j);
    PlaceCarry(t, j);
    PlaceAdd(w, s[j], j);
    PlaceAdd(w + s[j], x * b[j], j);
  }

  lemma ScaleSnoc(x: int, b: seq<int>, j: nat)
    requires j < |b|
    ensures x * Val(b[..j + 1]) == x * Val(b[..j]) + Place(x * b[j], j)
  {
    ValSnoc(b, j);
    PlaceScale(x, b[j], j);
    Distribute(x, Val(b[..j]), Place(b[j], j));
  }

  lemma Distribute(x: int, v: int, y: int)
    ensures x * (v + y) == x * v + x * y
  {
  }

  /** The largest 32-bit by 32-bit product plus two 32-bit words just fits in 64 bits. */
  lemma WordProduct(x: int, y: int, s: int, w: int)
    requires 0 <= x < 0x1_0000_0000 && 0 <= y < 0x1_0000_0000
    requires 0 <= s < 0x1_0000_0000 && 0 <= w < 0x1_0000_0000
    ensures 0 <= x * y
    ensures w + s + x * y < 0x1_0000_0000_0000_0000
  {
    MulMono(x, 0xffff_ffff, y);
  }

  lemma MulMono(x: int, y: int, w: int)
    requires 0 <= x <= y && 0 <= w
    ensures 0 <= x * w <= y * w
  {
  }

  /** One row of the schoolbook product: s[i..i+m) += x * b[0..m), returning the carry. */
  method MulRow(s: array<u64>, i: nat, x: u64, b: array<u64>, m: nat) returns (w: u64)
    requires i + m <= s.Length && m <= b.Length && s != b
    requires x < 0x1_0000_0000 && Norm(b[..m]) && Norm(s[i..i + m])
    modifies s
    ensures s[..i] == old(s[..i]) && s[i + m..] == old(s[i + m..])
    ensures Norm(s[i..i + m]) && w < 0x1_0000_0000
    ensures Val(s[i..i + m]) + Place(w, m) == old(Val(s[i..i + m])) + x * Val(b[..m])
  {
    ghost var s0: seq<int>, sb: seq<int> := s[i..i + m], b[..m];
    ghost var row: seq<int> := [];
    w := 0;
    var j := 0;
    while j < m
      invariant 0 <= j <= m && b[..m] == sb
      invariant s[..i] == old(s[..i]) && s[i + m..] == old(s[i + m..])
      invariant forall k :: j <= k < m ==> s[i + k] == s0[k]
      invariant |row| == j && RowInv(row, w, s0, x, sb)
      invariant forall k :: 0 <= k < j ==> s[i + k] == row[k]
      invariant w < 0x1_0000_0000
    {
      assert s[i + j] == s0[j] && b[j] == sb[j];
      WordProduct(x, b[j], s[i + j], w);
      ghost var carry := w;
      w := w + s[i + j] + x * b[j];
      RowStep(row, carry, s0, x, sb, w);
      s[i + j] := w % 0x1_0000_0000;
      row := row + [w % 0x1_0000_0000];
      w := w / 0x1_0000_0000;
      j := j + 1;
    }
    assert s0[..m] == s0 && sb[..m] == sb && s[i..i + m] == row;
  }

  lemma RowAccumulate(s0: seq<int>, s1: seq<int>, i: nat, n: nat, x: int, vb: int)
    requires |s0| == i + n && |s1| == i + n + 1 && s1[..i] == s0[..i]
    requires Val(s1[i..i + n]) + Place(s1[i + n], n) == Val(s0[i..]) + x * vb
    ensures Val(s1) == Val(s0) + Place(x, i) * vb
  {
    ValSplit(s0, i); ValSplit(s1, i);
    ValSnoc(s1[i..], n);
    assert s1[i..][..n] == s1[i..i + n] && s1[i..][..n + 1] == s1[i..];
    PlaceAdd(Val(s0[i..]), x * vb, i);
    PlaceScale(vb, x, i);
  }

  /** A row of the product together with the store of its carry. */
  method MulStep(s: array<u64>, i: nat, x: u64, b: array<u64>)
    requires i + b.Length < s.Length && s != b
    requires x < 0x1_0000_0000 && Norm(b[..]) && Norm(s[..i + b.Length])
    modifies s
    ensures Norm(s[..i + b.Length + 1])
    ensures Val(s[..i + b.Length + 1]) == old(Val(s[..i + b.Length])) + Place(x, i) * Val(b[..])
  {
    var n := b.Length;
    ghost var s0: seq<int> := s[..i + n];
    assert s[i..i + n] == s0[i..] && b[..n] == b[..];
    var w := MulRow(s, i, x, b, n);
    ghost var mid: seq<int> := s[i..i + n];
    assert s[..i] == s0[..i];
    s[i + n] := w;
    ghost var s1: seq<int> := s[..i + n + 1];
    assert s1 == s0[..i] + mid + [w as int];
    assert s1[i..i + n] == mid && s1[..i] == s0[..i];
    RowAccumulate(s0, s1, i, n, x, Val(b[..]));
  }

  lemma ProductSnoc(a: seq<int>, i: nat, vb: int)
    requires i < |a|
    ensures Val(a[..i]) * vb + Place(a[i], i) * vb == Val(a[..i + 1]) * vb
  {
    ValSnoc(a, i);
    Distribute(vb, Val(a[..i]), Place(a[i], i));
  }

  /** The double loop of the schoolbook product, shared by every modular multiplication. */
  method Mul(s: array<u64>, a: array<u64>, na: nat, b: array<u64>)
    requires na <= a.Length && na + b.Length <= s.Length && s != a && s != b
    requires Norm(a[..na]) && Norm(b[..])
    requires forall k :: 0 <= k < b.Length ==> s[k] == 0
    modifies s
    ensures Norm(s[..na + b.Length])
    ensures Val(s[..na + b.Length]) == Val(a[..na]) * Val(b[..])
  {
    ghost var sa, sb, vb := a[..na], b[..], Val(b[..]);
    ValZero(s[..b.Length]);
    var i := 0;
    while i < na
      invariant 0 <= i <= na && a[..na] == sa && b[..] == sb
      invariant Norm(s[..i + b.Length])
      invariant Val(s[..i + b.Length]) == Val(sa[..i]) * vb
    {
      assert a[i] == sa[i];
      MulStep(s, i, a[i], b);
      ProductSnoc(sa, i, vb);
      i := i + 1;
    }
    assert sa[..na] == a[..na];
  }

  // ------------------------------------------------- limbs as linear sums

  lemma {:induction false} ValUpdate(s: seq<int>, k: nat, v: int)
    requires k < |s|
    ensures Val(s[k := v]) == Val(s) + Place(v - s[k], k)
  {
    var t, n := s[k := v], |s| - 1;
    if k == n {
      assert t[..n] == s[..n];
      PlaceAdd(v - s[k], s[k], k);
    } else {
      assert t[..n] == s[..n][k := v];
      ValUpdate(s[..n], k, v);
    }
  }

  lemma CarryPreserves(s: seq<int>, i: nat)
    requires 1 <= i < |s|
    ensures Val(s[i := s[i] + s[i - 1] / 0x1_0000_0000][i - 1 := s[i - 1] % 0x1_0000_0000]) == Val(s)
  {
    var x := s[i - 1];
    ValUpdate(s, i, s[i] + x / 0x1_0000_0000);
    ValUpdate(s[i := s[i] + x / 0x1_0000_0000], i - 1, x % 0x1_0000_0000);
    PlaceCarry(x, i - 1);
    PlaceAdd(x % 0x1_0000_0000 - x, x, i - 1);
  }

  /** The in-place carry loop of sm2_fp_mul: same value, limbs below the top normalised. */
  method CarryPass(r: array<u64>)
    requires r.Length > 0
    requires forall k :: 0 <= k < r.Length ==> r[k] <= 0xff_ffff_ffff
    modifies r
    ensures LowNorm(r[..]) && Val(r[..]) == old(Val(r[..]))
  {
    var i := 1;
    while i < r.Length
      invariant 1 <= i <= r.Length
      invariant Val(r[..]) == old(Val(r[..]))
      invariant forall k :: 0 <= k < i - 1 ==> r[k] < 0x1_0000_0000
      invariant r[i - 1] <= 0x1ff_ffff_ffff
      invariant forall k :: i <= k < r.Length ==> r[k] <= 0xff_ffff_ffff
    {
      CarryPreserves(r[..], i);
      r[i] := r[i] + r[i - 1] / 0x1_0000_0000;
      r[i - 1] := r[i - 1] % 0x1_0000_0000;
      i := i + 1;
    }
  }

  lemma Val8(s: seq<int>)
    requires |s| >= 8
    ensures Val(s[..8]) == s[0] + 0x1_00000000 * s[1] + 0x1_00000000_00000000 * s[2]
      + 0x1_00000000_00000000_00000000 * s[3]
      + 0x1_00000000_00000000_00000000_00000000 * s[4]
      + 0x1_00000000_00000000_00000000_00000000_00000000 * s[5]
      + 0x1_00000000_00000000_00000000_00000000_00000000_00000000 * s[6]
      + 0x1_00000000_00000000_00000000_00000000_00000000_00000000_00000000 * s[7]
  {
    ValSnoc(s, 0); ValSnoc(s, 1); ValSnoc(s, 2); ValSnoc(s, 3);
    ValSnoc(s, 4); ValSnoc(s, 5); ValSnoc(s, 6); ValSnoc(s, 7);
    Place4(s[0], 0); Place4(s[1], 0); Place4(s[2], 0); Place4(s[3], 0);
    Place4(s[4], 0);
    Place4(s[5], 0); Place4(s[5], 4);
    Place4(s[6], 0); Place4(s[6], 4);
    Place4(s[7], 0); Place4(s[7], 4);
  }

  /** Splitting off the least significant limb. */
  lemma WordValue(s: seq<int>, i: nat)
    requires i < |s|
    ensures Val(s[i..]) == Val(s[i + 1..]) * 0x1_0000_0000 + s[i]
    ensures Norm(s) ==> Val(s[i..]) >= 0
  {
    var t := s[i..];
    ValSplit(t, 1);
    ValSnoc(t, 0);
    assert t[1..] == s[i + 1..] && t[..1][..0] == [];
    Place4(Val(t[1..]), 0);
    if Norm(s) { ValBound(t); }
  }

  lemma Place4(x: int, k: nat)
    ensures Place(x, k + 1) == 0x1_00000000 * Place(x, k)
    ensures Place(x, k + 2) == 0x1_00000000_00000000 * Place(x, k)
    ensures Place(x, k + 3) == 0x1_00000000_00000000_00000000 * Place(x, k)
    ensures Place(x, k + 4) == 0x1_00000000_00000000_00000000_00000000 * Place(x, k)
    ensures Place(x, 0) == x
  {
    assert Place(x, k + 2) == 0x1_00000000 * Place(x, k + 1);
    assert Place(x, k + 3) == 0x1_00000000 * Place(x, k + 2);
  }

  // ------------------------------------------------- eight limbs with a loose top

  /** A result that still carries its top bits in the last word. */
  ghost predicate Loose(s: seq<int>) {
    |s| == 8 && LowNorm(s) && s[7] >= 0
  }

  lemma Place7(x: int)
    ensures Place(x, 7) == 0x1_00000000_00000000_00000000_00000000_00000000_00000000_00000000 * x
  {
    Place4(x, 0); Place4(x, 4);
  }

  lemma LooseBelow(s: seq<int>)
    requires Loose(s)
    ensures 0 <= Val(s)
    ensures Val(s) < 0x1_00000000_00000000_00000000_00000000_00000000_00000000_00000000_00000000 ==> Norm(s)
  {
    ValSnoc(s, 7);
    assert s[..8] == s;
    ValBound(s[..7]);
    Place7(s[7]);
  }

  lemma NormBelow(s: seq<int>)
    requires |s| == 8 && Norm(s)
    ensures 0 <= Val(s) < 0x1_00000000_00000000_00000000_00000000_00000000_00000000_00000000_00000000
  {
    ValBound(s);
    Place4(1, 0); Place4(1, 4);
  }

  /** The closing loop of every modular multiplication: subtract m while r is not below it. */
  method SubtractWhile(r: array<u64>, m: array<u64>, ghost bound: nat) returns (ghost rounds: nat)
    requires r.Length == m.Length == 8 && r != m && Loose(r[..]) && Norm(m[..])
    requires 0 <= Val(r[..]) < bound * Val(m[..])
    modifies r
    ensures Norm(r[..]) && 0 <= Val(r[..]) < Val(m[..])
    ensures old(Val(r[..])) == rounds * Val(m[..]) + Val(r[..]) && rounds < bound
  {
    ghost var v, vm := Val(r[..]), Val(m[..]);
    ghost var sub := 0;
    rounds := 0;
    LooseBelow(r[..]);
    NormBelow(m[..]);
    PositiveFactor(bound, vm, v);
    var c := BnCmp(r, m);
    while c >= 0
      invariant Loose(r[..]) && Norm(m[..]) && Val(m[..]) == vm
      invariant 0 <= Val(r[..]) && v == sub + Val(r[..]) && sub == rounds * vm
      invariant c == if Val(r[..]) > vm then 1 else if Val(r[..]) < vm then -1 else 0
      decreases Val(r[..])
    {
      BnSub(r, r, m);
      NextMultiple(rounds, vm);
      sub, rounds := sub + vm, rounds + 1;
      LooseBelow(r[..]);
      c := BnCmp(r, m);
    }
    LooseBelow(r[..]);
    RoundsBelow(rounds, bound, vm);
  }

  lemma PositiveFactor(k: nat, m: int, v: int)
    requires 0 <= v < k * m
    ensures m > 0
  {
  }

  lemma NextMultiple(k: int, m: int)
    ensures (k + 1) * m == k * m + m
  {
  }

  lemma RoundsBelow(k: int, bound: int, m: int)
    requires k * m < bound * m && m > 0
    ensures k < bound
  {
    if k >= bound { MulMono(0, k - bound, m); }
  }
}
