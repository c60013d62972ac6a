/** SEQUENCE OF INTEGER in asn1.c: lists of ints in a tagged content. */
module DerLists {
  import opened Octets
  import opened Der

  const SEQUENCE: byte := 0x30
  const INTEGER: byte := 2

  function NotNegative(a: int): nat { if a > 0 then a else 0 }

  // ------------------------------------------------------------ lists of anything that can be read

  /** Numbers up to a maximum, and how one is written and read. */
  datatype Item = Item(max: int, write: int -> bytes, read: bytes -> Parse<nat>)

  ghost predicate ItemAt(t: Item, a: int, more: bytes) {
    a <= t.max ==> t.write(a) != [] && t.read(t.write(a) + more) == Got(NotNegative(a), more)
  }

  ghost predicate Laws(t: Item) { forall a, more :: ItemAt(t, a, more) }

  function All(t: Item, nums: seq<int>): bytes { if nums == [] then [] else t.write(nums[0]) + All(t, nums[1..]) }

  /** The items of a content, if there are not more than there is room for. */
  function AllOf(t: Item, d: bytes, room: nat): Parse<seq<nat>>
    decreases |d|
  {
    if d == [] then Got([], [])
    else if room == 0 then Bad
    else
      match t.read(d)
      case Got(v, rest) => if |rest| < |d| then Put([v], AllOf(t, rest, room - 1)) else Bad
      case _ => Bad
  }

  function Put(a: seq<nat>, b: Parse<seq<nat>>): Parse<seq<nat>> {
    match b case Got(nums, rest) => Got(a + nums, rest) case _ => b
  }

  lemma Ahead(a: seq<nat>, b: Parse<seq<nat>>)
    requires a == []
    ensures Put(a, b) == b
  {
    if b.Got? { assert a + b.value == b.value; }
  }

  lemma AheadTwice(a: seq<nat>, b: seq<nat>, c: Parse<seq<nat>>)
    ensures Put(a, Put(b, c)) == Put(a + b, c)
  {
    if c.Got? { Assoc(a, b, c.value); }
  }

  function Floors(nums: seq<int>): seq<nat> {
    if nums == [] then [] else [NotNegative(nums[0])] + Floors(nums[1..])
  }

  lemma {:induction false} AllRead(t: Item, nums: seq<int>, room: nat)
    requires Laws(t) && forall i :: 0 <= i < |nums| ==> nums[i] <= t.max
    ensures AllOf(t, All(t, nums), room) == if |nums| <= room then Got(Floors(nums), []) else Bad
    decreases |nums|
  {
    if nums != [] {
      assert ItemAt(t, nums[0], All(t, nums[1..]));
      if room > 0 {
        AllRead(t, nums[1..], room - 1);
      }
    }
  }

  // ------------------------------------------------------------ ints

  function WriteOne(a: int): bytes { Integer(INTEGER, Magnitude(a)) }

  function ReadOne(d: bytes): Parse<nat> { IntFromDer(INTEGER, d) }

  function Int(): Item { Item(INT_MAX, WriteOne, ReadOne) }

  lemma IntLaws()
    ensures Laws(Int())
  {
    forall a: int, more: bytes ensures ItemAt(Int(), a, more) {
      if a <= INT_MAX { IntRoundTrip(INTEGER, a, more); }
    }
  }

  /** The two loops of asn1_sequence_of_int_to_der: with a counting sink, and with the real one. */
  method WriteAll(nums: seq<int>, s: Sink) returns (ret: int)
    requires forall i :: 0 <= i < |nums| ==> nums[i] <= INT_MAX
    modifies s
    ensures ret == if -1 in nums then -1 else 1
    ensures ret == 1 ==> s.out == old(s.out) + s.Written(All(Int(), nums)) && s.outlen == old(s.outlen) + |All(Int(), nums)|
  {
    ghost var before := s.out;
    var i := 0;
    assert nums[0..] == nums;
    while i < |nums|
      invariant 0 <= i <= |nums| && -1 !in nums[..i]
      invariant before + s.Written(All(Int(), nums)) == s.out + s.Written(All(Int(), nums[i..]))
      invariant old(s.outlen) + |All(Int(), nums)| == s.outlen + |All(Int(), nums[i..])|
    {
      s.Twice(s.out, WriteOne(nums[i]), All(Int(), nums[i + 1..]));
      assert nums[i..][0] == nums[i] && nums[i..][1..] == nums[i + 1..];
      ret := IntToDer(INTEGER, nums[i], s);
      if ret != 1 {
        return -1;
      }
      i := i + 1;
    }
    ret := 1;
    assert s.out + s.Written([]) == s.out;
  }

  /** asn1_sequence_of_int_to_der: counted first with out NULL, then written behind the header. */
  method IntsToDer(nums: seq<int>, s: Sink) returns (ret: int)
    requires forall i :: 0 <= i < |nums| ==> nums[i] <= INT_MAX
    modifies s
    ensures ret == if nums == [] || -1 in nums then -1 else 1
    ensures ret == 1 ==> s.out == old(s.out) + s.Written(Tagged(SEQUENCE, All(Int(), nums))) &&
                         s.outlen == old(s.outlen) + |Tagged(SEQUENCE, All(Int(), nums))|
  {
    if nums == [] {
      return -1;
    }
    var counter := new Sink(false);
    ret := WriteAll(nums, counter);
    if ret != 1 {
      return -1;
    }
    ghost var before, all := s.out, All(Int(), nums);
    s.Put([SEQUENCE]);
    var _ := LengthToDer(counter.outlen, s);
    ret := WriteAll(nums, s);
    s.Twice(before, [SEQUENCE], Length(|all|));
    s.Twice(before, [SEQUENCE] + Length(|all|), all);
  }

  /** asn1_sequence_of_int_from_der; the count is only checked against the maximum after it has passed it. */
  function IntsFromDer(maxNums: nat, input: bytes): Parse<seq<nat>> {
    if maxNums == 0 then Bad else
    match TaggedFromDer(SEQUENCE, input)
    case Got(d, rest) =>
      (match AllOf(Int(), d, maxNums + 1)
       case Got(nums, _) => Got(nums, rest)
       case _ => Bad)
    case Absent => Absent
    case Bad => Bad
  }

  /** The loop of asn1_sequence_of_int_from_der. */
  method ReadAll(t: Item, d0: bytes, maxNums: nat) returns (ret: int, nums: seq<nat>)
    ensures AllOf(t, d0, maxNums + 1) == if ret == 1 then Got(nums, []) else Bad
  {
    nums := [];
    var d := d0;
    Ahead([], AllOf(t, d, maxNums + 1));
    while d != []
      invariant |nums| <= maxNums + 1 && AllOf(t, d0, maxNums + 1) == Put(nums, AllOf(t, d, maxNums + 1 - |nums|))
      decreases |d|
    {
      if |nums| > maxNums {
        return -1, [];
      }
      var r := t.read(d);
      if !r.Got? || |r.rest| >= |d| {
        return -1, [];
      }
      AheadTwice(nums, [r.value], AllOf(t, r.rest, maxNums - |nums|));
      nums, d := nums + [r.value], r.rest;
    }
    ret := 1;
    assert nums + [] == nums;
  }

  /** A list that was written is read back, with zeros for negative numbers, exactly if there is room for
      some number and it has at most one number more than that. */
  lemma IntsRoundTrip(nums: seq<int>, maxNums: nat, rest: bytes)
    requires (forall i :: 0 <= i < |nums| ==> nums[i] <= INT_MAX) && |All(Int(), nums)| <= INT_MAX
    ensures IntsFromDer(maxNums, Tagged(SEQUENCE, All(Int(), nums)) + rest) ==
      if 0 < maxNums && |nums| <= maxNums + 1 then Got(Floors(nums), rest) else Bad
  {
    IntLaws();
    TaggedRoundTrip(SEQUENCE, All(Int(), nums), rest);
    AllRead(Int(), nums, maxNums + 1);
  }
}
