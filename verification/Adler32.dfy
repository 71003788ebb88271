/** Adler-32 with deferred reduction, against the definition of sections 2.2 and 8.2 of
    RFC 1950: two sums modulo 65521, reduced after every byte. */
module Adler32 {
  import opened Bytes

  const BASE := 65521

  /** s1 is the sum of all bytes, s2 the sum of all s1 values, both modulo 65521. */
  datatype Sums = Sums(s1: nat, s2: nat)

  function Reduce(s: Sums): Sums {
    Sums(s.s1 % BASE, s.s2 % BASE)
  }

  /** The definition: reduce after every byte. */
  function SumAll(start: Sums, data: seq<byte>): Sums {
    if data == [] then Reduce(start)
    else Fed(SumAll(start, data[..|data| - 1]), data[|data| - 1])
  }

  /** One byte more. */
  function Fed(s: Sums, x: byte): Sums {
    var s1 := (s.s1 + x) % BASE;
    Sums(s1, (s.s2 + s1) % BASE)
  }

  function Unpack(adler: uint32): Sums {
    Sums(adler % 0x10000, adler / 0x10000)
  }

  /** The value stored as s2*65536 + s1. */
  function Checksum(prev: uint32, data: seq<byte>): (r: uint32)
  {
    var s := SumAll(Unpack(prev), data);
    SumAllReduced(Unpack(prev), data);
    s.s2 * 0x10000 + s.s1
  }

  lemma SumAllReduced(start: Sums, data: seq<byte>)
    ensures SumAll(start, data).s1 < BASE && SumAll(start, data).s2 < BASE
  {
  }

  /** The sums without any reduction. */
  function Unreduced(start: Sums, data: seq<byte>): Sums {
    if data == [] then start
    else
      var s := Unreduced(start, data[..|data| - 1]);
      Sums(s.s1 + data[|data| - 1], s.s2 + (s.s1 + data[|data| - 1]))
  }

  /** The largest values the two sums can have n bytes after starting at or below b. */
  function MaxS1(b: nat, n: nat): nat {
    b + 255 * n
  }

  function MaxS2(b: nat, n: nat): nat {
    if n == 0 then b else MaxS2(b, n - 1) + MaxS1(b, n)
  }

  lemma {:induction false} MaxS2Closed(b: nat, n: nat)
    ensures 2 * MaxS2(b, n) == 2 * b * (n + 1) + 255 * n * (n + 1)
  {
    if n > 0 { MaxS2Closed(b, n - 1); }
  }

  lemma {:induction false} MaxS2Grows(b: nat, m: nat, n: nat)
    requires m <= n
    ensures MaxS2(b, m) <= MaxS2(b, n)
  {
    if m < n { MaxS2Grows(b, m, n - 1); }
  }

  lemma {:induction false} BoundIsReached(n: nat)
    ensures Unreduced(Sums(0xFFFF, 0xFFFF), Repeat<byte>(255, n)) == Sums(MaxS1(0xFFFF, n), MaxS2(0xFFFF, n))
  {
    if n > 0 {
      var all: seq<byte> := Repeat<byte>(255, n);
      assert all[..n - 1] == Repeat<byte>(255, n - 1);
      BoundIsReached(n - 1);
    } else {
      assert Repeat<byte>(255, 0) == [];
    }
  }

  lemma {:induction false} BoundHolds(start: Sums, data: seq<byte>)
    requires start.s1 <= 0xFFFF && start.s2 <= 0xFFFF
    ensures var s := Unreduced(start, data); s.s1 <= MaxS1(0xFFFF, |data|) && s.s2 <= MaxS2(0xFFFF, |data|)
  {
    if data != [] { BoundHolds(start, data[..|data| - 1]); }
  }

  ghost predicate Fits(s: Sums) {
    s.s1 < 0x1_0000_0000 && s.s2 < 0x1_0000_0000
  }

  /** n bytes may be added without reducing, whatever they are and from whatever 16-bit start
      values, exactly up to n = 5552. */
  lemma DeferralLimit(n: nat)
    ensures n <= 5552 <==>
      forall start: Sums, data: seq<byte> :: |data| == n && start.s1 <= 0xFFFF && start.s2 <= 0xFFFF ==>
        Fits(Unreduced(start, data))
  {
    BoundLimit(n);
    if n <= 5552 {
      forall start: Sums, data: seq<byte> | |data| == n && start.s1 <= 0xFFFF && start.s2 <= 0xFFFF
        ensures Fits(Unreduced(start, data))
      {
        BoundHolds(start, data);
      }
    } else {
      var worst: seq<byte> := Repeat<byte>(255, n);
      BoundIsReached(n);
      assert !Fits(Unreduced(Sums(0xFFFF, 0xFFFF), worst));
    }
  }

  lemma BoundLimit(n: nat)
    ensures MaxS2(0xFFFF, n) < 0x1_0000_0000 <==> n <= 5552
    ensures n <= 5552 ==> MaxS1(0xFFFF, n) < 0x1_0000_0000
  {
    var most: nat, b: nat := 5552, 0xFFFF;
    MaxS2Closed(b, most);
    MaxS2Closed(b, most + 1);
    if n <= most { MaxS2Grows(b, n, most); } else { MaxS2Grows(b, most + 1, n); }
  }

  /** Unreduced sums n bytes after both were at most 65535, which stand for the sums r. */
  ghost predicate Deferred(s1: nat, s2: nat, n: nat, r: Sums) {
    s1 <= MaxS1(0xFFFF, n) && s2 <= MaxS2(0xFFFF, n) && Reduce(Sums(s1, s2)) == r
  }

  lemma Remainder(u: nat, k: int, v: nat)
    requires u == BASE * k + v && v < BASE
    ensures u % BASE == v
  {
  }

  lemma ModAdd(a: nat, x: nat)
    ensures (a % BASE + x) % BASE == (a + x) % BASE
  {
    var y := a % BASE + x;
    Remainder(a + x, a / BASE + y / BASE, y % BASE);
  }

  lemma StepMod(a: nat, b: nat, x: byte)
    ensures (a % BASE + x) % BASE == (a + x) % BASE
    ensures (b % BASE + (a + x) % BASE) % BASE == (b + (a + x)) % BASE
  {
    ModAdd(a, x);
    ModAdd(b, (a + x) % BASE);
    ModAdd(a + x, b);
  }

  lemma AddByte(s1: nat, s2: nat, n: nat, r: Sums, x: byte)
    requires Deferred(s1, s2, n, r)
    ensures Deferred(s1 + x, s2 + (s1 + x), n + 1, Fed(r, x))
  {
    StepMod(s1, s2, x);
  }

  lemma ReduceNow(s1: nat, s2: nat, n: nat, r: Sums)
    requires Deferred(s1, s2, n, r)
    ensures Deferred(s1 % BASE, s2 % BASE, 0, r)
  {
  }

  lemma DeferredFits(s1: nat, s2: nat, n: nat, r: Sums)
    requires Deferred(s1, s2, n, r) && n <= 5501
    ensures s1 < 0x1_0000_0000 && s2 < 0x1_0000_0000
  {
    BoundLimit(n);
  }

  lemma Finish(s1: nat, s2: nat, n: nat, prev: uint32, data: seq<byte>)
    requires Deferred(s1, s2, n, SumAll(Unpack(prev), data))
    ensures (s2 % BASE) * 0x10000 + s1 % BASE == Checksum(prev, data)
  {
  }

  /** One round of the loop of add: a reduction when one is due, then the byte. */
  method AddOne(x: byte, sum1: uint32, sum2: uint32, count: uint32, ghost k: nat, ghost r: Sums)
    returns (s1: uint32, s2: uint32, counter: uint32, ghost n: nat)
    requires count <= 5500 && count <= k <= count + 1 && Deferred(sum1, sum2, k, r)
    ensures counter <= 5500 && counter <= n <= counter + 1 && Deferred(s1, s2, n, Fed(r, x))
  {
    s1, s2, counter, n := sum1, sum2, count + 1, k;
    if counter > 5500 {
      ReduceNow(s1, s2, n, r);
      s1, s2 := s1 % BASE, s2 % BASE;
      counter, n := 0, 0;
    }
    AddByte(s1, s2, n, r, x);
    n := n + 1;
    DeferredFits(s1 + x, s2 + (s1 + x), n, Fed(r, x));
    s1 := s1 + x;
    s2 := s2 + s1;
  }

  /** The loop of add: every addition fits in 32 bits, and the sums are right modulo 65521. */
  method AddBytes(data: seq<byte>, start1: uint32, start2: uint32) returns (s1: uint32, s2: uint32, ghost n: nat)
    requires start1 <= 0xFFFF && start2 <= 0xFFFF
    ensures Deferred(s1, s2, n, SumAll(Sums(start1, start2), data))
    ensures Reduce(Sums(s1, s2)) == SumAll(Sums(start1, start2), data)
  {
    ghost var start := Sums(start1, start2);
    s1, s2, n := start1, start2, 0;
    var counter: uint32, i := 0, 0;
    while i < |data|
      invariant 0 <= i <= |data| && counter <= 5500 && counter <= n <= counter + 1
      invariant Deferred(s1, s2, n, SumAll(start, data[..i]))
    {
      s1, s2, counter, n := AddOne(data[i], s1, s2, counter, n, SumAll(start, data[..i]));
      assert data[..i + 1][..i] == data[..i];
      i := i + 1;
    }
    assert data[..i] == data;
  }

  /** Adds data to a checksum. */
  method Add(data: seq<byte>, prev: uint32) returns (adler: uint32)
    ensures adler == Checksum(prev, data)
  {
    var s1, s2, n := AddBytes(data, prev % 0x10000, prev / 0x10000);
    Finish(s1, s2, n, prev, data);
    s1, s2 := s1 % BASE, s2 % BASE;
    adler := s2 * 0x10000 + s1;
  }

  /** Splitting the message anywhere and chaining gives the same checksum. */
  lemma ChecksumChains(prev: uint32, a: seq<byte>, b: seq<byte>)
    ensures Checksum(Checksum(prev, a), b) == Checksum(prev, a + b)
  {
    UnpackChecksum(prev, a);
    SumAllChains(Unpack(prev), a, b);
  }

  lemma UnpackChecksum(prev: uint32, a: seq<byte>)
    ensures Unpack(Checksum(prev, a)) == SumAll(Unpack(prev), a)
  {
    SumAllReduced(Unpack(prev), a);
    UnpackPacked(SumAll(Unpack(prev), a));
  }

  lemma UnpackPacked(s: Sums)
    requires s.s1 < BASE && s.s2 < BASE
    ensures s.s2 * 0x10000 + s.s1 <= 0xFFFF_FFFF && Unpack(s.s2 * 0x10000 + s.s1) == s
  {
  }

  lemma {:induction false} SumAllChains(start: Sums, a: seq<byte>, b: seq<byte>)
    ensures SumAll(SumAll(start, a), b) == SumAll(start, a + b)
    decreases |b|
  {
    if b == [] {
      assert a + b == a;
      SumAllReduced(start, a);
    } else {
      SumAllChains(start, a, b[..|b| - 1]);
      assert (a + b)[..|a + b| - 1] == a + b[..|b| - 1];
    }
  }
}
