/** CRC-32 and CRC-16: the table-driven checksum against the bit-serial shift register.

    A register of either width is the list of its bits, the least significant first, so
    that one proof serves every width of at least one byte.  CRC-32 complements the value
    it starts from and the value it returns, CRC-16 does not. */
module Crc {
  import opened Bytes

  type Bits = seq<bool>

  const BYTE: nat := 8

  function Xor(a: Bits, b: Bits): (r: Bits)
    requires |a| == |b|
    ensures |r| == |a| && forall i :: 0 <= i < |r| ==> r[i] == (a[i] != b[i])
  {
    seq(|a|, i requires 0 <= i < |a| => a[i] != b[i])
  }

  function Not(a: Bits): (r: Bits)
    ensures |r| == |a| && forall i :: 0 <= i < |r| ==> r[i] == !a[i]
  {
    seq(|a|, i requires 0 <= i < |a| => !a[i])
  }

  /** a >> k */
  function Shr(a: Bits, k: nat): (r: Bits)
    requires k <= |a|
    ensures |r| == |a| && forall i :: 0 <= i < |r| ==> r[i] == (i + k < |a| && a[i + k])
  {
    a[k..] + Repeat(false, k)
  }

  /** Bits as the low end of a wider register. */
  function Widen(bits: Bits, w: nat): (r: Bits)
    requires |bits| <= w
    ensures |r| == w && forall i :: 0 <= i < w ==> r[i] == (i < |bits| && bits[i])
  {
    bits + Repeat(false, w - |bits|)
  }

  function BitsOf(n: nat, k: nat): (r: Bits)
    ensures |r| == k
    decreases k
  {
    if k == 0 then [] else [n % 2 == 1] + BitsOf(n / 2, k - 1)
  }

  function ToNat(bits: Bits): nat {
    if bits == [] then 0 else (if bits[0] then 1 else 0) + 2 * ToNat(bits[1..])
  }

  lemma {:induction false} BitsRoundTrip(bits: Bits)
    ensures BitsOf(ToNat(bits), |bits|) == bits
  {
    if bits != [] { BitsRoundTrip(bits[1..]); }
  }

  lemma ByteIndex(bits: Bits)
    requires |bits| == 8
    ensures ToNat(bits) < 256
  {
    assert ToNat(bits[7..]) <= 1;
    assert ToNat(bits[6..]) <= 3;
    assert ToNat(bits[5..]) <= 7;
    assert ToNat(bits[4..]) <= 15;
    assert ToNat(bits[3..]) <= 31;
    assert ToNat(bits[2..]) <= 63;
    assert ToNat(bits[1..]) <= 127;
  }

  // The definition: a shift register fed one bit at a time, low bit of each byte first.

  function FeedBit(poly: Bits, reg: Bits, bit: bool): (r: Bits)
    requires |reg| == |poly| > 0
    ensures |r| == |poly|
  {
    if reg[0] != bit then Xor(Shr(reg, 1), poly) else Shr(reg, 1)
  }

  function FeedBits(poly: Bits, reg: Bits, bits: Bits): (r: Bits)
    requires |reg| == |poly| > 0
    ensures |r| == |poly|
    decreases |bits|
  {
    if bits == [] then reg else FeedBits(poly, FeedBit(poly, reg, bits[0]), bits[1..])
  }

  function FeedAll(poly: Bits, reg: Bits, msg: seq<byte>): (r: Bits)
    requires |reg| == |poly| > 0
    ensures |r| == |poly|
    decreases |msg|
  {
    if msg == [] then reg
    else FeedBits(poly, FeedAll(poly, reg, msg[..|msg| - 1]), BitsOf(msg[|msg| - 1], BYTE))
  }

  /** The checksum, continued from a previous one. */
  function Checksum(poly: Bits, invert: bool, prev: Bits, msg: seq<byte>): (r: Bits)
    requires |prev| == |poly| > 0
    ensures |r| == |poly|
  {
    if invert then Not(FeedAll(poly, Not(prev), msg)) else FeedAll(poly, prev, msg)
  }

  // The table.

  function Step(poly: Bits, n: Bits): (r: Bits)
    requires |n| == |poly| > 0
    ensures |r| == |poly|
  {
    if n[0] then Xor(poly, Shr(n, 1)) else Shr(n, 1)
  }

  function Steps(poly: Bits, n: Bits, k: nat): (r: Bits)
    requires |n| == |poly| > 0
    ensures |r| == |poly|
    decreases k
  {
    if k == 0 then n else Steps(poly, Step(poly, n), k - 1)
  }

  /** The table entry for a low byte. */
  function Entry(poly: Bits, low: Bits): (r: Bits)
    requires |low| <= |poly| && |poly| > 0
    ensures |r| == |poly|
  {
    Steps(poly, Widen(low, |poly|), |low|)
  }

  ghost predicate IsEntry(e: Bits, poly: Bits, i: nat) {
    |poly| >= BYTE && e == Entry(poly, BitsOf(i, BYTE))
  }

  // Shifting is linear.

  lemma StepXor(poly: Bits, a: Bits, b: Bits)
    requires |a| == |b| == |poly| > 0
    ensures Step(poly, Xor(a, b)) == Xor(Step(poly, a), Step(poly, b))
  {
  }

  lemma {:induction false} StepsXor(poly: Bits, a: Bits, b: Bits, k: nat)
    requires |a| == |b| == |poly| > 0
    ensures Steps(poly, Xor(a, b), k) == Xor(Steps(poly, a, k), Steps(poly, b, k))
    decreases k
  {
    if k > 0 {
      StepXor(poly, a, b);
      StepsXor(poly, Step(poly, a), Step(poly, b), k - 1);
    }
  }

  /** As long as only zero bits leave the register, shifting is all that happens. */
  lemma {:induction false} StepsZeros(poly: Bits, n: Bits, k: nat)
    requires |n| == |poly| > 0 && k <= |n| && forall i :: 0 <= i < k ==> !n[i]
    ensures Steps(poly, n, k) == Shr(n, k)
    decreases k
  {
    if k > 0 {
      StepsZeros(poly, Shr(n, 1), k - 1);
      assert Shr(Shr(n, 1), k - 1) == Shr(n, k);
    } else {
      assert Shr(n, 0) == n;
    }
  }

  /** Many shifts at once: look up the low bits, shift the rest. */
  lemma LookupIsSteps(poly: Bits, x: Bits, k: nat)
    requires |x| == |poly| > 0 && k <= |x|
    ensures Steps(poly, x, k) == Xor(Entry(poly, x[..k]), Shr(x, k))
  {
    var lo, hi := Widen(x[..k], |x|), Repeat(false, k) + x[k..];
    assert x == Xor(lo, hi);
    StepsXor(poly, lo, hi, k);
    StepsZeros(poly, hi, k);
    assert Shr(hi, k) == Shr(x, k);
  }

  /** Feeding bits is xoring them in and shifting. */
  lemma {:induction false} FeedBitsIsSteps(poly: Bits, reg: Bits, bits: Bits)
    requires |reg| == |poly| > 0 && |bits| <= |poly|
    ensures FeedBits(poly, reg, bits) == Steps(poly, Xor(reg, Widen(bits, |poly|)), |bits|)
    decreases |bits|
  {
    var w := |poly|;
    if bits == [] {
      assert Xor(reg, Widen(bits, w)) == reg;
    } else {
      FeedBitsIsSteps(poly, FeedBit(poly, reg, bits[0]), bits[1..]);
      FeedBitIsStep(poly, reg, bits);
    }
  }

  lemma FeedBitIsStep(poly: Bits, reg: Bits, bits: Bits)
    requires |reg| == |poly| > 0 && 0 < |bits| <= |poly|
    ensures Step(poly, Xor(reg, Widen(bits, |poly|))) == Xor(FeedBit(poly, reg, bits[0]), Widen(bits[1..], |poly|))
  {
  }

  /** One round of the loop in add is one byte through the shift register. */
  lemma RoundIsFeedBits(poly: Bits, reg: Bits, bits: Bits)
    requires |reg| == |poly| > 0 && |bits| <= |poly|
    ensures var x := Xor(Widen(bits, |poly|), reg);
      Xor(Entry(poly, x[..|bits|]), Shr(reg, |bits|)) == FeedBits(poly, reg, bits)
  {
    var wide, k := Widen(bits, |poly|), |bits|;
    var x := Xor(wide, reg);
    FeedBitsIsSteps(poly, reg, bits);
    LookupIsSteps(poly, x, k);
    assert Xor(reg, wide) == x;
    assert Shr(x, k) == Shr(reg, k);
  }

  /** The inner loop of init. */
  method ComputeEntry(poly: Bits, i: nat) returns (n: Bits)
    requires |poly| >= BYTE
    ensures IsEntry(n, poly, i)
  {
    n := Widen(BitsOf(i, BYTE), |poly|);
    var bit := 0;
    while bit < BYTE
      invariant 0 <= bit <= BYTE && |n| == |poly| && Steps(poly, n, BYTE - bit) == Entry(poly, BitsOf(i, BYTE))
    {
      n := if n[0] then Xor(poly, Shr(n, 1)) else Shr(n, 1);
      bit := bit + 1;
    }
  }

  class CrcTable {
    const table: array<Bits>
    const invert: bool
    ghost const poly: Bits

    ghost predicate Valid()
      reads table
    {
      && |poly| >= BYTE && table.Length == 256
      && forall i {:trigger IsEntry(table[i], poly, i)} :: 0 <= i < 256 ==> IsEntry(table[i], poly, i)
    }

    /** Computes the table. */
    constructor (poly: Bits, invert: bool)
      requires |poly| >= BYTE
      ensures Valid() && fresh(table) && this.poly == poly && this.invert == invert
    {
      this.poly, this.invert := poly, invert;
      var t := new Bits[256];
      var i := 0;
      while i < 256
        invariant 0 <= i <= 256
        invariant forall j {:trigger IsEntry(t[j], poly, j)} :: 0 <= j < i ==> IsEntry(t[j], poly, j)
      {
        ghost var before := t[..];
        assert forall j {:trigger before[j]} :: 0 <= j < i ==> IsEntry(before[j], poly, j);
        var e := ComputeEntry(poly, i);
        t[i] := e;
        forall j | 0 <= j < i + 1
          ensures IsEntry(t[j], poly, j)
        {
          assert j < i ==> t[j] == before[j];
        }
        i := i + 1;
      }
      table := t;
    }

    /** One round of the loop in add: one byte through the shift register. */
    method AddByte(b: byte, accum: Bits) returns (next: Bits)
      requires Valid() && |accum| == |poly|
      ensures next == FeedBits(poly, accum, BitsOf(b, BYTE))
    {
      var bits := BitsOf(b, BYTE);
      var x := Xor(Widen(bits, |accum|), accum);
      var low := x[..BYTE];
      ByteIndex(low);
      BitsRoundTrip(low);
      assert IsEntry(table[ToNat(low)], poly, ToNat(low));
      RoundIsFeedBits(poly, accum, bits);
      next := Xor(table[ToNat(low)], Shr(accum, BYTE));
    }

    /** Adds data to a checksum: equals the shift register fed with all bits. */
    method Add(data: seq<byte>, prev: Bits) returns (crc: Bits)
      requires Valid() && |prev| == |poly|
      ensures crc == Checksum(poly, invert, prev, data)
    {
      var accum := AddBytes(data, if invert then Not(prev) else prev);
      crc := if invert then Not(accum) else accum;
    }

    /** The loop of add. */
    method AddBytes(data: seq<byte>, start: Bits) returns (accum: Bits)
      requires Valid() && |start| == |poly|
      ensures accum == FeedAll(poly, start, data)
    {
      accum := start;
      var i := 0;
      while i < |data|
        invariant 0 <= i <= |data| && |accum| == |poly| && accum == FeedAll(poly, start, data[..i])
      {
        accum := AddByte(data[i], accum);
        FeedAllNext(poly, start, data, i);
        i := i + 1;
      }
      assert data[..i] == data;
    }
  }

  lemma FeedAllNext(poly: Bits, reg: Bits, data: seq<byte>, i: nat)
    requires |reg| == |poly| > 0 && i < |data|
    ensures FeedAll(poly, reg, data[..i + 1]) == FeedBits(poly, FeedAll(poly, reg, data[..i]), BitsOf(data[i], BYTE))
  {
    assert data[..i + 1][..i] == data[..i];
  }

  /** Splitting the message anywhere and chaining gives the same checksum. */
  lemma ChecksumChains(poly: Bits, invert: bool, prev: Bits, a: seq<byte>, b: seq<byte>)
    requires |prev| == |poly| > 0
    ensures Checksum(poly, invert, Checksum(poly, invert, prev, a), b) == Checksum(poly, invert, prev, a + b)
  {
    var start := if invert then Not(prev) else prev;
    FeedAllChains(poly, start, a, b);
    assert Not(Not(FeedAll(poly, start, a))) == FeedAll(poly, start, a);
  }

  lemma {:induction false} FeedAllChains(poly: Bits, reg: Bits, a: seq<byte>, b: seq<byte>)
    requires |reg| == |poly| > 0
    ensures FeedAll(poly, FeedAll(poly, reg, a), b) == FeedAll(poly, reg, a + b)
    decreases |b|
  {
    if b == [] {
      assert a + b == a;
    } else {
      var front, last := b[..|b| - 1], b[|b| - 1];
      FeedAllChains(poly, reg, a, front);
      WithLast(a, b);
      FeedLast(poly, reg, a + front, last);
      FeedLast(poly, FeedAll(poly, reg, a), front, last);
    }
  }

  lemma WithLast(a: seq<byte>, b: seq<byte>)
    requires b != []
    ensures b == b[..|b| - 1] + [b[|b| - 1]] && a + b == (a + b[..|b| - 1]) + [b[|b| - 1]]
  {
  }

  lemma FeedLast(poly: Bits, reg: Bits, msg: seq<byte>, x: byte)
    requires |reg| == |poly| > 0
    ensures FeedAll(poly, reg, msg + [x]) == FeedBits(poly, FeedAll(poly, reg, msg), BitsOf(x, BYTE))
  {
    assert (msg + [x])[..|msg|] == msg;
  }
}
