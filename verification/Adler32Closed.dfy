/** Adler-32 in closed form: the two sums of section 8.2 of RFC 1950 as plain sums over the bytes,
    reduced once. */
module Adler32Closed {
  import opened Bytes
  import opened Padding
  import opened Adler32

  function Sum(data: seq<byte>, k: nat): nat
    requires k <= |data|
  {
    if k == 0 then 0 else Sum(data, k - 1) + data[k - 1]
  }

  /** The sum of the first k bytes, the i-th of them counted n - i times. */
  function Weighted(data: seq<byte>, n: nat, k: nat): nat
    requires k <= |data| && k <= n
  {
    if k == 0 then 0 else Weighted(data, n, k - 1) + (n - (k - 1)) * data[k - 1]
  }

  lemma {:induction false} SameFront(data: seq<byte>, m: nat, n: nat, k: nat)
    requires k <= m <= |data| && k <= n
    ensures Sum(data[..m], k) == Sum(data, k) && Weighted(data[..m], n, k) == Weighted(data, n, k)
    decreases k
  {
    if k > 0 { SameFront(data, m, n, k - 1); }
  }

  /** One more for each. */
  lemma {:induction false} WeightedMore(data: seq<byte>, n: nat, k: nat)
    requires k <= |data| && k <= n
    ensures Weighted(data, n + 1, k) == Weighted(data, n, k) + Sum(data, k)
    decreases k
  {
    if k > 0 {
      WeightedMore(data, n, k - 1);
      assert (n + 1 - (k - 1)) * data[k - 1] == (n - (k - 1)) * data[k - 1] + data[k - 1];
    }
  }

  /** The sums before any reduction. */
  lemma {:induction false} UnreducedClosed(start: Sums, data: seq<byte>)
    ensures var n, s := |data|, Unreduced(start, data);
      s.s1 == start.s1 + Sum(data, n) && s.s2 == start.s2 + n * start.s1 + Weighted(data, n, n)
    decreases |data|
  {
    if data != [] {
      var n := |data|;
      var front := data[..n - 1];
      UnreducedClosed(start, front);
      LastByte(data);
      OneMore(n - 1, start.s1);
    }
  }

  lemma LastByte(data: seq<byte>)
    requires data != []
    ensures var n, front := |data|, data[..|data| - 1];
      && Sum(data, n) == Sum(front, n - 1) + data[n - 1]
      && Weighted(data, n, n) == Weighted(front, n - 1, n - 1) + Sum(data, n)
  {
    var n := |data|;
    SameFront(data, n - 1, n - 1, n - 1);
    WeightedMore(data, n - 1, n - 1);
    assert (n - (n - 1)) * data[n - 1] == data[n - 1];
  }

  lemma {:induction false} UnreducedReduces(start: Sums, data: seq<byte>)
    ensures Reduce(Unreduced(start, data)) == SumAll(start, data)
    decreases |data|
  {
    if data != [] {
      var front, x := data[..|data| - 1], data[|data| - 1];
      var s := Unreduced(start, front);
      UnreducedReduces(start, front);
      FedReduces(s, x);
    }
  }

  lemma FedReduces(s: Sums, x: byte)
    ensures Fed(Reduce(s), x) == Reduce(Sums(s.s1 + x, s.s2 + (s.s1 + x)))
  {
    ReducedPlus(s.s1, x);
    ReducedPlus(s.s2, (s.s1 + x) % BASE);
    ReducedPlus(s.s1 + x, s.s2);
  }

  lemma ReducedPlus(a: nat, b: nat)
    ensures (a % BASE + b) % BASE == (a + b) % BASE
  {
    UniqueRemainder(a + b, BASE, a / BASE + (a % BASE + b) / BASE, (a % BASE + b) % BASE);
  }

  /** The checksum of a message, continued from a previous one: the low half is the sum of the
      bytes, the high half the sum of all intermediate sums, each modulo 65521. */
  lemma ChecksumClosed(prev: uint32, data: seq<byte>)
    ensures var n, lo, hi := |data|, prev % 0x1_0000, prev / 0x1_0000;
      && Checksum(prev, data) % 0x1_0000 == (lo + Sum(data, n)) % 65521
      && Checksum(prev, data) / 0x1_0000 == (hi + n * lo + Weighted(data, n, n)) % 65521
  {
    UnreducedClosed(Unpack(prev), data);
    UnreducedReduces(Unpack(prev), data);
    UnpackChecksum(prev, data);
  }
}
