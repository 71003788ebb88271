/** The millisecond tick counter, which wraps around at 32 bits. */
module Ticks {
  import opened Bytes

  const WRAP: nat := 0x1_0000_0000
  const INFINITE: nat := 0xFFFF_FFFF

  /** a - b in 32 bits. */
  function Minus(a: uint32, b: uint32): uint32 {
    (a - b) % WRAP
  }

  function Plus(a: uint32, b: uint32): uint32 {
    (a + b) % WRAP
  }

  /** The counter has 32 bits, and the two operations undo each other. */
  lemma WrapsAround(a: uint32, b: uint32)
    ensures Plus(0xFFFF_FFFF, 1) == 0 && Minus(0, 1) == 0xFFFF_FFFF
    ensures Plus(Minus(a, b), b) == a && Minus(Plus(a, b), b) == a
  {
    Once(Minus(a, b) + b, if a < b then -1 else 0, a);
    Once(Plus(a, b) - b, if a + b < WRAP then 0 else 1, a);
  }

  // The same on a time that does not wrap around.

  lemma MinusIs(t: nat, last: nat)
    requires last <= t < last + WRAP
    ensures Minus(t % WRAP, last % WRAP) == t - last
  {
    Wrapped(t);
    Wrapped(last);
    Once(t % WRAP - last % WRAP, t / WRAP - last / WRAP, t - last);
  }

  lemma Wrapped(n: nat)
    ensures n == WRAP * (n / WRAP) + n % WRAP && 0 <= n % WRAP < WRAP
  {
  }

  lemma Once(x: int, q: int, r: nat)
    requires r < WRAP && x == r - WRAP * q
    ensures x % WRAP == r
  {
  }

  lemma SameTick(x: int, y: int, q: int)
    requires x == y + WRAP * q
    ensures x % WRAP == y % WRAP
  {
    Once(x, -(y / WRAP) - q, y % WRAP);
  }

  lemma PlusIs(t: nat, d: uint32)
    ensures Plus(t % WRAP, d) == (t + d) % WRAP
  {
    Wrapped(t);
    Wrapped(t + d);
    Once(t % WRAP + d, t / WRAP - (t + d) / WRAP, (t + d) % WRAP);
  }
}
