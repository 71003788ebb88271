/** Bytes and the few operations on byte descriptors the models share. */
module Bytes {
  type byte = b: int | 0 <= b < 256

  type uint32 = n: int | 0 <= n < 0x1_0000_0000

  function Min(a: int, b: int): int {
    if a < b then a else b
  }

  function Max(a: int, b: int): int {
    if a < b then b else a
  }

  /** A value n times. */
  function Repeat<T>(x: T, n: nat): (r: seq<T>)
    ensures |r| == n && forall i :: 0 <= i < n ==> r[i] == x
  {
    seq(n, _ => x)
  }

  /** Pieces put together. */
  function Flatten(pieces: seq<seq<byte>>): seq<byte> {
    if pieces == [] then [] else Flatten(pieces[..|pieces| - 1]) + pieces[|pieces| - 1]
  }

  /** dest.subrange(at).copyFrom(src): copies as much as there is room for. */
  method CopyInto(dest: array<byte>, at: nat, src: seq<byte>) returns (n: nat)
    requires at <= dest.Length
    modifies dest
    ensures n == Min(|src|, dest.Length - at)
    ensures dest[..] == old(dest[..at]) + src[..n] + old(dest[at + n..])
  {
    n := Min(|src|, dest.Length - at);
    var i := 0;
    while i < n
      invariant 0 <= i <= n && dest[..at] == old(dest[..at])
      invariant dest[at..at + i] == src[..i] && dest[at + i..] == old(dest[at + i..])
    {
      ghost var before := dest[..];
      dest[at + i] := src[i];
      assert dest[..] == before[at + i := src[i]];
      assert dest[at..at + i + 1] == before[at..at + i] + [src[i]];
      assert src[..i + 1] == src[..i] + [src[i]];
      i := i + 1;
    }
    assert dest[..] == dest[..at] + dest[at..at + n] + dest[at + n..];
  }

  /** All bytes go behind what the buffer holds. */
  method CopyBehind(dest: array<byte>, at: nat, src: seq<byte>)
    requires at + |src| <= dest.Length
    modifies dest
    ensures dest[..at + |src|] == old(dest[..at]) + src
  {
    var n := CopyInto(dest, at, src);
    assert src[..n] == src;
  }

  /** The bytes that fit go to the front of the buffer. */
  method CopyToFront(dest: array<byte>, src: seq<byte>) returns (n: nat)
    modifies dest
    ensures n == Min(|src|, dest.Length) && dest[..] == src[..n] + old(dest[n..])
  {
    n := CopyInto(dest, 0, src);
    assert [] + src[..n] == src[..n];
  }
}
