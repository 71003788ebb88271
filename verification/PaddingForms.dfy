/** The padding of MD5, SHA-1 and SHA-2 byte by byte, and the chain of states over the blocks. */
module PaddingForms {
  import opened Bytes
  import opened Padding
  import Md5
  import Sha1
  import Sha2

  lemma UniqueQuotient(n: nat, m: nat, q: nat, r: nat)
    requires r < m && n == q * m + r
    ensures n / m == q
  {
    UniqueRemainder(n, m, q, r);
    SameFactor(n / m, q, m);
  }

  lemma SameFactor(a: nat, b: nat, m: nat)
    requires m > 0 && a * m == b * m
    ensures a == b
  {
  }

  lemma DivideTwice(n: nat, p: nat)
    requires p > 0
    ensures n / 256 / p == n / (256 * p)
  {
    var q, d := n / 256 / p, n / 256 % p;
    assert n / 256 == q * p + d;
    assert 256 * (q * p + d) == q * (256 * p) + 256 * d;
    UniqueQuotient(n, 256 * p, q, 256 * d + n % 256);
  }

  /** Byte i of a little-endian field is digit i in base 256. */
  lemma {:induction false} LittleDigit(n: nat, k: nat, i: nat)
    requires i < k
    ensures LittleEndian(n, k)[i] == n / Power(i) % 256
    decreases k
  {
    if i > 0 {
      LittleDigit(n / 256, k - 1, i - 1);
      DivideTwice(n, Power(i - 1));
    }
  }

  /** Padding is a byte 0x80, zeros, and the length in bits with digit i of base 256 in byte i,
      counted from the front in MD5 and from the end in the others. */
  lemma PadBytes(a: Algorithm, n: nat, i: nat)
    requires WellFormed(a)
    ensures var p := Pad(a, n); var size := |p|;
      && size > a.field && (i == 0 ==> p[i] == 0x80) && (0 < i < size - a.field ==> p[i] == 0)
      && (i < a.field ==>
            p[if a.littleEndian then size - a.field + i else size - 1 - i] == 8 * n / Power(i) % 256)
  {
    PadParts(a, n);
    if i < a.field { LengthDigit(a, n, i); }
  }

  lemma PadParts(a: Algorithm, n: nat)
    requires WellFormed(a)
    ensures var p, z := Pad(a, n), PadZeros(n, a.block, a.field);
      && |p| == 1 + z + a.field && p[0] == 0x80 && (forall i :: 0 < i <= z ==> p[i] == 0)
      && (forall j :: 0 <= j < a.field ==> p[1 + z + j] == LengthField(a, n)[j])
  {
  }

  lemma LengthDigit(a: Algorithm, n: nat, i: nat)
    requires WellFormed(a) && i < a.field
    ensures LengthField(a, n)[if a.littleEndian then i else a.field - 1 - i] == 8 * n / Power(i) % 256
  {
    LittleDigit(8 * n, a.field, i);
    LittleIsReversed(8 * n, a.field, i);
  }

  /** MD5 puts the length low byte first, SHA-1 and SHA-2 high byte first. */
  lemma LastBytes(a: Algorithm, n: nat, i: nat)
    requires WellFormed(a) && i < a.field
    ensures var p := Pad(a, n); var size := |p|;
      && size >= a.field
      && (Md5.IsMd5(a) ==> p[size - 8 + i] == 8 * n / Power(i) % 256)
      && (Sha1.IsSha1(a) || Sha2.IsSha2(a) ==> p[size - 1 - i] == 8 * n / Power(i) % 256)
  {
    PadBytes(a, n, i);
  }

  // The chain of states.

  /** Each state is made from the one before it and the next block. */
  ghost predicate Chain(a: Algorithm, states: seq<State>, msg: seq<byte>)
    requires WellFormed(a)
  {
    && |states| > 0 && |msg| == (|states| - 1) * a.block
    && forall i: nat {:trigger BlockAt(msg, a.block, i)} :: i + 1 < |states| ==>
      states[i + 1] == a.compress(states[i], BlockAt(msg, a.block, i))
  }

  /** Block i of a message. */
  ghost function BlockAt(msg: seq<byte>, block: nat, i: nat): seq<byte> {
    if (i + 1) * block <= |msg| then msg[i * block..(i + 1) * block] else []
  }

  lemma NextBlockAt(msg: seq<byte>, block: nat, i: nat)
    requires block <= |msg|
    ensures BlockAt(msg[block..], block, i) == BlockAt(msg, block, i + 1)
  {
    OneMore(i, block);
    OneMore(i + 1, block);
  }

  lemma ChainRest(a: Algorithm, states: seq<State>, msg: seq<byte>)
    requires WellFormed(a) && Chain(a, states, msg) && |states| > 1
    ensures a.block <= |msg| && Chain(a, states[1..], msg[a.block..])
    ensures states[1] == a.compress(states[0], msg[..a.block])
  {
    var n := |states| - 2;
    OneMore(n, a.block);
    assert BlockAt(msg, a.block, 0) == msg[..a.block];
    forall i: nat | i + 1 < |states[1..]|
      ensures states[1..][i + 1] == a.compress(states[1..][i], BlockAt(msg[a.block..], a.block, i))
    {
      NextBlockAt(msg, a.block, i);
    }
  }

  /** Folding over whole blocks gives the last state of their chain. */
  lemma {:induction false} FoldIsChain(a: Algorithm, states: seq<State>, msg: seq<byte>)
    requires WellFormed(a) && Chain(a, states, msg)
    ensures Fold(a, states[0], msg) == states[|states| - 1]
    decreases |states|
  {
    if |states| > 1 {
      ChainRest(a, states, msg);
      FoldIsChain(a, states[1..], msg[a.block..]);
    }
  }

  /** The final state of a message is the last of the chain over the padded message. */
  lemma FinalIsChain(a: Algorithm, states: seq<State>, msg: seq<byte>)
    requires WellFormed(a) && Chain(a, states, msg + Pad(a, |msg|)) && states[0] == a.initial
    ensures Final(a, msg) == states[|states| - 1]
  {
    FoldIsChain(a, states, msg + Pad(a, |msg|));
  }
}
