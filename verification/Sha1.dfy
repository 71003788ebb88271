/** SHA-1: reblocking and padding around an unspecified compression function. */
module Sha1 {
  import opened Bytes
  import opened Padding

  /** The parameters of section 4 of RFC 3174. */
  predicate IsSha1(a: Algorithm) {
    a.block == 64 && a.field == 8 && !a.littleEndian
  }

  class Sha1 {
    const algorithm: Algorithm
    const block: array<byte>
    var bytes: nat
    var state: State
    ghost var message: seq<byte>

    /** The block and the state stand for the message added so far. */
    ghost predicate Valid()
      reads this, block
    {
      && IsSha1(algorithm) && block.Length == 64
      && bytes == |message| % WORD
      && Absorbed(algorithm, message, state, block[..bytes % 64])
    }

    constructor (algorithm: Algorithm)
      requires IsSha1(algorithm)
      ensures Valid() && fresh(block) && this.algorithm == algorithm && message == []
    {
      this.algorithm := algorithm;
      block := new byte[64];
      bytes, state, message := 0, algorithm.initial, [];
      AbsorbNothing(algorithm);
    }

    constructor Copy(other: Sha1)
      requires other.Valid()
      ensures Valid() && fresh(block)
      ensures algorithm == other.algorithm && message == other.message && bytes == other.bytes
    {
      algorithm := other.algorithm;
      var b := new byte[64](i requires 0 <= i < 64 reads other.block => other.block[i]);
      block := b;
      bytes, state, message := other.bytes, other.state, other.message;
      new;
      assert block[..] == other.block[..];
      assert block[..bytes % 64] == other.block[..bytes % 64];
    }

    method Clear()
      requires Valid()
      modifies this
      ensures Valid() && message == []
    {
      bytes, state, message := 0, algorithm.initial, [];
      AbsorbNothing(algorithm);
    }

    /** Compresses whole blocks of data; there are none when a partial block could not be completed. */
    method EatBlocks(ghost index: nat, input: seq<byte>, ghost part: seq<byte>, ghost all: seq<byte>)
      returns (data: seq<byte>)
      requires IsSha1(algorithm) && Absorbed(algorithm, all, state, part + input)
      requires |part| == index && (index != 0 ==> index + |input| < 64)
      modifies this`state
      ensures Absorbed(algorithm, all, state, part + data) && index + |data| < 64
    {
      data := input;
      while |data| >= 64
        invariant Absorbed(algorithm, all, state, part + data)
        invariant index != 0 ==> index + |data| < 64
      {
        assert part + data == data[..64] + data[64..];
        AbsorbBlock(algorithm, all, state, data[..64], data[64..]);
        assert part + data[64..] == data[64..];
        state := algorithm.compress(state, data[..64]);
        data := data[64..];
      }
    }

    method Add(input: seq<byte>)
      requires Valid()
      modifies this, block
      ensures Valid() && message == old(message) + input
    {
      var data := input;
      var index := bytes % 64;
      ghost var part, all := block[..index], message + data;
      AbsorbMore(algorithm, message, state, part, data);
      CountKeepsIndex(|message|, |data|);
      bytes := (bytes + |data|) % WORD;
      message := all;
      var room := 64 - index;
      if index != 0 && |data| >= room {
        CopyBehind(block, index, data[..room]);
        assert data == data[..room] + data[room..];
        assert part + data == block[..] + data[room..];
        AbsorbBlock(algorithm, all, state, block[..], data[room..]);
        state := algorithm.compress(state, block[..]);
        index, data, part := 0, data[room..], [];
        assert part + data == data;
      }
      if index == 0 {
        assert part + data == data;
      }
      data := EatBlocks(index, data, part, all);
      KeepRest(index, data, part);
    }

    /** Keeps what is less than a block for later. */
    method KeepRest(index: nat, data: seq<byte>, ghost part: seq<byte>)
      requires IsSha1(algorithm) && block.Length == 64 && index + |data| < 64 && block[..index] == part
      requires bytes == |message| % WORD && Absorbed(algorithm, message, state, part + data)
      modifies block
      ensures Valid()
    {
      CopyBehind(block, index, data);
      IndexAfter(|message|, |part + data|);
      assert block[..bytes % 64] == part + data;
    }

    method PadPieces() returns (pad: seq<byte>, bits: seq<byte>)
      requires Valid()
      ensures pad + bits == Pad(algorithm, |message|)
    {
      bits := BigEndian((8 * bytes) % WORD, FIELD);
      var index := bytes % 64;
      var padSize := if index > 55 then 120 - index else 56 - index;
      PadFromTable(algorithm, |message|, padSize);
      pad := PADDING[..padSize];
    }

    /** Completes the message: pads to 56 modulo 64 bytes and appends the length before padding. */
    method PadMessage()
      requires Valid()
      modifies this, block
      ensures algorithm.block == 64 && state == Final(algorithm, old(message))
    {
      ghost var m := message;
      var pad, bits := PadPieces();
      Add(pad);
      Add(bits);
      Associate(m, pad, bits);
      Completed(algorithm, m, state, block[..bytes % 64]);
    }

    /** Completes a clone, because completing the message modifies the object. */
    method ComputeDigest() returns (digest: seq<byte>)
      requires Valid()
      ensures digest == Digest(algorithm, message)
    {
      var clone := new Sha1.Copy(this);
      clone.PadMessage();
      digest := algorithm.output(clone.state);
    }

    /** Writes the digest of the message, truncated to the caller's buffer; this object stays as it is. */
    method GetHash(data: array<byte>) returns (n: nat)
      requires Valid() && data != block
      modifies data
      ensures Valid() && n == Min(data.Length, |Digest(algorithm, message)|)
      ensures data[..] == Digest(algorithm, message)[..n] + old(data[n..])
    {
      var digest := ComputeDigest();
      n := CopyToFront(data, digest);
      assert block[..] == old(block[..]);
    }
  }
}
