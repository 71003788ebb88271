/** MD5: reblocking and padding around an unspecified compression function. */
module Md5 {
  import opened Bytes
  import opened Padding

  /** The parameters of section 3 of RFC 1321. */
  predicate IsMd5(a: Algorithm) {
    a.block == 64 && a.field == 8 && a.littleEndian
  }

  class Md5 {
    const algorithm: Algorithm
    const buffer: array<byte>
    var count: nat
    var state: State
    ghost var message: seq<byte>

    /** The buffer and the state stand for the message added so far. */
    ghost predicate Valid()
      reads this, buffer
    {
      && IsMd5(algorithm) && buffer.Length == 64
      && count == |message| % WORD
      && Absorbed(algorithm, message, state, buffer[..count % 64])
    }

    constructor (algorithm: Algorithm)
      requires IsMd5(algorithm)
      ensures Valid() && fresh(buffer) && this.algorithm == algorithm && message == []
    {
      this.algorithm := algorithm;
      buffer := new byte[64];
      count, state, message := 0, algorithm.initial, [];
      AbsorbNothing(algorithm);
    }

    constructor Copy(other: Md5)
      requires other.Valid()
      ensures Valid() && fresh(buffer)
      ensures algorithm == other.algorithm && message == other.message && count == other.count
    {
      algorithm := other.algorithm;
      var b := new byte[64](i requires 0 <= i < 64 reads other.buffer => other.buffer[i]);
      buffer := b;
      count, state, message := other.count, other.state, other.message;
      new;
      assert buffer[..] == other.buffer[..];
      assert buffer[..count % 64] == other.buffer[..count % 64];
    }

    method Clear()
      requires Valid()
      modifies this
      ensures Valid() && message == []
    {
      count, state, message := 0, algorithm.initial, [];
      AbsorbNothing(algorithm);
    }

    /** Compresses every whole block at the front of data. */
    method EatBlocks(input: seq<byte>, ghost all: seq<byte>) returns (data: seq<byte>)
      requires IsMd5(algorithm) && Absorbed(algorithm, all, state, input)
      modifies this`state
      ensures Absorbed(algorithm, all, state, data) && |data| < 64
    {
      data := input;
      while |data| >= 64
        invariant Absorbed(algorithm, all, state, data)
      {
        assert data == data[..64] + data[64..];
        AbsorbBlock(algorithm, all, state, data[..64], data[64..]);
        state := algorithm.compress(state, data[..64]);
        data := data[64..];
      }
    }

    method Add(input: seq<byte>)
      requires Valid()
      modifies this, buffer
      ensures Valid() && message == old(message) + input
    {
      var data := input;
      var index := count % 64;
      var remainder := 64 - index;
      ghost var part, all := buffer[..index], message + data;
      AbsorbMore(algorithm, message, state, part, data);
      CountKeepsIndex(|message|, |data|);
      count := (count + |data|) % WORD;
      message := all;
      if |data| >= remainder {
        CopyBehind(buffer, index, data[..remainder]);
        assert data == data[..remainder] + data[remainder..];
        assert part + data == buffer[..] + data[remainder..];
        AbsorbBlock(algorithm, all, state, buffer[..], data[remainder..]);
        state := algorithm.compress(state, buffer[..]);
        data := EatBlocks(data[remainder..], all);
        index, part := 0, [];
        assert part + data == data;
      }
      KeepRest(index, data, part);
    }

    /** Keeps what is less than a block for later. */
    method KeepRest(index: nat, data: seq<byte>, ghost part: seq<byte>)
      requires IsMd5(algorithm) && buffer.Length == 64 && index + |data| < 64 && buffer[..index] == part
      requires count == |message| % WORD && Absorbed(algorithm, message, state, part + data)
      modifies buffer
      ensures Valid()
    {
      CopyBehind(buffer, index, data);
      IndexAfter(|message|, |part + data|);
      assert buffer[..count % 64] == part + data;
    }

    method PadPieces() returns (pad: seq<byte>, bits: seq<byte>)
      requires Valid()
      ensures pad + bits == Pad(algorithm, |message|)
    {
      bits := LittleEndian((8 * count) % WORD, FIELD);
      var index := count % 64;
      var padLen := if index < 56 then 56 - index else 120 - index;
      PadFromTable(algorithm, |message|, padLen);
      pad := PADDING[..padLen];
    }

    /** Completes the message: pads to 56 modulo 64 bytes and appends the length before padding. */
    method Finish()
      requires Valid()
      modifies this, buffer
      ensures algorithm.block == 64 && state == Final(algorithm, old(message))
    {
      ghost var m := message;
      var pad, bits := PadPieces();
      Add(pad);
      Add(bits);
      Associate(m, pad, bits);
      Completed(algorithm, m, state, buffer[..count % 64]);
    }

    /** Completes a clone, because completing the message modifies the object. */
    method ComputeDigest() returns (digest: seq<byte>)
      requires Valid()
      ensures digest == Digest(algorithm, message)
    {
      var clone := new Md5.Copy(this);
      clone.Finish();
      digest := algorithm.output(clone.state);
    }

    /** Writes the digest of the message, truncated to the caller's buffer; this object stays as it is. */
    method GetHash(data: array<byte>) returns (n: nat)
      requires Valid() && data != buffer
      modifies data
      ensures Valid() && n == Min(data.Length, |Digest(algorithm, message)|)
      ensures data[..] == Digest(algorithm, message)[..n] + old(data[n..])
    {
      var digest := ComputeDigest();
      n := CopyToFront(data, digest);
      assert buffer[..] == old(buffer[..]);
    }
  }
}
