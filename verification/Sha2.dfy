/** SHA-2 (SHA-224, SHA-256, SHA-384, SHA-512): reblocking with an explicit fill level and a
    128-bit bit counter, around an unspecified compression function. */
module Sha2 {
  import opened Bytes
  import opened Padding

  /** The parameters of sections 4.1 and 4.2 of RFC 6234: 64-byte blocks for the 32-bit
      variants, 128-byte blocks for the 64-bit variants. */
  predicate IsSha2(a: Algorithm) {
    WellFormed(a) && !a.littleEndian
  }

  /** The two counter words hold a number of bits modulo 2^128. */
  ghost predicate Counts(lo: nat, hi: nat, bits: nat) {
    lo < WORD && hi < WORD && exists q: nat {:trigger q * (WORD * WORD)} :: bits == q * (WORD * WORD) + hi * WORD + lo
  }

  /** Adding to the low word and carrying when it wraps. */
  lemma CountOn(lo: nat, hi: nat, bits: nat, x: nat)
    requires Counts(lo, hi, bits) && x < WORD
    ensures var lo1 := (lo + x) % WORD;
      Counts(lo1, if lo1 < x then (hi + 1) % WORD else hi, bits + x)
  {
    var q: nat :| bits == q * (WORD * WORD) + hi * WORD + lo;
    var lo1 := (lo + x) % WORD;
    if lo + x < WORD {
      assert lo1 == lo + x;
      assert bits + x == q * (WORD * WORD) + hi * WORD + lo1;
    } else {
      assert lo1 == lo + x - WORD;
      if hi + 1 < WORD {
        assert bits + x == q * (WORD * WORD) + (hi + 1) * WORD + lo1;
      } else {
        assert bits + x == (q + 1) * (WORD * WORD) + 0 * WORD + lo1;
      }
    }
  }

  /** The length bytes made from the counter words. */
  function PackLength(field: nat, lo: nat, hi: nat): (r: seq<byte>)
    requires field == 8 || field == 16
    ensures |r| == field
  {
    if field == 8 then BigEndian(lo, FIELD) else BigEndian(hi, FIELD) + BigEndian(lo, FIELD)
  }

  lemma PackedLength(a: Algorithm, lo: nat, hi: nat, n: nat)
    requires IsSha2(a) && Counts(lo, hi, 8 * n)
    ensures PackLength(a.field, lo, hi) == LengthField(a, n)
  {
    var q: nat :| 8 * n == q * (WORD * WORD) + hi * WORD + lo;
    if a.field == 8 {
      LowWord(q, hi, lo);
    } else {
      BothWords(q, hi, lo);
      assert FIELD + FIELD == a.field;
    }
  }

  lemma LowWord(q: nat, hi: nat, lo: nat)
    ensures BigEndian(lo, FIELD) == BigEndian(q * (WORD * WORD) + hi * WORD + lo, FIELD)
  {
    LowPart(q * (WORD * WORD) + hi * WORD + lo, q * WORD + hi, lo);
  }

  lemma BothWords(q: nat, hi: nat, lo: nat)
    requires lo < WORD
    ensures BigEndian(hi, FIELD) + BigEndian(lo, FIELD) == BigEndian(q * (WORD * WORD) + hi * WORD + lo, FIELD + FIELD)
  {
    EightBytes();
    FieldsJoin(hi, lo, FIELD, FIELD);
    SixteenBytes();
    FieldTakesLowPart(hi * WORD + lo, q, FIELD + FIELD);
  }

  lemma {:induction false} PowerAdds(j: nat, k: nat)
    ensures Power(j + k) == Power(j) * Power(k)
  {
    if j > 0 {
      PowerAdds(j - 1, k);
      assert 256 * (Power(j - 1) * Power(k)) == (256 * Power(j - 1)) * Power(k);
    }
  }

  lemma SixteenBytes()
    ensures Power(FIELD + FIELD) == WORD * WORD
  {
    EightBytes();
    PowerAdds(FIELD, FIELD);
  }

  class Sha2 {
    const algorithm: Algorithm
    const block: array<byte>
    var fill: nat
    var counterLo: nat
    var counterHi: nat
    var state: State
    ghost var message: seq<byte>

    /** The block and the state stand for the message added so far, the counter for its length. */
    ghost predicate Valid()
      reads this, block
    {
      && IsSha2(algorithm) && block.Length == algorithm.block
      && fill < block.Length
      && Counts(counterLo, counterHi, 8 * |message|)
      && Absorbed(algorithm, message, state, block[..fill])
    }

    constructor (algorithm: Algorithm)
      requires IsSha2(algorithm)
      ensures Valid() && fresh(block) && this.algorithm == algorithm && message == []
    {
      this.algorithm := algorithm;
      block := new byte[algorithm.block];
      fill, counterLo, counterHi, state, message := 0, 0, 0, algorithm.initial, [];
      AbsorbNothing(algorithm);
      assert 8 * 0 == 0 * (WORD * WORD) + 0 * WORD + 0;
    }

    constructor Copy(other: Sha2)
      requires other.Valid()
      ensures Valid() && fresh(block) && algorithm == other.algorithm && message == other.message
    {
      algorithm := other.algorithm;
      var b := new byte[other.block.Length](i requires 0 <= i < other.block.Length reads other.block => other.block[i]);
      block := b;
      fill, counterLo, counterHi, state, message :=
        other.fill, other.counterLo, other.counterHi, other.state, other.message;
      new;
      assert block[..] == other.block[..];
      assert block[..fill] == other.block[..fill];
    }

    method Clear()
      requires Valid()
      modifies this
      ensures Valid() && message == []
    {
      fill, counterLo, counterHi, state, message := 0, 0, 0, algorithm.initial, [];
      AbsorbNothing(algorithm);
      assert 8 * 0 == 0 * (WORD * WORD) + 0 * WORD + 0;
    }

    method Count(x: nat, ghost bits: nat)
      requires Counts(counterLo, counterHi, bits) && x < WORD
      modifies this`counterLo, this`counterHi
      ensures Counts(counterLo, counterHi, bits + x)
    {
      CountOn(counterLo, counterHi, bits, x);
      counterLo := (counterLo + x) % WORD;
      if counterLo < x {
        counterHi := (counterHi + 1) % WORD;
      }
    }

    /** Compresses the block when it is full. */
    method Complete()
      requires IsSha2(algorithm) && block.Length == algorithm.block && fill <= block.Length
      requires Absorbed(algorithm, message, state, block[..fill])
      modifies this`fill, this`state
      ensures fill < block.Length && Absorbed(algorithm, message, state, block[..fill])
    {
      if fill >= block.Length {
        assert block[..] + [] == block[..fill];
        AbsorbBlock(algorithm, message, state, block[..], []);
        state := algorithm.compress(state, block[..]);
        fill := 0;
        assert block[..fill] == [];
      }
    }

    /** One round of the loop in add: as much data as fits into the block. */
    method AddSome(data: seq<byte>) returns (now: nat)
      requires Valid() && |data| > 0
      modifies this, block
      ensures Valid() && 0 < now <= |data| && message == old(message) + data[..now]
    {
      var avail := block.Length - fill;
      now := Min(|data|, avail);
      ghost var piece, part := data[..now], block[..fill];
      AbsorbMore(algorithm, message, state, part, piece);
      var _ := CopyInto(block, fill, data[..now]);
      fill := fill + now;
      assert block[..fill] == part + piece;
      Count(8 * now, 8 * |message|);
      message := message + piece;
      Complete();
    }

    method Add(data: seq<byte>)
      requires Valid()
      modifies this, block
      ensures Valid() && message == old(message) + data
    {
      var i := 0;
      while i < |data|
        invariant 0 <= i <= |data| && Valid() && message == old(message) + data[..i]
      {
        var now := AddSome(data[i..]);
        assert data[..i + now] == data[..i] + data[i..][..now];
        i := i + now;
      }
      assert data[..i] == data;
    }

    lemma FillIs(n: nat)
      requires Valid() && |message| == n
      ensures fill == n % algorithm.block
    {
      Small(fill, algorithm.block);
    }

    /** Pads: one 0x80 byte, zeros one at a time until the length fits exactly, the length. */
    method Pad()
      requires Valid()
      modifies this, block
      ensures WellFormed(algorithm) && state == Final(algorithm, old(message))
    {
      ghost var m := message;
      var len, lenHi := counterLo, counterHi;
      PackedLength(algorithm, len, lenHi, |m|);
      Add([0x80]);
      FillIs(|m| + 1);
      ghost var zeros := Zeros(NeededZeros(fill, algorithm));
      AddZeros();
      PadParts(algorithm, m, zeros);
      Add(PackLength(algorithm.field, len, lenHi));
      Completed(algorithm, m, state, block[..fill]);
    }

    method AddZeros()
      requires Valid()
      modifies this, block
      ensures Valid() && message == old(message) + Zeros(NeededZeros(old(fill), algorithm))
    {
      ghost var z := 0;
      ghost var start := fill;
      while fill != block.Length - algorithm.field
        invariant Valid() && message == old(message) + Zeros(z)
        invariant NeededZeros(start, algorithm) == z + NeededZeros(fill, algorithm)
        decreases NeededZeros(fill, algorithm)
      {
        FillIs(|message|);
        NextFill(|message|, algorithm.block);
        Add([0]);
        FillIs(|message|);
        assert Zeros(z + 1) == Zeros(z) + [0];
        z := z + 1;
      }
    }

    /** Pads a copy, because padding modifies the object. */
    method ComputeDigest() returns (digest: seq<byte>)
      requires Valid()
      ensures digest == Digest(algorithm, message)
    {
      var copy := new Sha2.Copy(this);
      copy.Pad();
      digest := algorithm.output(copy.state);
    }

    /** Writes the digest into the caller's buffer; this object stays as it is. */
    method GetHash(data: array<byte>) returns (n: nat)
      requires Valid() && data != block
      modifies data
      ensures Valid() && n == Min(data.Length, |Digest(algorithm, message)|)
      ensures data[..] == WholeWords(Digest(algorithm, message), n, WordSize(algorithm)) + old(data[n..])
    {
      var digest := ComputeDigest();
      n := PackArray(data, digest, WordSize(algorithm));
      assert block[..] == old(block[..]);
    }
  }

  /** Bytes per word: four in the 32-bit variants, eight in the 64-bit variants. */
  function WordSize(a: Algorithm): (w: nat)
    requires IsSha2(a)
    ensures w == 4 || w == 8
  {
    if a.block == 64 then 4 else 8
  }

  /** The first n bytes of a digest, with a partial last word replaced by zeros. */
  function WholeWords(digest: seq<byte>, n: nat, word: nat): (r: seq<byte>)
    requires word > 0 && n <= |digest|
    ensures |r| == n
  {
    digest[..n - n % word] + Zeros(n % word)
  }

  /** A buffer of whole words gets the digest truncated; any other one gets zeros at the end, and
      so the same bytes only where the digest has zeros, too. */
  lemma TruncatedExactly(digest: seq<byte>, n: nat, word: nat)
    requires word > 0 && n <= |digest|
    ensures n % word == 0 ==> WholeWords(digest, n, word) == digest[..n]
    ensures WholeWords(digest, n, word) == digest[..n] <==> digest[n - n % word..n] == Zeros(n % word)
    ensures forall i :: 0 <= i < n ==> WholeWords(digest, n, word)[i] == if i + n % word < n then digest[i] else 0
  {
    var w := n - n % word;
    assert digest[..n] == digest[..w] + digest[w..n];
    assert WholeWords(digest, n, word)[w..] == Zeros(n % word) && digest[..n][w..] == digest[w..n];
  }

  /** Words have four bytes in the variants with 64-byte blocks and eight in the others. */
  lemma BytesOfBuffer(a: Algorithm, digest: seq<byte>, n: nat, i: nat)
    requires IsSha2(a) && i < n <= |digest|
    ensures var word := if a.block == 64 then 4 else 8;
      WholeWords(digest, n, WordSize(a))[i] == if i / word < n / word then digest[i] else 0
  {
    var word := WordSize(a);
    TruncatedExactly(digest, n, word);
    WholeBefore(n, word, i);
  }

  lemma WholeBefore(n: nat, word: nat, i: nat)
    requires word == 4 || word == 8
    ensures i / word < n / word <==> i < n - n % word
  {
  }

  /** Packs word by word as far as the buffer goes, and fills a partial word with zeros. */
  method PackArray(data: array<byte>, digest: seq<byte>, word: nat) returns (n: nat)
    requires word > 0
    modifies data
    ensures n == Min(data.Length, |digest|)
    ensures data[..] == WholeWords(digest, n, word) + old(data[n..])
  {
    n := Min(data.Length, |digest|);
    ghost var was := data[..];
    var at := PackWords(data, digest, n, word);
    WholePart(n, word);
    PackNext(data, Zeros(n - at), digest[..at], was);
  }

  /** The bytes in whole words. */
  ghost function Whole(n: nat, word: nat): nat
    requires word > 0
  {
    if n < word then 0 else word + Whole(n - word, word)
  }

  lemma {:induction false} WholePart(n: nat, word: nat)
    requires word > 0
    ensures Whole(n, word) == n - n % word
  {
    if n < word {
      UniqueRemainder(n, word, 0, n);
    } else {
      var q, r := (n - word) / word, (n - word) % word;
      WholePart(n - word, word);
      OneMore(q, word);
      UniqueRemainder(n, word, q + 1, r);
    }
  }

  /** The whole words. */
  method PackWords(data: array<byte>, digest: seq<byte>, n: nat, word: nat) returns (at: nat)
    requires word > 0 && n <= data.Length && n <= |digest|
    modifies data
    ensures at == Whole(n, word) <= n && data[..] == digest[..at] + old(data[..])[at..]
  {
    at := 0;
    while at + word <= n
      invariant at <= n && at + Whole(n - at, word) == Whole(n, word)
      invariant data[..] == digest[..at] + old(data[..])[at..]
    {
      PackSlice(data, digest, at, at + word, old(data[..]));
      at := at + word;
    }
  }

  method PackSlice(data: array<byte>, digest: seq<byte>, at: nat, to: nat, ghost was: seq<byte>)
    requires at <= to <= |digest| && to <= data.Length == |was| && data[..] == digest[..at] + was[at..]
    modifies data
    ensures data[..] == digest[..to] + was[to..]
  {
    PackNext(data, digest[at..to], digest[..at], was);
    assert digest[..to] == digest[..at] + digest[at..to];
  }

  /** Packs one more word behind the bytes packed so far. */
  method PackNext(data: array<byte>, w: seq<byte>, packed: seq<byte>, ghost was: seq<byte>)
    requires |packed| + |w| <= data.Length == |was| && data[..] == packed + was[|packed|..]
    modifies data
    ensures data[..] == packed + w + was[|packed| + |w|..]
  {
    var n := CopyInto(data, |packed|, w);
    assert w[..n] == w;
    assert old(data[..|packed|]) == packed;
    assert old(data[|packed| + n..]) == was[|packed| + n..];
  }

  /** Zero bytes still to add when the block is filled so far. */
  function NeededZeros(fill: nat, a: Algorithm): nat
    requires IsSha2(a) && fill < a.block
  {
    var target := a.block - a.field;
    if fill <= target then target - fill else a.block - fill + target
  }

  /** The pieces pad adds are the padding of the message. */
  lemma PadParts(a: Algorithm, m: seq<byte>, zeros: seq<byte>)
    requires IsSha2(a) && zeros == Zeros(NeededZeros((|m| + 1) % a.block, a))
    ensures m + [0x80] + zeros + LengthField(a, |m|) == m + Padding.Pad(a, |m|)
  {
    NeededExactly(|m|, a);
    assert m + [0x80] + zeros + LengthField(a, |m|) == m + ([0x80] + zeros + LengthField(a, |m|));
  }

  lemma NeededExactly(n: nat, a: Algorithm)
    requires IsSha2(a)
    ensures NeededZeros((n + 1) % a.block, a) == PadZeros(n, a.block, a.field)
  {
    NextFill(n, a.block);
    PadZerosAre(n, a.block, a.field);
  }

  lemma NextFill(n: nat, block: nat)
    requires block > 0
    ensures (n + 1) % block == if n % block + 1 == block then 0 else n % block + 1
  {
    var q, r := n / block, n % block;
    OneMore(q, block);
    if r + 1 == block {
      UniqueRemainder(n + 1, block, q + 1, 0);
    } else {
      UniqueRemainder(n + 1, block, q, r + 1);
    }
  }
}
