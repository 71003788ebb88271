/** HMAC and PBKDF2 over an unspecified hash function, as computed by a hash object that is
    cleared, fed and asked for its hash. */
module Hmac {
  import opened Wrappers
  import opened Bytes
  import opened Padding

  const MAX_HASH_SIZE: nat := 64
  const MAX_BLOCK_SIZE: nat := 128

  datatype Error = Unsupported(what: string)

  type Function = seq<byte> -> seq<byte>

  ghost predicate Sized(f: Function, size: nat) {
    forall x :: |f(x)| == size
  }

  // Exclusive or.

  const BYTE: nat := 8

  function Span(k: nat): nat {
    if k == 0 then 1 else 2 * Span(k - 1)
  }

  function XorDigits(a: nat, b: nat, k: nat): (r: nat)
    ensures r < Span(k)
    decreases k
  {
    if k == 0 then 0 else (a + b) % 2 + 2 * XorDigits(a / 2, b / 2, k - 1)
  }

  lemma ByteSpan()
    ensures Span(BYTE) == 256
  {
    assert Span(4) == 16;
  }

  function Xor(a: byte, b: byte): byte {
    ByteSpan();
    XorDigits(a, b, BYTE)
  }

  function XorAll(a: seq<byte>, b: seq<byte>): (r: seq<byte>)
    requires |a| == |b|
    ensures |r| == |a|
  {
    seq(|a|, i requires 0 <= i < |a| => Xor(a[i], b[i]))
  }

  // The definition of HMAC, section 2 of RFC 2104.

  /** The key: hashed when longer than a block, then filled up with zeros. */
  function BlockKey(h: Function, block: nat, key: seq<byte>): seq<byte>
  {
    var k := if |key| > block then h(key) else key;
    if |k| <= block then k + Zeros(block - |k|) else k
  }

  function Masked(k: seq<byte>, x: byte): seq<byte> {
    XorAll(k, Repeat(x, |k|))
  }

  const IPAD: byte := 0x36
  const OPAD: byte := 0x5C

  function HMAC(h: Function, block: nat, key: seq<byte>, data: seq<byte>): seq<byte> {
    var k := BlockKey(h, block, key);
    h(Masked(k, OPAD) + h(Masked(k, IPAD) + data))
  }

  /** The keyed hash as a function of the data. */
  function Prf(h: Function, block: nat, password: seq<byte>): Function {
    x => HMAC(h, block, password, x)
  }

  const INDEX: nat := 4

  /** The 32-bit block index has the right bytes. */
  lemma IndexBytes(i: nat)
    ensures BigEndian(i % 0x1_0000_0000, INDEX) == BigEndian(i, INDEX)
  {
    assert Power(4) == 0x1_0000_0000;
    FieldTakesLowPart(i % 0x1_0000_0000, i / 0x1_0000_0000, INDEX);
  }

  // The definition of PBKDF2, section 5.2 of RFC 2898, for a pseudorandom function with
  // the password already applied.

  /** U_c of block i: the iterates of the pseudorandom function. */
  function Iterate(prf: Function, salt: seq<byte>, i: nat, c: nat): seq<byte> {
    if c <= 1 then prf(salt + BigEndian(i, INDEX)) else prf(Iterate(prf, salt, i, c - 1))
  }

  /** T_i: the exclusive or of U_1 .. U_c. */
  ghost function Block(prf: Function, size: nat, salt: seq<byte>, i: nat, c: nat): (r: seq<byte>)
    requires Sized(prf, size)
    ensures |r| == size
    decreases c
  {
    if c <= 1 then Iterate(prf, salt, i, 1)
    else XorAll(Block(prf, size, salt, i, c - 1), Iterate(prf, salt, i, c))
  }

  lemma FirstBlock(prf: Function, size: nat, salt: seq<byte>, i: nat, c: nat)
    requires Sized(prf, size)
    ensures Block(prf, size, salt, i, 1) == Iterate(prf, salt, i, 1) == prf(salt + BigEndian(i, INDEX))
    ensures c <= 1 ==> Block(prf, size, salt, i, c) == Block(prf, size, salt, i, 1)
  {
  }

  lemma NextBlock(prf: Function, size: nat, salt: seq<byte>, i: nat, c: nat)
    requires Sized(prf, size) && c >= 1
    ensures Iterate(prf, salt, i, c + 1) == prf(Iterate(prf, salt, i, c))
    ensures Block(prf, size, salt, i, c + 1) == XorAll(Block(prf, size, salt, i, c), Iterate(prf, salt, i, c + 1))
  {
  }

  /** T_1 .. T_n. */
  ghost function Blocks(prf: Function, size: nat, salt: seq<byte>, c: nat, n: nat): (r: seq<byte>)
    requires Sized(prf, size)
    ensures |r| >= if size > 0 then n else 0
    decreases n
  {
    if n == 0 then [] else Blocks(prf, size, salt, c, n - 1) + Block(prf, size, salt, n, c)
  }

  lemma BlocksNext(prf: Function, size: nat, salt: seq<byte>, c: nat, n: nat)
    requires Sized(prf, size) && n > 0
    ensures Blocks(prf, size, salt, c, n) == Blocks(prf, size, salt, c, n - 1) + Block(prf, size, salt, n, c)
  {
  }

  /** The first length bytes of T_1, T_2, ...; that many blocks are more than enough. */
  ghost function DerivedKey(prf: Function, size: nat, salt: seq<byte>, c: nat, length: nat): (r: seq<byte>)
    requires size > 0 && Sized(prf, size)
    ensures |r| == length
  {
    Blocks(prf, size, salt, c, length)[..length]
  }

  /** Any number of blocks that suffices gives the same bytes. */
  lemma {:induction false} BlocksExtend(prf: Function, size: nat, salt: seq<byte>, c: nat, m: nat, n: nat)
    requires m <= n && Sized(prf, size)
    ensures |Blocks(prf, size, salt, c, m)| <= |Blocks(prf, size, salt, c, n)|
    ensures Blocks(prf, size, salt, c, n)[..|Blocks(prf, size, salt, c, m)|] == Blocks(prf, size, salt, c, m)
    decreases n
  {
    if m < n { BlocksExtend(prf, size, salt, c, m, n - 1); }
  }

  lemma DerivedFrom(prf: Function, size: nat, salt: seq<byte>, c: nat, length: nat, n: nat)
    requires size > 0 && Sized(prf, size) && length <= |Blocks(prf, size, salt, c, n)|
    ensures DerivedKey(prf, size, salt, c, length) == Blocks(prf, size, salt, c, n)[..length]
  {
    var a, b := Blocks(prf, size, salt, c, n), Blocks(prf, size, salt, c, length);
    if n <= length {
      BlocksExtend(prf, size, salt, c, n, length);
      PrefixOfPrefix(a, b, length);
    } else {
      BlocksExtend(prf, size, salt, c, length, n);
      PrefixOfPrefix(b, a, length);
    }
  }

  lemma PrefixOfPrefix(a: seq<byte>, b: seq<byte>, n: nat)
    requires n <= |a| <= |b| && b[..|a|] == a
    ensures b[..n] == a[..n]
  {
    assert b[..n] == b[..|a|][..n];
  }

  /** Fills a buffer with a key, zero-extended, and masks every byte. */
  method MaskedKey(key: seq<byte>, x: byte, block: nat) returns (r: seq<byte>)
    requires |key| <= block <= MAX_BLOCK_SIZE
    ensures r == Masked(key + Zeros(block - |key|), x)
  {
    var pad := new byte[MAX_BLOCK_SIZE](_ => 0);
    var _ := CopyInto(pad, 0, key);
    ghost var full := key + Zeros(MAX_BLOCK_SIZE - |key|);
    assert pad[..] == full;
    MaskAll(pad, x);
    r := pad[..block];
    assert full[..block] == key + Zeros(block - |key|);
    MaskedPrefix(full, x, block);
  }

  method MaskAll(pad: array<byte>, x: byte)
    modifies pad
    ensures pad[..] == Masked(old(pad[..]), x)
  {
    ghost var full, masked := pad[..], Masked(pad[..], x);
    var i := 0;
    while i < pad.Length
      invariant 0 <= i <= pad.Length
      invariant forall j :: 0 <= j < i ==> pad[j] == masked[j]
      invariant forall j :: i <= j < pad.Length ==> pad[j] == full[j]
    {
      pad[i] := Xor(pad[i], x);
      i := i + 1;
    }
  }

  lemma MaskedPrefix(k: seq<byte>, x: byte, n: nat)
    requires n <= |k|
    ensures Masked(k, x)[..n] == Masked(k[..n], x)
  {
  }

  class Hash {
    const hashSize: nat
    const blockSize: nat
    const h: Function
    var message: seq<byte>

    ghost predicate Valid() {
      hashSize > 0 && Sized(h, hashSize)
    }

    constructor (h: Function, hashSize: nat, blockSize: nat)
      requires hashSize > 0 && Sized(h, hashSize)
      ensures Valid() && this.h == h && this.hashSize == hashSize && this.blockSize == blockSize && message == []
    {
      this.h, this.hashSize, this.blockSize, message := h, hashSize, blockSize, [];
    }

    method Clear()
      modifies this
      ensures message == []
    {
      message := [];
    }

    method Add(data: seq<byte>)
      modifies this
      ensures message == old(message) + data
    {
      message := message + data;
    }

    /** Stores the hash of the message, truncated to the buffer. */
    method GetHash(data: array<byte>) returns (n: nat)
      requires Valid()
      modifies data
      ensures n == Min(hashSize, data.Length)
      ensures data[..n] == h(message)[..n] && data[n..] == old(data[n..])
      ensures hashSize <= data.Length ==> data[..n] == h(message)
    {
      n := CopyToFront(data, h(message));
    }

    predicate Supported() {
      hashSize <= MAX_HASH_SIZE && blockSize <= MAX_BLOCK_SIZE && hashSize <= blockSize
    }

    /** Replaces a key that is longer than a block by its hash. */
    method ShortKey(key: seq<byte>) returns (r: seq<byte>)
      requires Valid() && Supported()
      modifies this
      ensures r == if |key| > blockSize then h(key) else key
    {
      r := key;
      if |key| > blockSize {
        var tmp := new byte[MAX_HASH_SIZE];
        Clear();
        Add(key);
        assert message == key;
        var n := GetHash(tmp);
        r := tmp[..n];
      }
    }

    method Restart(a: seq<byte>, b: seq<byte>)
      modifies this
      ensures message == a + b
    {
      Clear();
      Add(a);
      Add(b);
      assert [] + a + b == a + b;
    }

    /** Leaves the object in a state whose hash is the HMAC. */
    method ComputeHMAC(key0: seq<byte>, data: seq<byte>) returns (r: Result<(), Error>)
      requires Valid()
      modifies this
      ensures r.Success? <==> Supported()
      ensures r.Success? <==> hashSize <= 64 && blockSize <= 128 && hashSize <= blockSize
      ensures r.Failure? ==> message == old(message)
      ensures r.Success? ==> h(message) == HMAC(h, blockSize, key0, data)
    {
      if hashSize > MAX_HASH_SIZE || blockSize > MAX_BLOCK_SIZE || hashSize > blockSize {
        return Failure(Unsupported("hmac"));
      }
      var key := ShortKey(key0);
      var ipad := MaskedKey(key, IPAD, blockSize);
      var opad := MaskedKey(key, OPAD, blockSize);
      Restart(ipad, data);
      var tmp := new byte[MAX_HASH_SIZE];
      var n := GetHash(tmp);
      Restart(opad, tmp[..n]);
      return Success(());
    }

    ghost predicate IsPrf(prf: Function, password: seq<byte>) {
      forall x {:trigger HMAC(h, blockSize, password, x)} :: prf(x) == HMAC(h, blockSize, password, x)
    }

    method ComputePrf(password: seq<byte>, data: seq<byte>, out: array<byte>, ghost prf: Function)
      returns (r: Result<(), Error>)
      requires Valid() && out.Length == MAX_HASH_SIZE && IsPrf(prf, password)
      modifies this, out
      ensures r.Success? <==> Supported()
      ensures r.Success? ==> out[..hashSize] == prf(data)
    {
      r := ComputeHMAC(password, data);
      if r.Success? {
        var _ := GetHash(out);
        assert prf(data) == HMAC(h, blockSize, password, data);
      }
    }

    /** Mixes one more iterate into the accumulator. */
    method MixNext(password: seq<byte>, acc: array<byte>, prev: array<byte>, ghost prf: Function)
      requires Valid() && Supported() && IsPrf(prf, password) && Sized(prf, hashSize)
      requires acc.Length == prev.Length == MAX_HASH_SIZE && acc != prev
      modifies this, acc, prev
      ensures prev[..hashSize] == prf(old(prev[..hashSize]))
      ensures acc[..hashSize] == XorAll(old(acc[..hashSize]), prev[..hashSize])
    {
      var next := new byte[MAX_HASH_SIZE];
      var _ := ComputePrf(password, prev[..hashSize], next, prf);
      XorInto(acc, prev, next, hashSize);
    }

    /** Mixes the iterates after the first into the accumulator. */
    method MixIterates(password: seq<byte>, c: nat, acc: array<byte>, prev: array<byte>,
                       ghost salt: seq<byte>, ghost index: nat, ghost prf: Function)
      requires Valid() && Supported() && IsPrf(prf, password) && Sized(prf, hashSize)
      requires acc.Length == prev.Length == MAX_HASH_SIZE && acc != prev
      requires acc[..hashSize] == prev[..hashSize] == prf(salt + BigEndian(index, INDEX))
      modifies this, acc, prev
      ensures acc[..hashSize] == Block(prf, hashSize, salt, index, c)
    {
      var i := 1;
      FirstBlock(prf, hashSize, salt, index, c);
      while i < c
        invariant 1 <= i <= Max(c, 1)
        invariant prev[..hashSize] == Iterate(prf, salt, index, i)
        invariant acc[..hashSize] == Block(prf, hashSize, salt, index, i)
      {
        MixNext(password, acc, prev, prf);
        NextBlock(prf, hashSize, salt, index, i);
        i := i + 1;
      }
      assert i == Max(c, 1);
    }

    /** One block T_index in the accumulator. */
    method ComputeBlock(password: seq<byte>, salt: seq<byte>, index: nat, c: nat, acc: array<byte>, ghost prf: Function)
      returns (r: Result<(), Error>)
      requires Valid() && acc.Length == MAX_HASH_SIZE && IsPrf(prf, password) && Sized(prf, hashSize)
      modifies this, acc
      ensures r.Success? <==> Supported()
      ensures r.Success? ==> acc[..hashSize] == Block(prf, hashSize, salt, index, c)
    {
      var prev := new byte[MAX_HASH_SIZE];
      IndexBytes(index);
      r := ComputePrf(password, salt + BigEndian(index % 0x1_0000_0000, INDEX), prev, prf);
      if r.Success? {
        var _ := CopyInto(acc, 0, prev[..hashSize]);
        MixIterates(password, c, acc, prev, salt, index, prf);
      }
    }

    /** The blocks of output, until there is no more room. */
    method ComputeBlocks(out: array<byte>, password: seq<byte>, salt: seq<byte>, c: nat, ghost prf: Function)
      returns (r: Result<(), Error>)
      requires Valid() && IsPrf(prf, password) && Sized(prf, hashSize)
      modifies this, out
      ensures r.Success? <==> (out.Length > 0 ==> Supported())
      ensures r.Success? ==> out[..] == DerivedKey(prf, hashSize, salt, c, out.Length)
      ensures r.Failure? ==> out[..] == old(out[..])
    {
      var index, done := 0, 0;
      while done < out.Length
        invariant done == Min(out.Length, |Blocks(prf, hashSize, salt, c, index)|)
        invariant out[..done] == Blocks(prf, hashSize, salt, c, index)[..done]
        invariant if index == 0 then out[..] == old(out[..]) else Supported()
        decreases out.Length - done
      {
        index := index + 1;
        r, done := ComputeNext(out, done, password, salt, index, c, prf);
        if r.Failure? { return; }
      }
      DerivedFrom(prf, hashSize, salt, c, out.Length, index);
      r := Success(());
    }

    /** One round of the loop. */
    method ComputeNext(out: array<byte>, done: nat, password: seq<byte>, salt: seq<byte>, index: nat, c: nat,
                       ghost prf: Function)
      returns (r: Result<(), Error>, next: nat)
      requires Valid() && IsPrf(prf, password) && Sized(prf, hashSize) && index > 0
      requires done == |Blocks(prf, hashSize, salt, c, index - 1)| < out.Length
      requires out[..done] == Blocks(prf, hashSize, salt, c, index - 1)
      modifies this, out
      ensures Valid() && (r.Success? <==> Supported())
      ensures r.Failure? ==> out[..] == old(out[..])
      ensures r.Success? ==> done < next == Min(out.Length, |Blocks(prf, hashSize, salt, c, index)|)
      ensures r.Success? ==> out[..next] == Blocks(prf, hashSize, salt, c, index)[..next]
    {
      var acc := new byte[MAX_HASH_SIZE];
      next := done;
      r := ComputeBlock(password, salt, index, c, acc, prf);
      if r.Success? {
        BlocksNext(prf, hashSize, salt, c, index);
        next := StoreBlock(out, done, acc[..hashSize], Blocks(prf, hashSize, salt, c, index - 1));
      }
    }

    /** Fills the whole buffer with the derived key; zero iterations count as one. */
    method ComputePBKDF2(out: array<byte>, password: seq<byte>, salt: seq<byte>, numIterations: nat)
      returns (r: Result<(), Error>)
      requires Valid()
      modifies this, out
      ensures r.Success? <==> |salt| <= 128 && (out.Length > 0 ==> Supported())
      ensures r.Success? ==>
        out[..] == DerivedKey(Prf(h, blockSize, password), hashSize, salt, numIterations, out.Length)
      ensures r.Failure? ==> out[..] == old(out[..])
    {
      if |salt| > MAX_BLOCK_SIZE {
        return Failure(Unsupported("pbkdf2"));
      }
      r := ComputeBlocks(out, password, salt, numIterations, Prf(h, blockSize, password));
    }
  }

  /** out.split(|t|).copyFrom(t), after done bytes have been stored. */
  method StoreBlock(out: array<byte>, done: nat, t: seq<byte>, ghost before: seq<byte>) returns (next: nat)
    requires done < out.Length && out[..done] == before && |t| > 0
    modifies out
    ensures done < next == Min(out.Length, |before + t|) && out[..next] == (before + t)[..next]
  {
    var n := CopyInto(out, done, t);
    next := done + n;
    assert out[..next] == before + t[..n];
  }

  /** acc ^= next and prev = next for the first n bytes. */
  method XorInto(acc: array<byte>, prev: array<byte>, next: array<byte>, n: nat)
    requires n <= acc.Length && n <= prev.Length && n <= next.Length
    requires acc != prev && prev != next && acc != next
    modifies acc, prev
    ensures acc[..n] == XorAll(old(acc[..n]), next[..n])
    ensures prev[..n] == next[..n]
  {
    ghost var mixed := XorAll(acc[..n], next[..n]);
    var i := 0;
    while i < n
      invariant 0 <= i <= n
      invariant forall j :: 0 <= j < i ==> acc[j] == mixed[j] && prev[j] == next[j]
      invariant forall j :: i <= j < n ==> acc[j] == old(acc[j])
    {
      acc[i] := Xor(acc[i], next[i]);
      prev[i] := next[i];
      i := i + 1;
    }
  }
}
