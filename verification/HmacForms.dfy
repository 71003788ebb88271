/** What the definitions of HMAC and PBKDF2 come to, said without them: exclusive or bit by bit,
    the masks as bytes, and the blocks of a derived key. */
module HmacForms {
  import opened Bytes
  import opened Padding
  import opened Hmac

  // Exclusive or.

  predicate Bit(n: nat, i: nat) {
    if i == 0 then n % 2 == 1 else Bit(n / 2, i - 1)
  }

  /** A bit of the exclusive or is set exactly when the two bits differ. */
  lemma {:induction false} XorBits(a: nat, b: nat, k: nat, i: nat)
    requires i < k
    ensures Bit(XorDigits(a, b, k), i) <==> Bit(a, i) != Bit(b, i)
    decreases k
  {
    XorStep(a, b, k);
    if i > 0 { XorBits(a / 2, b / 2, k - 1, i - 1); }
  }

  lemma {:induction false} XorZero(a: nat, k: nat)
    requires a < Span(k)
    ensures XorDigits(a, 0, k) == a && XorDigits(0, a, k) == a && XorDigits(a, a, k) == 0
    decreases k
  {
    if k > 0 { XorZero(a / 2, k - 1); }
  }

  lemma {:induction false} XorTwice(a: nat, b: nat, k: nat)
    requires a < Span(k)
    ensures XorDigits(XorDigits(a, b, k), b, k) == a
    decreases k
  {
    if k > 0 {
      var r := XorDigits(a, b, k);
      XorTwice(a / 2, b / 2, k - 1);
      XorStep(a, b, k);
      XorStep(r, b, k);
      SameDigits(a, b, r, XorDigits(r, b, k));
    }
  }

  lemma XorStep(a: nat, b: nat, k: nat)
    requires k > 0
    ensures var r := XorDigits(a, b, k); r % 2 == (a + b) % 2 && r / 2 == XorDigits(a / 2, b / 2, k - 1)
  {
  }

  lemma SameDigits(a: nat, b: nat, r: nat, t: nat)
    requires r % 2 == (a + b) % 2 && t % 2 == (r + b) % 2 && t / 2 == a / 2
    ensures t == a
  {
  }

  /** On bytes: the bits that differ; nothing for a zero byte; undone by doing it again. */
  lemma XorOfBytes(a: byte, b: byte)
    ensures forall i: nat :: i < 8 ==> (Bit(Xor(a, b), i) <==> Bit(a, i) != Bit(b, i))
    ensures Xor(a, 0) == a && Xor(0, a) == a && Xor(a, a) == 0 && Xor(Xor(a, b), b) == a
  {
    ByteSpan();
    forall i: nat | i < 8
      ensures Bit(Xor(a, b), i) <==> Bit(a, i) != Bit(b, i)
    {
      XorBits(a, b, BYTE, i);
    }
    XorZero(a, BYTE);
    XorTwice(a, b, BYTE);
  }

  // HMAC.

  /** Masking zeros gives the mask, and masking twice gives the bytes back. */
  lemma MaskedForms(k: seq<byte>, n: nat, x: byte)
    ensures Masked(Zeros(n), x) == Repeat(x, n) && Masked(Masked(k, x), x) == k
  {
    XorOfBytes(x, 0);
    forall i | 0 <= i < |k|
      ensures Masked(Masked(k, x), x)[i] == k[i]
    {
      XorOfBytes(k[i], x);
    }
  }

  /** The empty key: the masks themselves, 0x36 inside and 0x5C outside. */
  lemma EmptyKey(h: Function, block: nat, data: seq<byte>)
    ensures HMAC(h, block, [], data) == h(Repeat<byte>(0x5C, block) + h(Repeat<byte>(0x36, block) + data))
  {
    var none: seq<byte> := [];
    assert none + Zeros(block) == Zeros(block);
    MaskedForms([], block, 0x36);
    MaskedForms([], block, 0x5C);
  }

  /** A key of at most a block may as well be filled up with zeros; a longer one is replaced by its
      hash. */
  lemma EqualKeys(h: Function, block: nat, key: seq<byte>, data: seq<byte>)
    ensures |key| <= block ==> HMAC(h, block, key, data) == HMAC(h, block, key + Zeros(block - |key|), data)
    ensures |key| > block && |h(key)| <= block ==> HMAC(h, block, key, data) == HMAC(h, block, h(key), data)
  {
    if |key| <= block {
      var full := key + Zeros(block - |key|);
      assert full + Zeros(0) == full;
    }
  }

  /** A key of a whole block is mixed with the masks byte by byte. */
  lemma WholeKey(h: Function, block: nat, key: seq<byte>, data: seq<byte>, inner: seq<byte>, outer: seq<byte>)
    requires |key| == |inner| == |outer| == block
    requires forall i :: 0 <= i < block ==> inner[i] == Xor(key[i], 0x36) && outer[i] == Xor(key[i], 0x5C)
    ensures HMAC(h, block, key, data) == h(outer + h(inner + data))
  {
    assert key + Zeros(0) == key;
    assert Masked(key, 0x36) == inner && Masked(key, 0x5C) == outer;
  }

  // PBKDF2.

  /** The index goes behind the salt as four bytes, highest first. */
  lemma IndexIs(i: nat)
    ensures BigEndian(i, 4) == [i / 0x100_0000 % 256, i / 0x1_0000 % 256, i / 0x100 % 256, i % 256]
  {
    var a, b, c := i / 0x100, i / 0x1_0000, i / 0x100_0000;
    Divisions(i);
    assert BigEndian(c, 1) == [c % 256];
    assert BigEndian(b, 2) == BigEndian(c, 1) + [b % 256];
    assert BigEndian(a, 3) == BigEndian(b, 2) + [a % 256];
  }

  lemma Divisions(i: nat)
    ensures i / 0x100 / 256 == i / 0x1_0000 && i / 0x1_0000 / 256 == i / 0x100_0000
  {
  }

  lemma {:induction false} BlocksSize(prf: Function, size: nat, salt: seq<byte>, c: nat, n: nat)
    requires Sized(prf, size)
    ensures |Blocks(prf, size, salt, c, n)| == n * size
  {
    if n > 0 {
      BlocksSize(prf, size, salt, c, n - 1);
      assert n * size == (n - 1) * size + size;
    }
  }

  /** Block i of the derived key, counted from 1, is T_i. */
  lemma DerivedBlock(prf: Function, size: nat, salt: seq<byte>, c: nat, length: nat, i: nat)
    requires size > 0 && Sized(prf, size) && i > 0 && i * size <= length
    ensures 0 <= (i - 1) * size == i * size - size
    ensures DerivedKey(prf, size, salt, c, length)[(i - 1) * size..i * size] == Block(prf, size, salt, i, c)
  {
    assert i * size == (i - 1) * size + size;
    AtLeast(i, size);
    BlocksSize(prf, size, salt, c, i - 1);
    BlocksSize(prf, size, salt, c, i);
    BlocksNext(prf, size, salt, c, i);
    BlocksExtend(prf, size, salt, c, i, length);
    SliceOfPrefix(Blocks(prf, size, salt, c, length), Blocks(prf, size, salt, c, i), (i - 1) * size, length);
  }

  lemma AtLeast(i: nat, size: nat)
    requires size > 0
    ensures i <= i * size
  {
  }

  lemma SliceOfPrefix(all: seq<byte>, front: seq<byte>, from: nat, length: nat)
    requires from <= |front| <= length <= |all| && all[..|front|] == front
    ensures all[..length][from..|front|] == front[from..]
  {
    assert all[..length][from..|front|] == all[..|front|][from..];
  }

  /** One iteration or none: the keyed hash of salt and index.  Two: mixed with its own keyed hash. */
  lemma FewIterations(prf: Function, size: nat, salt: seq<byte>, i: nat)
    requires Sized(prf, size)
    ensures var u := prf(salt + [i / 0x100_0000 % 256, i / 0x1_0000 % 256, i / 0x100 % 256, i % 256]);
      && Block(prf, size, salt, i, 0) == u && Block(prf, size, salt, i, 1) == u
      && Block(prf, size, salt, i, 2) == XorAll(u, prf(u))
  {
    IndexIs(i);
  }

  /** A byte of a block after one more iteration: mixed with that byte of the next iterate. */
  lemma OneMoreIteration(prf: Function, size: nat, salt: seq<byte>, i: nat, c: nat, j: nat)
    requires Sized(prf, size) && c >= 1 && j < size
    ensures Block(prf, size, salt, i, c + 1)[j]
      == Xor(Block(prf, size, salt, i, c)[j], prf(Iterate(prf, salt, i, c))[j])
  {
    NextBlock(prf, size, salt, i, c);
  }
}
