/** What MD5, SHA-1 and SHA-2 have in common: a message is padded once to whole blocks and a
    compression function is folded over the blocks.  The compression functions themselves
    are parameters. */
module Padding {
  import opened Bytes

  /** The words of a hash state. */
  type State = seq<nat>

  /** One algorithm: block size and size of the length field in bytes, the initial state, the
      compression function, and the digest made from the final state. */
  datatype Algorithm = Algorithm(
    block: nat,
    field: nat,
    littleEndian: bool,
    initial: State,
    compress: (State, seq<byte>) -> State,
    output: State -> seq<byte>)

  predicate WellFormed(a: Algorithm) {
    (a.block == 64 && a.field == 8) || (a.block == 128 && a.field == 16)
  }

  function Zeros(n: nat): seq<byte> {
    Repeat<byte>(0, n)
  }

  // Length fields.

  function LittleEndian(n: nat, k: nat): (r: seq<byte>)
    ensures |r| == k
    decreases k
  {
    if k == 0 then [] else [n % 256] + LittleEndian(n / 256, k - 1)
  }

  function BigEndian(n: nat, k: nat): (r: seq<byte>)
    ensures |r| == k
    decreases k
  {
    if k == 0 then [] else BigEndian(n / 256, k - 1) + [n % 256]
  }

  function Power(k: nat): (r: nat)
    ensures r > 0
  {
    if k == 0 then 1 else 256 * Power(k - 1)
  }

  /** The number a big-endian field stands for. */
  function Value(s: seq<byte>): nat {
    if s == [] then 0 else 256 * Value(s[..|s| - 1]) + s[|s| - 1]
  }

  lemma {:induction false} BigEndianValue(n: nat, k: nat)
    ensures Value(BigEndian(n, k)) == n % Power(k)
    decreases k
  {
    if k > 0 {
      var r := BigEndian(n, k);
      assert r[..k - 1] == BigEndian(n / 256, k - 1);
      BigEndianValue(n / 256, k - 1);
      ModOfDigits(n, Power(k - 1));
    }
  }

  lemma ModOfDigits(n: nat, p: nat)
    requires p > 0
    ensures n % (256 * p) == 256 * ((n / 256) % p) + n % 256
  {
    var q, d := n / 256 / p, (n / 256) % p;
    assert n / 256 == q * p + d;
    assert n == q * (256 * p) + (256 * d + n % 256) by {
      assert 256 * (q * p + d) == q * (256 * p) + 256 * d;
    }
    UniqueRemainder(n, 256 * p, q, 256 * d + n % 256);
  }

  lemma UniqueRemainder(n: nat, m: nat, q: int, r: nat)
    requires r < m && n == q * m + r
    ensures n % m == r
  {
    var e := n / m - q;
    assert (n / m) * m + n % m == q * m + r;
    assert e * m == (n / m) * m - q * m;
    AtLeastOnce(e, m);
  }

  lemma OneMore(q: int, m: nat)
    ensures (q + 1) * m == q * m + m
  {
  }

  lemma AtLeastOnce(e: int, m: nat)
    ensures (e > 0 ==> e * m >= m) && (e < 0 ==> e * m + m <= 0)
  {
  }

  /** A little-endian field is the big-endian one reversed. */
  lemma {:induction false} LittleIsReversed(n: nat, k: nat, i: nat)
    requires i < k
    ensures LittleEndian(n, k)[i] == BigEndian(n, k)[k - 1 - i]
    decreases k
  {
    if i > 0 { LittleIsReversed(n / 256, k - 1, i - 1); }
  }

  /** Only the low bytes of a number show in a field. */
  lemma {:induction false} FieldTakesLowPart(n: nat, q: nat, k: nat)
    ensures BigEndian(q * Power(k) + n, k) == BigEndian(n, k)
    ensures LittleEndian(q * Power(k) + n, k) == LittleEndian(n, k)
    decreases k
  {
    if k > 0 {
      var p := q * Power(k - 1);
      assert q * Power(k) == 256 * p;
      assert (256 * p + n) % 256 == n % 256 && (256 * p + n) / 256 == p + n / 256;
      FieldTakesLowPart(n / 256, q, k - 1);
    }
  }

  /** Two fields in sequence hold the number put together. */
  lemma {:induction false} FieldsJoin(hi: nat, lo: nat, j: nat, k: nat)
    requires lo < Power(k)
    ensures BigEndian(hi, j) + BigEndian(lo, k) == BigEndian(hi * Power(k) + lo, j + k)
    decreases k
  {
    if k == 0 {
      assert BigEndian(hi, j) + [] == BigEndian(hi, j);
    } else {
      var p := hi * Power(k - 1);
      assert hi * Power(k) == 256 * p;
      assert (256 * p + lo) % 256 == lo % 256 && (256 * p + lo) / 256 == p + lo / 256;
      FieldsJoin(hi, lo / 256, j, k - 1);
      assert BigEndian(hi, j) + (BigEndian(lo / 256, k - 1) + [lo % 256])
        == (BigEndian(hi, j) + BigEndian(lo / 256, k - 1)) + [lo % 256];
    }
  }

  const WORD: nat := 0x1_0000_0000_0000_0000

  const FIELD: nat := 8

  lemma EightBytes()
    ensures Power(8) == WORD
  {
    assert Power(4) == 0x1_0000_0000;
    assert Power(6) == 0x1_0000_0000_0000;
  }

  lemma LowPart(n: nat, q: nat, r: nat)
    requires n == q * WORD + r
    ensures BigEndian(n, FIELD) == BigEndian(r, FIELD) && LittleEndian(n, FIELD) == LittleEndian(r, FIELD)
  {
    EightBytes();
    FieldTakesLowPart(r, q, FIELD);
  }

  /** A 64-bit byte count, shifted left by three in 64 bits, has the right low bytes. */
  lemma ShiftedCount(n: nat)
    ensures BigEndian(8 * (n % WORD) % WORD, FIELD) == BigEndian(8 * n, FIELD)
    ensures LittleEndian(8 * (n % WORD) % WORD, FIELD) == LittleEndian(8 * n, FIELD)
  {
    var w := WORD;
    var r := n % w;
    EightBytes();
    Divided(n, w);
    Divided(8 * r, w);
    LowBytesShifted(n, FIELD, n / w, r, 8 * r / w, 8 * r % w);
  }

  lemma Divided(n: nat, w: nat)
    requires w > 0
    ensures n == (n / w) * w + n % w
  {
  }

  lemma LowBytesShifted(n: nat, k: nat, q: nat, r: nat, p: nat, t: nat)
    requires n == q * Power(k) + r && 8 * r == p * Power(k) + t
    ensures BigEndian(t, k) == BigEndian(8 * n, k) && LittleEndian(t, k) == LittleEndian(8 * n, k)
  {
    EightTimes(n, Power(k), q, r, p, t);
    FieldTakesLowPart(t, 8 * q + p, k);
  }

  lemma EightTimes(n: nat, w: nat, q: nat, r: nat, p: nat, t: nat)
    requires n == q * w + r && 8 * r == p * w + t
    ensures 8 * n == (8 * q + p) * w + t
  {
  }

  // Padding.

  /** The number of zero bytes after the 0x80 byte for a message of n bytes. */
  function PadZeros(n: nat, block: nat, field: nat): nat
    requires field < block
  {
    (2 * block - field - 1 - n % block) % block
  }

  function LengthField(a: Algorithm, n: nat): (r: seq<byte>)
    ensures |r| == a.field
  {
    if a.littleEndian then LittleEndian(8 * n, a.field) else BigEndian(8 * n, a.field)
  }

  function Pad(a: Algorithm, n: nat): seq<byte>
    requires WellFormed(a)
  {
    [0x80] + Zeros(PadZeros(n, a.block, a.field)) + LengthField(a, n)
  }

  /** Padding ends on a block boundary, with the length field last, and no shorter padding does. */
  lemma PadIsLeast(a: Algorithm, n: nat, z: nat)
    requires WellFormed(a)
    ensures (n + |Pad(a, n)|) % a.block == 0
    ensures (n + 1 + z + a.field) % a.block == 0 ==> PadZeros(n, a.block, a.field) <= z
  {
    PadZerosAre(n, a.block, a.field);
    PadEndsBlock(n, a.block, a.field);
    var size, p := n + 1 + a.field, PadZeros(n, a.block, a.field);
    if (size + z) % a.block == 0 && z < p {
      UniqueRemainder(size + p, a.block, (size + z) / a.block, p - z);
    }
  }

  /** The number of zeros from the room behind the message in its last block. */
  lemma PadZerosAre(n: nat, block: nat, field: nat)
    requires field < block
    ensures var r, room := n % block, block - field - 1;
      PadZeros(n, block, field) == (if r <= room then 0 else block) + room - r
  {
    var r, room := n % block, block - field - 1;
    if r <= room {
      UniqueRemainder(block + room - r, block, 1, room - r);
    } else {
      UniqueRemainder(block + room - r, block, 0, block + room - r);
    }
  }

  lemma PadEndsBlock(n: nat, block: nat, field: nat)
    requires field < block
    ensures (n + 1 + PadZeros(n, block, field) + field) % block == 0
  {
    PadZerosAre(n, block, field);
    var q := n / block;
    OneMore(q, block);
    OneMore(q + 1, block);
    UniqueRemainder(n + 1 + PadZeros(n, block, field) + field, block,
                    if n % block <= block - field - 1 then q + 1 else q + 2, 0);
  }

  // A 64-bit count of bytes tells how far a 64-byte block is filled.

  lemma CountKeepsIndex(count: nat, n: nat)
    ensures ((count % WORD + n) % WORD) == (count + n) % WORD
    ensures (count % WORD) % 64 == count % 64
  {
    SameCount(count, n);
    SameIndex(count);
  }

  lemma SameIndex(count: nat)
    ensures (count % WORD) % 64 == count % 64
  {
    var q, c := count / WORD, count % WORD;
    assert WORD == 64 * 0x400_0000_0000_0000 && count == q * WORD + c;
    UniqueRemainder(count, 64, q * 0x400_0000_0000_0000 + c / 64, c % 64);
  }

  lemma SameCount(count: nat, n: nat)
    ensures ((count % WORD + n) % WORD) == (count + n) % WORD
  {
    var c := count % WORD + n;
    UniqueRemainder(count + n, WORD, count / WORD + c / WORD, c % WORD);
  }

  lemma IndexAfter(n: nat, part: nat)
    requires n % 64 == part % 64 && part < 64
    ensures n % WORD % 64 == part
  {
    SameIndex(n);
    Small(part, 64);
  }

  /** The table MD5 and SHA-1 take their padding from. */
  const PADDING: seq<byte> := [0x80] + Zeros(63)

  /** The length of the slice they take is that of the least padding. */
  lemma PadLength(index: nat, n: nat)
    requires index == n % 64
    ensures (if index < 56 then 56 - index else 120 - index) == 1 + PadZeros(n, 64, 8)
  {
    PadZerosAre(n, 64, 8);
  }

  /** A slice of that length and the shifted 64-bit count are the padding of the message. */
  lemma PadFromTable(a: Algorithm, n: nat, padLen: nat)
    requires a.block == 64 && a.field == FIELD
    requires var index := n % WORD % 64; padLen == if index < 56 then 56 - index else 120 - index
    ensures padLen <= 64 && PADDING[..padLen] + ShiftedField(a, n % WORD) == Pad(a, n)
  {
    CountKeepsIndex(n, 0);
    PadLength(n % 64, n);
    ShiftedCount(n);
    TableSlice(padLen - 1);
  }

  lemma TableSlice(z: nat)
    requires z <= 63
    ensures PADDING[..z + 1] == [0x80] + Zeros(z)
  {
  }

  /** The length field as computed from a 64-bit byte count. */
  function ShiftedField(a: Algorithm, count: nat): seq<byte> {
    if a.littleEndian then LittleEndian(8 * count % WORD, FIELD) else BigEndian(8 * count % WORD, FIELD)
  }

  // Folding.

  function Fold(a: Algorithm, s: State, msg: seq<byte>): State
    requires a.block > 0
    decreases |msg|
  {
    if |msg| < a.block then s else Fold(a, a.compress(s, msg[..a.block]), msg[a.block..])
  }

  /** The final state: fold over the blocks of the padded message. */
  function Final(a: Algorithm, msg: seq<byte>): State
    requires WellFormed(a)
  {
    Fold(a, a.initial, msg + Pad(a, |msg|))
  }

  function Digest(a: Algorithm, msg: seq<byte>): seq<byte>
    requires WellFormed(a)
  {
    a.output(Final(a, msg))
  }

  // Incremental hashing: a state and a partial block stand for the message so far.

  ghost predicate Continues(a: Algorithm, msg: seq<byte>, s: State, part: seq<byte>, rest: seq<byte>)
    requires WellFormed(a)
  {
    Fold(a, s, part + rest) == Fold(a, a.initial, msg + rest)
  }

  /** However the message goes on, folding from here gives the same as folding it all. */
  ghost predicate Absorbed(a: Algorithm, msg: seq<byte>, s: State, part: seq<byte>)
    requires WellFormed(a)
  {
    && |msg| % a.block == |part| % a.block
    && forall rest {:trigger Continues(a, msg, s, part, rest)} :: Continues(a, msg, s, part, rest)
  }

  lemma AbsorbNothing(a: Algorithm)
    requires WellFormed(a)
    ensures Absorbed(a, [], a.initial, [])
  {
  }

  lemma SameRemainder(x: nat, y: nat, d: nat, block: nat)
    requires block == 64 || block == 128
    requires x % block == y % block
    ensures (x + d) % block == (y + d) % block
  {
    if block == 64 {
      UniqueRemainder(x + d, 64, x / 64 - y / 64 + (y + d) / 64, (y + d) % 64);
    } else {
      UniqueRemainder(x + d, 128, x / 128 - y / 128 + (y + d) / 128, (y + d) % 128);
    }
  }

  lemma Associate(x: seq<byte>, y: seq<byte>, z: seq<byte>)
    ensures x + y + z == x + (y + z)
  {
  }

  lemma AbsorbMore(a: Algorithm, msg: seq<byte>, s: State, part: seq<byte>, data: seq<byte>)
    requires WellFormed(a) && Absorbed(a, msg, s, part)
    ensures Absorbed(a, msg + data, s, part + data)
  {
    SameRemainder(|msg|, |part|, |data|, a.block);
    forall rest
      ensures Continues(a, msg + data, s, part + data, rest)
    {
      assert Continues(a, msg, s, part, data + rest);
      assert part + data + rest == part + (data + rest) && msg + data + rest == msg + (data + rest);
    }
  }

  lemma BlockMore(x: nat, block: nat)
    requires block > 0
    ensures (block + x) % block == x % block
  {
    OneMore(x / block, block);
    UniqueRemainder(block + x, block, x / block + 1, x % block);
  }

  lemma AbsorbBlock(a: Algorithm, msg: seq<byte>, s: State, block: seq<byte>, part: seq<byte>)
    requires WellFormed(a) && |block| == a.block && Absorbed(a, msg, s, block + part)
    ensures Absorbed(a, msg, a.compress(s, block), part)
  {
    BlockMore(|part|, a.block);
    forall rest
      ensures Continues(a, msg, a.compress(s, block), part, rest)
    {
      assert Continues(a, msg, s, block + part, rest);
      var all := (block + part) + rest;
      assert all[..a.block] == block && all[a.block..] == part + rest;
    }
  }

  lemma AbsorbedAll(a: Algorithm, msg: seq<byte>, s: State)
    requires WellFormed(a) && Absorbed(a, msg + Pad(a, |msg|), s, [])
    ensures s == Final(a, msg)
  {
    var padded := msg + Pad(a, |msg|);
    assert padded + [] == padded;
    assert Continues(a, padded, s, [], []);
  }

  /** A partial block is empty once the padded message is absorbed, and the state is final. */
  lemma Completed(a: Algorithm, msg: seq<byte>, s: State, part: seq<byte>)
    requires WellFormed(a) && |part| < a.block && Absorbed(a, msg + Pad(a, |msg|), s, part)
    ensures s == Final(a, msg)
  {
    PadIsLeast(a, |msg|, 0);
    Small(|part|, a.block);
    assert part == [];
    AbsorbedAll(a, msg, s);
  }

  lemma Small(x: nat, block: nat)
    requires x < block
    ensures x % block == x
  {
  }
}
