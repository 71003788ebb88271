/** A CRC is a remainder: the shift register divides the message by the generator polynomial.

    Polynomials over the field of two elements are lists of coefficients, the highest power
    first.  That is the order of the bits of a register that shifts right. */
module CrcRemainder {
  import opened Bytes
  import opened Crc

  function None(n: nat): Bits {
    Repeat(false, n)
  }

  /** The generator: the power above the register, and the polynomial in the register. */
  function Generator(poly: Bits): Bits {
    [true] + poly
  }

  /** The product of two polynomials. */
  function Product(q: Bits, g: Bits): (r: Bits)
    requires |g| > 0
    ensures |r| == |q| + |g| - 1
  {
    if q == [] then None(|g| - 1)
    else
      var n := |q| - 1;
      Xor(Product(q[..n], g) + [false], if q[n] then None(n) + g else None(n + |g|))
  }

  /** The message moved up by the width of the register, plus the start value moved up by the size
      of the message. */
  function Dividend(start: Bits, bits: Bits): (r: Bits)
    ensures |r| == |start| + |bits|
  {
    Xor(start + None(|bits|), bits + None(|start|))
  }

  /** d == q * g + r with r of lower degree than g. */
  predicate Divides(d: Bits, g: Bits, q: Bits, r: Bits) {
    |g| == |r| + 1 && |d| == |q| + |r| && d == Xor(Product(q, g), None(|q|) + r)
  }

  lemma {:induction false} FeedBitsLast(poly: Bits, reg: Bits, bits: Bits)
    requires |reg| == |poly| > 0 && bits != []
    ensures FeedBits(poly, reg, bits) == FeedBit(poly, FeedBits(poly, reg, bits[..|bits| - 1]), bits[|bits| - 1])
    decreases |bits|
  {
    if |bits| == 1 {
      assert bits[1..] == [] && bits[..0] == [];
    } else {
      var front, rest := bits[..|bits| - 1], bits[1..];
      FeedBitsLast(poly, FeedBit(poly, reg, bits[0]), rest);
      assert rest[..|rest| - 1] == front[1..] && rest[|rest| - 1] == bits[|bits| - 1] && front[0] == bits[0];
    }
  }

  lemma NextProduct(q: Bits, b: bool, g: Bits, i: nat)
    requires |g| > 0 && i < |q| + |g|
    ensures Product(q + [b], g)[i] == ((i < |q| + |g| - 1 && Product(q, g)[i]) != (b && i >= |q| && g[i - |q|]))
  {
    ProductLast(q, b, g);
    XorAt(Product(q, g), g, b, |q|, i);
  }

  lemma ProductLast(q: Bits, b: bool, g: Bits)
    requires |g| > 0
    ensures Product(q + [b], g) == Xor(Product(q, g) + [false], if b then None(|q|) + g else None(|q| + |g|))
  {
    assert (q + [b])[..|q|] == q;
  }

  lemma XorAt(p: Bits, g: Bits, b: bool, n: nat, i: nat)
    requires |g| > 0 && |p| == n + |g| - 1 && i < n + |g|
    ensures Xor(p + [false], if b then None(n) + g else None(n + |g|))[i]
      == ((i < |p| && p[i]) != (b && i >= n && g[i - n]))
  {
  }

  lemma NextRegister(poly: Bits, reg: Bits, bit: bool, j: nat)
    requires |reg| == |poly| && j < |poly|
    ensures FeedBit(poly, reg, bit)[j] == ((j + 1 < |poly| && reg[j + 1]) != (reg[0] != bit && poly[j]))
  {
  }

  /** A coefficient of q * g + r. */
  function Coefficient(g: Bits, q: Bits, r: Bits, i: nat): bool
    requires |g| == |r| + 1 && i < |q| + |r|
  {
    Product(q, g)[i] != (i >= |q| && r[i - |q|])
  }

  lemma DividesAt(d: Bits, g: Bits, q: Bits, r: Bits)
    requires |g| == |r| + 1 && |d| == |q| + |r|
    ensures Divides(d, g, q, r) <==> forall i :: 0 <= i < |d| ==> d[i] == Coefficient(g, q, r, i)
  {
    var x := Xor(Product(q, g), None(|q|) + r);
    assert forall i :: 0 <= i < |d| ==> x[i] == Coefficient(g, q, r, i);
  }

  lemma NextCoefficient(poly: Bits, q: Bits, reg: Bits, last: bool, i: nat)
    requires |reg| == |poly| > 0 && i < |q| + 1 + |poly|
    ensures Coefficient(Generator(poly), q + [reg[0] != last], FeedBit(poly, reg, last), i)
      == ((i < |q| + |poly| && Coefficient(Generator(poly), q, reg, i)) != (i == |q| && last))
  {
    var g := Generator(poly);
    NextProduct(q, reg[0] != last, g, i);
    if i > |q| {
      NextRegister(poly, reg, last, i - |q| - 1);
      assert g[i - |q|] == poly[i - |q| - 1];
    } else {
      assert g[0] && Coefficient(g, q, reg, i) == (Product(q, g)[i] != (i == |q| && reg[0]));
    }
  }

  /** One bit more: the quotient gets a bit, and the register is the new remainder. */
  lemma DivideOneMore(poly: Bits, start: Bits, bits: Bits, q: Bits, reg: Bits)
    requires |start| == |poly| == |reg| > 0 && bits != [] && |q| == |bits| - 1
    requires Divides(Dividend(start, bits[..|bits| - 1]), Generator(poly), q, reg)
    ensures var last := bits[|bits| - 1];
      Divides(Dividend(start, bits), Generator(poly), q + [reg[0] != last], FeedBit(poly, reg, last))
  {
    var n, g, last := |q|, Generator(poly), bits[|q|];
    var q2, reg2 := q + [reg[0] != last], FeedBit(poly, reg, last);
    DividesAt(Dividend(start, bits[..n]), g, q, reg);
    forall i | 0 <= i < |Dividend(start, bits)|
      ensures Dividend(start, bits)[i] == Coefficient(g, q2, reg2, i)
    {
      NextDividend(start, bits, i);
      NextCoefficient(poly, q, reg, last, i);
    }
    DividesAt(Dividend(start, bits), g, q2, reg2);
  }

  lemma NextDividend(start: Bits, bits: Bits, i: nat)
    requires start != [] && bits != [] && i < |start| + |bits|
    ensures var n := |bits| - 1;
      Dividend(start, bits)[i] == ((i < |start| + n && Dividend(start, bits[..n])[i]) != (i == n && bits[n]))
  {
  }

  /** The bits that decide whether the generator is subtracted. */
  function Quotient(poly: Bits, start: Bits, bits: Bits): (q: Bits)
    requires |start| == |poly| > 0
    ensures |q| == |bits|
    decreases |bits|
  {
    if bits == [] then []
    else
      var front, last := bits[..|bits| - 1], bits[|bits| - 1];
      Quotient(poly, start, front) + [FeedBits(poly, start, front)[0] != last]
  }

  /** Feeding bits divides: the register at the end is the remainder. */
  lemma {:induction false} FeedDivides(poly: Bits, start: Bits, bits: Bits)
    requires |start| == |poly| > 0
    ensures Divides(Dividend(start, bits), Generator(poly), Quotient(poly, start, bits), FeedBits(poly, start, bits))
    decreases |bits|
  {
    if bits == [] {
      assert Dividend(start, []) == start;
      assert Xor(Product([], Generator(poly)), None(0) + start) == start;
    } else {
      var front := bits[..|bits| - 1];
      FeedDivides(poly, start, front);
      DivideOneMore(poly, start, bits, Quotient(poly, start, front), FeedBits(poly, start, front));
      FeedBitsLast(poly, start, bits);
    }
  }

  // There is only one remainder.

  /** Later coefficients of the quotient do not matter for the higher ones of the product. */
  lemma {:induction false} EarlyCoefficient(q: Bits, g: Bits, i: nat)
    requires |g| > 0 && i < |q|
    ensures Product(q, g)[i] == Product(q[..i + 1], g)[i]
    decreases |q|
  {
    var n := |q| - 1;
    if i < n {
      var front := q[..n];
      assert q == front + [q[n]] && front[..i + 1] == q[..i + 1];
      NextProduct(front, q[n], g, i);
      EarlyCoefficient(front, g, i);
    } else {
      assert q[..i + 1] == q;
    }
  }

  /** The coefficient of the product that the next digit of the quotient changes. */
  function Carry(q: Bits, g: Bits): bool
    requires |g| > 0
  {
    |g| > 1 && Product(q, g)[|q|]
  }

  lemma Cut(q: Bits, k: nat)
    requires k < |q|
    ensures q[..k + 1] == q[..k] + [q[k]]
  {
  }

  lemma DigitOfProduct(q: Bits, g: Bits, k: nat)
    requires |g| > 0 && g[0] && k < |q|
    ensures Product(q, g)[k] == (Carry(q[..k], g) != q[k])
  {
    EarlyCoefficient(q, g, k);
    Cut(q, k);
    NextProduct(q[..k], q[k], g, k);
  }

  lemma DigitOf(d: Bits, g: Bits, q: Bits, r: Bits, k: nat)
    requires Divides(d, g, q, r) && k < |q|
    ensures d[k] == Product(q, g)[k]
  {
    DividesAt(d, g, q, r);
    assert d[k] == Coefficient(g, q, r, k);
  }

  lemma {:induction false} SameQuotient(d: Bits, g: Bits, q1: Bits, r1: Bits, q2: Bits, r2: Bits, i: nat)
    requires Divides(d, g, q1, r1) && Divides(d, g, q2, r2) && g[0] && i <= |q1| == |q2|
    ensures q1[..i] == q2[..i]
    decreases i
  {
    if i > 0 {
      var k := i - 1;
      SameQuotient(d, g, q1, r1, q2, r2, k);
      DigitOf(d, g, q1, r1, k);
      DigitOf(d, g, q2, r2, k);
      DigitOfProduct(q1, g, k);
      DigitOfProduct(q2, g, k);
      Cut(q1, k);
      Cut(q2, k);
    }
  }

  /** Quotient and remainder are determined by what is divided. */
  lemma OnlyRemainder(d: Bits, g: Bits, q1: Bits, r1: Bits, q2: Bits, r2: Bits)
    requires Divides(d, g, q1, r1) && Divides(d, g, q2, r2) && g[0]
    ensures q1 == q2 && r1 == r2
  {
    SameQuotient(d, g, q1, r1, q2, r2, |q1|);
    assert q1[..|q1|] == q1 && q2[..|q1|] == q2;
    DividesAt(d, g, q1, r1);
    DividesAt(d, g, q2, r2);
    forall j | 0 <= j < |r1|
      ensures r1[j] == r2[j]
    {
      assert d[|q1| + j] == Coefficient(g, q1, r1, |q1| + j);
      assert d[|q1| + j] == Coefficient(g, q2, r2, |q1| + j);
    }
  }

  /** The bits of a message in the order of transmission: the low bit of each byte first. */
  function MessageBits(msg: seq<byte>): Bits {
    if msg == [] then [] else MessageBits(msg[..|msg| - 1]) + BitsOf(msg[|msg| - 1], BYTE)
  }

  lemma {:induction false} FeedBitsChain(poly: Bits, reg: Bits, a: Bits, b: Bits)
    requires |reg| == |poly| > 0
    ensures FeedBits(poly, reg, a + b) == FeedBits(poly, FeedBits(poly, reg, a), b)
    decreases |a|
  {
    if a == [] {
      assert a + b == b;
    } else {
      assert (a + b)[1..] == a[1..] + b;
      FeedBitsChain(poly, FeedBit(poly, reg, a[0]), a[1..], b);
    }
  }

  lemma {:induction false} FeedAllIsBits(poly: Bits, reg: Bits, msg: seq<byte>)
    requires |reg| == |poly| > 0
    ensures FeedAll(poly, reg, msg) == FeedBits(poly, reg, MessageBits(msg))
    decreases |msg|
  {
    if msg != [] {
      var front := msg[..|msg| - 1];
      FeedAllIsBits(poly, reg, front);
      FeedBitsChain(poly, reg, MessageBits(front), BitsOf(msg[|msg| - 1], BYTE));
    }
  }

  /** The checksum of a message is the remainder of the message, with the start value in front,
      divided by the generator; where values are complemented, both the start and the result are. */
  lemma ChecksumIsRemainder(poly: Bits, invert: bool, prev: Bits, msg: seq<byte>)
    requires |prev| == |poly| > 0
    ensures var sum := Checksum(poly, invert, prev, msg);
      var start, rem := if invert then Not(prev) else prev, if invert then Not(sum) else sum;
      exists q :: Divides(Dividend(start, MessageBits(msg)), Generator(poly), q, rem)
  {
    var start := if invert then Not(prev) else prev;
    var rem := FeedAll(poly, start, msg);
    FeedDivides(poly, start, MessageBits(msg));
    FeedAllIsBits(poly, start, msg);
    assert Not(Not(rem)) == rem;
    assert Divides(Dividend(start, MessageBits(msg)), Generator(poly), Quotient(poly, start, MessageBits(msg)), rem);
  }
}
