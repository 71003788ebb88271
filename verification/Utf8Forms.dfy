/** The byte forms of UTF-8 written out, and what encoder and decoder do with each of them under
    every set of flags. */
module Utf8Forms {
  import opened Wrappers
  import opened Bytes
  import opened Utf8Codec
  import opened Utf8RoundTrip

  /** Forms with k continuation bytes are for values below this. */
  function Limit(k: nat): nat {
    if k == 0 then 0x80 else if k == 1 then 0x800 else if k == 2 then 0x1_0000 else if k == 3 then 0x20_0000
    else if k == 4 then 0x400_0000 else if k == 5 then 0x8000_0000 else 0x1_0000_0000
  }

  /** The first byte of such a form is this, plus the highest bits. */
  function First(k: nat): nat {
    if k == 1 then 0xC0 else if k == 2 then 0xE0 else if k == 3 then 0xF0
    else if k == 4 then 0xF8 else if k == 5 then 0xFC else 0xFE
  }

  /** The place value of the bits in front of the last i groups of six. */
  function Place(i: nat): (p: nat)
    ensures p > 0
  {
    if i == 0 then 1 else if i == 1 then 0x40 else if i == 2 then 0x1000 else if i == 3 then 0x4_0000
    else if i == 4 then 0x100_0000 else if i == 5 then 0x4000_0000 else 0x10_0000_0000
  }

  function Head(v: Unichar, k: nat): byte
    requires 1 <= k <= 6 && v < Limit(k)
  {
    First(k) + v / Place(k)
  }

  /** A value in the form with k continuation bytes, six bits in each; whether there is a shorter
      form does not matter. */
  function Form(v: Unichar, k: nat): (r: seq<byte>)
    requires 1 <= k <= 6 && v < Limit(k)
    ensures |r| == k + 1 && r[0] == Head(v, k)
  {
    [Head(v, k)] + Groups(v, k)
  }

  /** The last k groups of six bits, highest first. */
  function Groups(v: Unichar, k: nat): (r: seq<byte>)
    ensures |r| == k
  {
    seq(k, i requires 0 <= i < k => 0x80 + v / Place(k - 1 - i) % 0x40)
  }

  /** The error character of a byte. */
  function Stray(b: byte): Unichar {
    0xEF00 + b as int
  }

  lemma ShiftIs(v: Unichar, i: nat)
    requires i <= 6
    ensures Shift(v, i) == v / Place(i)
  {
    ShiftValues(v);
  }

  /** That is a marked lead and a tail. */
  lemma FormIs(v: Unichar, k: nat)
    requires 1 <= k <= 6 && v < Limit(k)
    ensures Head(v, k) == Marker(k) + Shift(v, k) && Form(v, k) == [Head(v, k)] + Tail(v, k)
  {
    ShiftIs(v, k);
    TailIs(v, k);
  }

  lemma {:induction false} TailIs(v: Unichar, k: nat)
    requires k <= 6
    ensures Tail(v, k) == Groups(v, k)
  {
    if k > 0 {
      TailIs(v, k - 1);
      ShiftIs(v, k - 1);
    }
  }

  // The encoder.

  /** The least number of continuation bytes that will do. */
  function Fewest(ch: Unichar): (k: nat)
    ensures 1 <= k <= 6 && ch < Limit(k) && (ch >= 0x80 ==> Limit(k - 1) <= ch)
  {
    if ch < Limit(1) then 1 else if ch < Limit(2) then 2 else if ch < Limit(3) then 3
    else if ch < Limit(4) then 4 else if ch < Limit(5) then 5 else 6
  }

  /** What is written for a rune: a byte for an escaped error character, two forms of three bytes
      for a rune that is split into surrogates, a byte for a rune below 0x80 unless it is a zero to
      be encoded, and the shortest form of several bytes for all others. */
  function Written(f: Flags, ch: Unichar): seq<byte> {
    if f.errorEscapes && 0xEF80 <= ch <= 0xEFFF then [ch - 0xEF00]
    else if f.surrogates && 0x1_0000 <= ch <= 0x10_FFFF then
      Form(0xD800 + (ch - 0x1_0000) / 0x400, 2) + Form(0xDC00 + (ch - 0x1_0000) % 0x400, 2)
    else if ch < 0x80 && !(ch == 0 && f.encodedZero) then [ch]
    else Form(ch, Fewest(ch))
  }

  lemma EncodeExactly(f: Flags, ch: Unichar)
    ensures Encode(f, ch) == Written(f, ch)
  {
    if f.surrogates && 0x1_0000 <= ch <= 0x10_FFFF {
      Halves(ch);
      OneForm(0xD800 + (ch - 0x1_0000) / 0x400);
      OneForm(0xDC00 + (ch - 0x1_0000) % 0x400);
    } else {
      OneForm(ch);
    }
  }

  lemma Halves(ch: Unichar)
    requires 0x1_0000 <= ch <= 0x10_FFFF
    ensures var hi, lo := 0xD800 + (ch - 0x1_0000) / 0x400, 0xDC00 + (ch - 0x1_0000) % 0x400;
      && 0xD800 <= hi < 0xDC00 <= lo < 0xE000 && Fewest(hi) == Fewest(lo) == 2
      && (ch - 0x1_0000) / 0x400 % 0x400 == (ch - 0x1_0000) / 0x400
  {
  }

  lemma OneForm(ch: Unichar)
    ensures EncodeOne(ch) == Form(ch, Fewest(ch))
  {
    FormIs(ch, Fewest(ch));
    assert Extra(ch) == Fewest(ch);
  }

  // The decoder.

  /** The forms that are accepted: the value is no error character under error escapes; the form is
      the shortest, or any will do, or it is the two-byte form of zero; the value is a character. */
  predicate Allowed(f: Flags, v: Unichar, k: nat)
    requires 1 <= k <= 6
  {
    && !(f.errorEscapes && 0xEF80 <= v <= 0xEFFF)
    && (v >= Limit(k - 1) || f.nonMinimal || (f.encodedZero && v == 0 && k == 1))
    && (f.nonCharacters || (v < 0x10_FFFF && v % 0x1_0000 < 0xFFFE))
  }

  /** A form is read as its value when it is allowed, and otherwise its first byte is an error. */
  lemma ParseForm(f: Flags, v: Unichar, k: nat, rest: seq<byte>)
    requires 1 <= k <= 6 && v < Limit(k)
    ensures var b := Head(v, k);
      Parse(f, Form(v, k) + rest) == if Allowed(f, v, k) then Character(v, b, 1 + k) else Character(Stray(b), b, 1)
  {
    var data := Form(v, k) + rest;
    FormIs(v, k);
    ShiftValues(v);
    LeadOfForm(v, k);
    assert data[0] == Form(v, k)[0] && data[1..] == Tail(v, k) + rest;
    ContinueTail(v, k, rest);
  }

  lemma LeadOfForm(v: Unichar, k: nat)
    requires 1 <= k <= 6 && v < Limit(k)
    ensures LeadOf(Head(v, k)) == Some(Lead(Shift(v, k), k, Limit(k - 1)))
  {
    ShiftValues(v);
  }

  /** Nothing else is read: behind a byte from 0x80 up there is an allowed form, or an error. */
  lemma ParseIsForm(f: Flags, data: seq<byte>)
    requires data != [] && data[0] >= 0x80
    ensures var c := Parse(f, data); var k := c.size - 1;
      if k == 0 then c.value == Stray(data[0])
      else 1 <= k <= 6 && c.value < Limit(k) && Allowed(f, c.value, k) && data[..k + 1] == Form(c.value, k)
  {
    var c := Parse(f, data);
    if c.size > 1 {
      var lead := LeadOf(data[0]).value;
      LeadIsMarked(data[0]);
      FormRead(data, lead, c.value);
    } else {
      OnlyErrorsAreSingle(f, data);
    }
  }

  lemma FormRead(data: seq<byte>, lead: Lead, v: Unichar)
    requires data != [] && LeadOf(data[0]) == Some(lead) && 1 <= lead.extra <= 6
    requires Continue(lead.rune, data[1..], lead.extra) == Some(v)
    ensures v < Limit(lead.extra) && lead.extra < |data| && data[..lead.extra + 1] == Form(v, lead.extra)
  {
    LeadIsMarked(data[0]);
    TailContinue(lead.rune, data[1..], lead.extra, v);
    BelowLimit(v, lead.extra);
    FormIs(v, lead.extra);
    HeadAndTail(data, lead.extra);
  }

  lemma OnlyErrorsAreSingle(f: Flags, data: seq<byte>)
    requires data != [] && data[0] >= 0x80 && Parse(f, data).size == 1
    ensures Parse(f, data).value == Stray(data[0])
  {
    if LeadOf(data[0]).Some? { LeadIsMarked(data[0]); }
  }

  lemma BelowLimit(v: Unichar, k: nat)
    requires 1 <= k <= 6 && (k < 6 ==> Shift(v, k) < 0x40 / Pow2(k))
    ensures v < Limit(k)
  {
    ShiftValues(v);
  }

  /** Surrogates stand for themselves only where they are allowed to. */
  predicate IsSurrogate(v: Unichar) {
    0xD800 <= v < 0xE000
  }

  /** A byte below 0x80 is itself; any other byte that is read alone is an error, whatever the
      flags. */
  lemma SingleByte(f: Flags, data: seq<byte>)
    requires data != []
    ensures data[0] < 0x80 ==> Eat(f, data) == Eaten(data[0], 1)
    ensures data[0] >= 0x80 && Eat(f, data).size == 1 ==> Eat(f, data).rune == Stray(data[0])
  {
    if data[0] >= 0x80 {
      ParseIsForm(f, data);
    } else {
      assert Continue(data[0], data[1..], 0) == Some(data[0]);
    }
  }

  /** A form that is allowed and no surrogate is read as its value; one that is not allowed is an
      error. */
  lemma EatForm(f: Flags, v: Unichar, k: nat, rest: seq<byte>)
    requires 1 <= k <= 6 && v < Limit(k) && !IsSurrogate(v)
    ensures Eat(f, Form(v, k) + rest) == if Allowed(f, v, k) then Eaten(v, 1 + k) else Eaten(Stray(Head(v, k)), 1)
  {
    ParseForm(f, v, k, rest);
    LeadOfForm(v, k);
  }

  /** A surrogate alone is read as its value exactly when surrogates do not pair up, or it is the
      second half, and non-characters are allowed. */
  lemma EatSurrogate(f: Flags, v: Unichar, k: nat, rest: seq<byte>)
    requires 1 <= k <= 6 && v < Limit(k) && IsSurrogate(v) && (v >= 0xDC00 || !f.surrogates)
    ensures Eat(f, Form(v, k) + rest)
      == if Allowed(f, v, k) && f.nonCharacters then Eaten(v, 1 + k) else Eaten(Stray(Head(v, k)), 1)
  {
    ParseForm(f, v, k, rest);
    LeadOfForm(v, k);
  }

  /** Where surrogates pair up, a first and a second half are one rune of 20 bits and an offset; a
      first half without a second one is an error. */
  lemma EatPair(f: Flags, v: Unichar, k: nat, rest: seq<byte>)
    requires 1 <= k <= 6 && v < Limit(k) && 0xD800 <= v < 0xDC00 && f.surrogates
    ensures var low := Parse(f, rest);
      Eat(f, Form(v, k) + rest)
      == if Allowed(f, v, k) && 0xDC00 <= low.value < 0xE000
         then Eaten(0x1_0000 + (v - 0xD800) * 0x400 + (low.value - 0xDC00), 1 + k + low.size)
         else Eaten(Stray(Head(v, k)), 1)
  {
    ParseForm(f, v, k, rest);
    LeadOfForm(v, k);
    assert (Form(v, k) + rest)[k + 1..] == rest;
    HalfOf(v, 0xD800);
    var low := Parse(f, rest);
    if 0xDC00 <= low.value < 0xE000 { HalfOf(low.value, 0xDC00); }
  }

  lemma HalfOf(v: Unichar, base: nat)
    requires (base == 0xD800 || base == 0xDC00) && base <= v < base + 0x400
    ensures v % 1024 == v - base
  {
  }
}
