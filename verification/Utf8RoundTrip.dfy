/** Round trips of the UTF-8 codec, in both directions and for every set of flags. */
module Utf8RoundTrip {
  import opened Wrappers
  import opened Bytes
  import opened Utf8Codec

  /** Reading back the continuation bytes of ch gives ch. */
  lemma {:induction false} ContinueTail(ch: Unichar, k: nat, rest: seq<byte>)
    ensures Continue(Shift(ch, k), Tail(ch, k) + rest, k) == Some(ch)
    decreases k
  {
    if k > 0 {
      var data := Tail(ch, k) + rest;
      assert data[1..] == Tail(ch, k - 1) + rest;
      ContinueTail(ch, k - 1, rest);
    }
  }

  /** Conversely, continuation bytes that merge into v are those of v. */
  lemma {:induction false} TailContinue(rune: Unichar, data: seq<byte>, k: nat, v: Unichar)
    requires Continue(rune, data, k) == Some(v)
    ensures k <= |data| && Shift(v, k) == rune && Tail(v, k) == data[..k]
    decreases k
  {
    if k > 0 {
      TailContinue(rune * 64 + data[0] % 64, data[1..], k - 1, v);
      assert data[..k] == [data[0]] + data[1..][..k - 1];
    }
  }

  /** The smallest rune that needs k continuation bytes. */
  function MinVal(k: nat): Unichar {
    if k == 0 then 0 else if k == 1 then 0x80 else if k == 2 then 0x800 else if k == 3 then 0x10000
    else if k == 4 then 0x20_0000 else if k == 5 then 0x400_0000 else 0x8000_0000
  }

  lemma LeadOfEncodeOne(ch: Unichar)
    ensures LeadOf(EncodeOne(ch)[0]) == Some(Lead(Shift(ch, Extra(ch)), Extra(ch), MinVal(Extra(ch))))
    ensures EncodeOne(ch)[0] >= 0xC0 && (ch >= 0x80 ==> MinVal(Extra(ch)) <= ch)
  {
    ShiftValues(ch);
  }

  /** The first byte and its announced length determine each other. */
  lemma LeadIsMarked(b: byte)
    requires LeadOf(b).Some? && b >= 0x80
    ensures var lead := LeadOf(b).value;
      && 1 <= lead.extra <= 6 && lead.minVal == MinVal(lead.extra)
      && b == Marker(lead.extra) + lead.rune
      && lead.rune < (if lead.extra == 6 then 1 else 0x40 / Pow2(lead.extra))
  {
  }

  function Pow2(k: nat): (p: nat)
    requires k <= 6
    ensures p > 0
  {
    if k == 0 then 1 else if k == 1 then 2 else if k == 2 then 4 else if k == 3 then 8
    else if k == 4 then 16 else if k == 5 then 32 else 64
  }

  /** A rune read from k continuation bytes in minimal form is encoded in k. */
  lemma ExtraOfMinimal(v: Unichar, k: nat)
    requires 1 <= k <= 6 && MinVal(k) <= v
    requires k < 6 ==> Shift(v, k) < 0x40 / Pow2(k)
    ensures Extra(v) == k
  {
    ShiftValues(v);
  }

  lemma ParseOfEncodeOne(f: Flags, ch: Unichar, rest: seq<byte>)
    ensures var lead := Lead(Shift(ch, Extra(ch)), Extra(ch), MinVal(Extra(ch))); var b := EncodeOne(ch)[0];
      Parse(f, EncodeOne(ch) + rest)
      == if Rejected(f, ch, lead) then Character(MakeErrorCharacter(b), b, 1) else Character(ch, b, 1 + Extra(ch))
  {
    LeadOfEncodeOne(ch);
    ContinueTail(ch, Extra(ch), rest);
    var data := EncodeOne(ch) + rest;
    assert data[1..] == Tail(ch, Extra(ch)) + rest;
  }

  /** A minimal multi-byte rune is the encoding of what it parses to. */
  lemma EncodeOneOfParse(data: seq<byte>, v: Unichar)
    requires data != [] && data[0] >= 0x80 && LeadOf(data[0]).Some?
    requires var lead := LeadOf(data[0]).value;
      Continue(lead.rune, data[1..], lead.extra) == Some(v) && lead.minVal <= v
    ensures var n := 1 + LeadOf(data[0]).value.extra; n <= |data| && EncodeOne(v) == data[..n]
  {
    var lead := LeadOf(data[0]).value;
    LeadIsMarked(data[0]);
    TailContinue(lead.rune, data[1..], lead.extra, v);
    ExtraOfMinimal(v, lead.extra);
    HeadAndTail(data, lead.extra);
  }

  lemma HeadAndTail(data: seq<byte>, k: nat)
    requires k < |data|
    ensures data[..1 + k] == [data[0]] + data[1..][..k]
  {
  }

  // Decode, then encode.

  /** The flag sets under which decoding and encoding again changes no byte string. */
  predicate Transparent(f: Flags) {
    f.errorEscapes && !f.surrogates && !f.encodedZero && !f.nonMinimal
  }

  /** Under those flags a parsed rune encodes to the bytes it was read from. */
  lemma ParseIsInvertible(f: Flags, data: seq<byte>)
    requires Transparent(f) && data != []
    ensures var c := Parse(f, data); Encode(f, c.value) == data[..c.size]
    ensures var c := Parse(f, data);
      c.firstChar == data[0] && (IsHighSurrogate(c.value) || IsLowSurrogate(c.value) ==> data[0] >= 0x80)
  {
    var ch, c := data[0], Parse(f, data);
    assert data[..1] == [ch];
    if c.size > 1 || ch < 0x80 {
      var lead := LeadOf(ch).value;
      assert Continue(lead.rune, data[1..], lead.extra) == Some(c.value);
      if ch >= 0x80 {
        EncodeOneOfParse(data, c.value);
        LeadIsMarked(ch);
      }
    }
  }

  lemma EatIsInvertible(f: Flags, data: seq<byte>)
    requires Transparent(f) && data != []
    ensures var e := Eat(f, data); Encode(f, e.rune) == data[..e.size]
  {
    ParseIsInvertible(f, data);
    if Eat(f, data).rune != Parse(f, data).value {
      EscapeEncodes(f, data[0]);
      assert data[..1] == [data[0]];
    }
  }

  lemma EscapeEncodes(f: Flags, ch: byte)
    requires f.errorEscapes && ch >= 0x80
    ensures Encode(f, MakeErrorCharacter(ch)) == [ch]
  {
  }

  lemma EncodeAllCons(f: Flags, r: Unichar, s: seq<Unichar>)
    ensures EncodeAll(f, [r] + s) == Encode(f, r) + EncodeAll(f, s)
  {
    assert ([r] + s)[1..] == s;
  }

  /** Byte transparency: decoding any bytes, valid or not, and encoding the runes again
      gives the same bytes. */
  lemma {:induction false} DecodeThenEncode(f: Flags, data: seq<byte>)
    requires Transparent(f)
    ensures EncodeAll(f, DecodeAll(f, data)) == data
    decreases |data|
  {
    if data != [] {
      var e := Eat(f, data);
      var rest := data[e.size..];
      EatIsInvertible(f, data);
      DecodeThenEncode(f, rest);
      EncodeAllCons(f, e.rune, DecodeAll(f, rest));
      DecodeFirst(f, data, e, rest);
    }
  }

  lemma DecodeFirst(f: Flags, data: seq<byte>, e: Eaten, rest: seq<byte>)
    requires data != [] && e == Eat(f, data) && rest == data[e.size..]
    ensures DecodeAll(f, data) == [e.rune] + DecodeAll(f, rest) && data == data[..e.size] + rest
  {
  }

  lemma DecodeSingle(f: Flags, data: seq<byte>)
    requires data != [] && Eat(f, data).size == |data|
    ensures DecodeAll(f, data) == [Eat(f, data).rune]
    ensures EncodeAll(f, DecodeAll(f, data)) == Encode(f, Eat(f, data).rune)
  {
    assert data[|data|..] == [];
    assert DecodeAll(f, data[|data|..]) == [];
    var r := Eat(f, data).rune;
    assert EncodeAll(f, [r][1..]) == [];
  }

  /** A byte string each other flag set gets wrong. */
  function Witness(f: Flags): seq<byte> {
    if !f.errorEscapes then [0x80]
    else if f.surrogates then [0xF0, 0x90, 0x80, 0x80]
    else if f.encodedZero then [0]
    else [0xC1, 0x81]
  }

  lemma WitnessFails(f: Flags)
    requires !Transparent(f)
    ensures EncodeAll(f, DecodeAll(f, Witness(f))) != Witness(f)
  {
    var w := Witness(f);
    if !f.errorEscapes {
      assert Eat(f, w) == Eaten(0xEF80, 1);
      DecodeSingle(f, w);
    } else if f.surrogates {
      assert w[1..] == [0x90, 0x80, 0x80] && w[1..][1..] == [0x80, 0x80] && w[1..][1..][1..] == [0x80];
      assert Continue(0, w[1..], 3) == Continue(0x10, w[1..][1..], 2) == Continue(0x400, w[1..][1..][1..], 1)
        == Some(0x10000);
      assert Eat(f, w) == Eaten(0x10000, 4);
      DecodeSingle(f, w);
      assert |Encode(f, 0x10000)| == 6;
    } else if f.encodedZero {
      assert Eat(f, w) == Eaten(0, 1);
      DecodeSingle(f, w);
    } else {
      assert w[1..] == [0x81];
      assert Continue(1, w[1..], 1) == Some(0x41);
      assert Eat(f, w) == Eaten(0x41, 2);
      DecodeSingle(f, w);
    }
  }

  /** Transparency holds for all byte strings exactly under the transparent flags. */
  lemma TransparentExactly(f: Flags)
    ensures Transparent(f) <==> forall data :: EncodeAll(f, DecodeAll(f, data)) == data
  {
    if Transparent(f) {
      forall data ensures EncodeAll(f, DecodeAll(f, data)) == data {
        DecodeThenEncode(f, data);
      }
    } else {
      WitnessFails(f);
    }
  }

  /** The range check of the decoder may as well ask for values above the largest code point:
      that code point is a non-character anyway. */
  lemma LargestIsNonCharacter(r: Unichar)
    ensures r >= UNICODE_MAX || r % 0x10000 >= 0xFFFE <==> r > UNICODE_MAX || r % 0x10000 >= 0xFFFE
  {
  }

  // Encode, then decode.

  predicate IsNonCharacter(r: Unichar) {
    r >= UNICODE_MAX || r % 0x10000 >= 0xFFFE
  }

  /** Runes that survive encoding and decoding in every context. */
  predicate Clean(f: Flags, r: Unichar) {
    && !(f.errorEscapes && IsErrorCharacter(r))
    && (IsHighSurrogate(r) ==> f.nonCharacters && !f.surrogates)
    && (IsLowSurrogate(r) ==> f.nonCharacters)
    && (IsNonCharacter(r) ==> f.nonCharacters || (f.surrogates && 0x10000 <= r <= UNICODE_MAX))
  }

  /** A clean rune is read back from its encoding, whatever follows. */
  lemma EatOfEncode(f: Flags, r: Unichar, rest: seq<byte>)
    requires Clean(f, r)
    ensures Eat(f, Encode(f, r) + rest) == Eaten(r, |Encode(f, r)|)
  {
    if 0x10000 <= r <= UNICODE_MAX && f.surrogates {
      EatOfPair(f, r, rest);
    } else if r >= 0x80 || (r == 0 && f.encodedZero) {
      ParseOfEncodeOne(f, r, rest);
      LeadOfEncodeOne(r);
    } else {
      var data := [r] + rest;
      assert Continue(r, data[1..], 0) == Some(r);
      assert Parse(f, data) == Character(r, r, 1);
    }
  }

  lemma EatOfPair(f: Flags, r: Unichar, rest: seq<byte>)
    requires f.surrogates && 0x10000 <= r <= UNICODE_MAX
    ensures Eat(f, Encode(f, r) + rest) == Eaten(r, 6) && |Encode(f, r)| == 6
  {
    var hi, lo := HIGH_SURROGATE_MIN + (r - 0x10000) / 1024 % 1024, LOW_SURROGATE_MIN + (r - 0x10000) % 1024;
    assert Encode(f, r) + rest == EncodeOne(hi) + (EncodeOne(lo) + rest);
    ParseSurrogate(f, hi, EncodeOne(lo) + rest);
    ParseSurrogate(f, lo, rest);
    assert (EncodeOne(hi) + (EncodeOne(lo) + rest))[3..] == EncodeOne(lo) + rest;
    PairValue(r);
  }

  lemma ParseSurrogate(f: Flags, r: Unichar, rest: seq<byte>)
    requires IsHighSurrogate(r) || IsLowSurrogate(r)
    ensures |EncodeOne(r)| == 3 && Parse(f, EncodeOne(r) + rest) == Character(r, EncodeOne(r)[0], 3)
  {
    ParseOfEncodeOne(f, r, rest);
  }

  lemma PairValue(r: Unichar)
    requires 0x10000 <= r <= UNICODE_MAX
    ensures var hi, lo := HIGH_SURROGATE_MIN + (r - 0x10000) / 1024 % 1024, LOW_SURROGATE_MIN + (r - 0x10000) % 1024;
      0x10000 + hi % 1024 * 1024 + lo % 1024 == r
  {
  }

  lemma DecodeAllCons(f: Flags, a: seq<byte>, rest: seq<byte>)
    requires a != [] && Eat(f, a + rest).size == |a|
    ensures DecodeAll(f, a + rest) == [Eat(f, a + rest).rune] + DecodeAll(f, rest)
  {
    assert (a + rest)[|a|..] == rest;
  }

  /** Encoding any clean runes and decoding the bytes gives the same runes. */
  lemma {:induction false} EncodeThenDecode(f: Flags, s: seq<Unichar>)
    requires forall r :: r in s ==> Clean(f, r)
    ensures DecodeAll(f, EncodeAll(f, s)) == s
  {
    if s != [] {
      var rest := EncodeAll(f, s[1..]);
      EatOfEncode(f, s[0], rest);
      EncodeThenDecode(f, s[1..]);
      DecodeAllCons(f, Encode(f, s[0]), rest);
      assert s == [s[0]] + s[1..];
    }
  }

  /** A single rune survives exactly when it is clean, or an error character that is
      escaped. */
  lemma SingleRuneExactly(f: Flags, r: Unichar)
    ensures DecodeAll(f, Encode(f, r)) == [r] <==> Clean(f, r) || (f.errorEscapes && IsErrorCharacter(r))
  {
    var data := Encode(f, r);
    if Clean(f, r) {
      EatOfEncode(f, r, []);
      assert data + [] == data;
      DecodeSingle(f, data);
    } else if f.errorEscapes && IsErrorCharacter(r) {
      EscapedRune(f, r);
    } else {
      assert data == EncodeOne(r);
      ParseOfEncodeOne(f, r, []);
      LeadOfEncodeOne(r);
      assert data + [] == data;
      assert data[Parse(f, data).size..] == [] || Parse(f, data).size == 1;
      assert DecodeAll(f, data)[0] == Eat(f, data).rune;
    }
  }

  /** A rune that is neither clean nor escaped does not come back first, whatever follows. */
  lemma UncleanIsLost(f: Flags, r: Unichar, rest: seq<byte>)
    requires !Clean(f, r) && !(f.errorEscapes && IsErrorCharacter(r))
    ensures Encode(f, r) != [] && Eat(f, Encode(f, r) + rest).rune != r
  {
    assert Encode(f, r) == EncodeOne(r);
    ParseOfEncodeOne(f, r, rest);
    LeadOfEncodeOne(r);
    IsPlain(r);
  }

  lemma IsPlain(r: Unichar)
    ensures IsHighSurrogate(r) || IsLowSurrogate(r) || IsNonCharacter(r) ==> !IsErrorCharacter(r) && r >= 0x80
    ensures forall b: byte :: b >= 0x80 ==> IsErrorCharacter(MakeErrorCharacter(b))
  {
  }

  predicate Escaped(f: Flags, r: Unichar) {
    f.errorEscapes && IsErrorCharacter(r)
  }

  /** The byte b, followed by rest, starts a rune of several bytes that the decoder accepts: b is
      a lead byte, enough continuation bytes follow, the value is not rejected, and a surrogate is
      one the flags allow, with its other half where that is required. */
  predicate StartsRune(f: Flags, b: byte, rest: seq<byte>) {
    && b >= 0x80 && LeadOf(b).Some?
    && var lead := LeadOf(b).value;
       var v := Continue(lead.rune, rest, lead.extra);
       && v.Some? && !Rejected(f, v.value, lead)
       && (IsHighSurrogate(v.value) ==> if f.surrogates then LowFollows(f, rest, lead.extra) else f.nonCharacters)
       && (IsLowSurrogate(v.value) ==> f.nonCharacters)
  }

  /** A low surrogate follows after k bytes. */
  predicate LowFollows(f: Flags, rest: seq<byte>, k: nat) {
    k <= |rest| && IsLowSurrogate(Parse(f, rest[k..]).value)
  }

  /** Every rune is clean, or an escaped error character whose byte does not start a longer
      rune together with the bytes after it. */
  predicate Intact(f: Flags, s: seq<Unichar>) {
    s == [] ||
    (&& (Clean(f, s[0]) || (Escaped(f, s[0]) && !StartsRune(f, ErrorCharacterId(s[0]), EncodeAll(f, s[1..]))))
     && Intact(f, s[1..]))
  }

  /** A byte that starts no accepted rune is read alone, and only such a byte is. */
  lemma ReadAlone(f: Flags, b: byte, rest: seq<byte>)
    requires b >= 0x80
    ensures Eat(f, [b] + rest).size == 1 <==> !StartsRune(f, b, rest)
  {
    var data := [b] + rest;
    assert data[0] == b && data[1..] == rest;
    var c := Parse(f, data);
    if LeadOf(b).Some? {
      var lead := LeadOf(b).value;
      LeadIsMarked(b);
      var v := Continue(lead.rune, rest, lead.extra);
      if v.Some? && !Rejected(f, v.value, lead) {
        ContinueTakes(lead.rune, rest, lead.extra);
        assert c == Character(v.value, b, 1 + lead.extra);
        assert data[1 + lead.extra..] == rest[lead.extra..];
      }
    }
  }

  /** An escaped byte reads as its error character exactly when it is read alone. */
  lemma EscapedAlone(f: Flags, r: Unichar, rest: seq<byte>)
    requires Escaped(f, r)
    ensures |Encode(f, r)| == 1
    ensures var e := Eat(f, Encode(f, r) + rest);
      (e.rune == r ==> e.size == 1) && (e.rune == r <==> !StartsRune(f, ErrorCharacterId(r), rest))
  {
    var b := ErrorCharacterId(r);
    assert b == r - 0xEF00;
    var data := [b] + rest;
    assert data[0] == b && MakeErrorCharacter(b) == r;
    LongIsNoError(f, data);
    ReadAlone(f, b, rest);
  }

  lemma LongIsNoError(f: Flags, data: seq<byte>)
    requires f.errorEscapes && data != [] && data[0] >= 0x80
    ensures var e := Eat(f, data);
      if e.size == 1 then e.rune == MakeErrorCharacter(data[0]) else !IsErrorCharacter(e.rune)
  {
    var c := Parse(f, data);
    assert c.firstChar == data[0];
    assert if c.size == 1 then c.value == MakeErrorCharacter(data[0]) else !IsErrorCharacter(c.value);
  }

  /** For every flag set and every sequence of runes: encoding and decoding gives the sequence
      back exactly when it is intact. */
  lemma {:induction false} SequenceExactly(f: Flags, s: seq<Unichar>)
    ensures DecodeAll(f, EncodeAll(f, s)) == s <==> Intact(f, s)
  {
    if s != [] {
      var r, tail := s[0], s[1..];
      var rest := EncodeAll(f, tail);
      var head := Encode(f, r);
      assert s == [r] + tail;
      if Clean(f, r) {
        EatOfEncode(f, r, rest);
      } else if Escaped(f, r) {
        EscapedAlone(f, r, rest);
      } else {
        UncleanIsLost(f, r, rest);
      }
      FirstDecides(f, head, rest, r, tail);
      SequenceExactly(f, tail);
    }
  }

  lemma FirstDecides(f: Flags, head: seq<byte>, rest: seq<byte>, r: Unichar, tail: seq<Unichar>)
    requires head != [] && (Eat(f, head + rest).rune == r ==> Eat(f, head + rest).size == |head|)
    ensures DecodeAll(f, head + rest) == [r] + tail <==> Eat(f, head + rest).rune == r && DecodeAll(f, rest) == tail
  {
    var e := Eat(f, head + rest);
    if e.rune == r {
      DecodeAllCons(f, head, rest);
      assert ([r] + tail)[1..] == tail && ([r] + DecodeAll(f, rest))[1..] == DecodeAll(f, rest);
    } else {
      assert DecodeAll(f, head + rest)[0] == e.rune;
    }
  }

  /** Without escaped error characters that means: exactly when all runes are clean. */
  lemma {:induction false} UnescapedExactly(f: Flags, s: seq<Unichar>)
    requires forall r :: r in s ==> !Escaped(f, r)
    ensures Intact(f, s) <==> forall r :: r in s ==> Clean(f, r)
  {
    if s != [] {
      assert s[0] in s && s == [s[0]] + s[1..];
      UnescapedExactly(f, s[1..]);
    }
  }

  lemma EscapedRune(f: Flags, r: Unichar)
    requires f.errorEscapes && IsErrorCharacter(r)
    ensures DecodeAll(f, Encode(f, r)) == [r]
  {
    var b := ErrorCharacterId(r);
    assert b == r - 0xEF00;
    var data := [b];
    assert data[1..] == [];
    assert Parse(f, data) == Character(r, b, 1);
    DecodeSingle(f, data);
  }

  /** Escaped error characters may not stand side by side: two of them can spell a rune. */
  lemma EscapedRunesCanMerge(f: Flags)
    requires f.errorEscapes
    ensures EncodeAll(f, [0xEFC3, 0xEFA9]) == [0xC3, 0xA9]
    ensures DecodeAll(f, [0xC3, 0xA9]) == [0xE9]
  {
    var s: seq<Unichar> := [0xEFC3, 0xEFA9];
    assert s[1..] == [0xEFA9];
    assert s[1..][1..] == [];
    assert EncodeAll(f, s[1..]) == [0xA9];
    var data: seq<byte> := [0xC3, 0xA9];
    assert data[1..] == [0xA9];
    assert Continue(3, data[1..], 1) == Some(0xE9);
    DecodeSingle(f, data);
  }
}
