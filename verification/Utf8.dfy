/** The UTF-8 codec: Utf8::append on the encoding side, Utf8Reader on the decoding side.

    Shifts and masks of the code are written as divisions and remainders by powers of
    two. */
module Utf8Codec {
  import opened Wrappers
  import opened Bytes

  type Unichar = n: int | 0 <= n < 0x1_0000_0000

  /** The conversion flags. */
  datatype Flags = Flags(
    encodedZero: bool, surrogates: bool, nonMinimal: bool, nonCharacters: bool, errorEscapes: bool)

  const UNICODE_MAX := 0x10FFFF
  const HIGH_SURROGATE_MIN := 0xD800
  const LOW_SURROGATE_MIN := 0xDC00

  predicate IsHighSurrogate(r: Unichar) { 0xD800 <= r <= 0xDBFF }

  predicate IsLowSurrogate(r: Unichar) { 0xDC00 <= r <= 0xDFFF }

  function MakeErrorCharacter(id: byte): Unichar { 0xEF80 + id - 0x80 }

  predicate IsErrorCharacter(r: Unichar) { 0xEF80 <= r <= 0xEFFF }

  function ErrorCharacterId(r: Unichar): byte { (r - 0xEF80 + 0x80) % 256 }

  /** ch >> (6*k) */
  function Shift(ch: Unichar, k: nat): (r: Unichar)
    ensures r <= ch
    decreases k
  {
    if k == 0 then ch else Shift(ch, k - 1) / 64
  }

  lemma ShiftValues(ch: Unichar)
    ensures Shift(ch, 1) == ch / 0x40 && Shift(ch, 2) == ch / 0x1000 && Shift(ch, 3) == ch / 0x4_0000
    ensures Shift(ch, 4) == ch / 0x100_0000 && Shift(ch, 5) == ch / 0x4000_0000 && Shift(ch, 6) == 0
  {
    assert Shift(ch, 2) == Shift(ch, 1) / 64;
    assert Shift(ch, 3) == Shift(ch, 2) / 64;
    assert Shift(ch, 4) == Shift(ch, 3) / 64;
    assert Shift(ch, 5) == Shift(ch, 4) / 64;
    assert Shift(ch, 6) == Shift(ch, 5) / 64;
  }

  // Encoding.

  /** The continuation bytes for the low 6*k bits. */
  function Tail(ch: Unichar, k: nat): (t: seq<byte>)
    ensures |t| == k
  {
    if k == 0 then [] else [0x80 + Shift(ch, k - 1) % 64] + Tail(ch, k - 1)
  }

  /** Number of continuation bytes. */
  function Extra(ch: Unichar): nat {
    if ch <= 0x7FF then 1 else if ch <= 0xFFFF then 2 else if ch <= 0x1F_FFFF then 3
    else if ch <= 0x3FF_FFFF then 4 else if ch <= 0x7FFF_FFFF then 5 else 6
  }

  /** The marker bits of the first byte of a rune with k continuation bytes. */
  function Marker(k: nat): byte {
    if k == 1 then 0xC0 else if k == 2 then 0xE0 else if k == 3 then 0xF0
    else if k == 4 then 0xF8 else if k == 5 then 0xFC else 0xFE
  }

  function EncodeOne(ch: Unichar): (r: seq<byte>)
    ensures |r| == 1 + Extra(ch)
  {
    ShiftValues(ch);
    [Marker(Extra(ch)) + Shift(ch, Extra(ch))] + Tail(ch, Extra(ch))
  }

  function Encode(f: Flags, ch: Unichar): seq<byte> {
    if f.errorEscapes && IsErrorCharacter(ch) then [ErrorCharacterId(ch)]
    else if 0x10000 <= ch <= UNICODE_MAX && f.surrogates then
      EncodeOne(HIGH_SURROGATE_MIN + (ch - 0x10000) / 1024 % 1024)
      + EncodeOne(LOW_SURROGATE_MIN + (ch - 0x10000) % 1024)
    else if ch == 0 && f.encodedZero then EncodeOne(0)
    else if ch >= 0x80 then EncodeOne(ch)
    else [ch]
  }

  function EncodeAll(f: Flags, s: seq<Unichar>): seq<byte> {
    if s == [] then [] else Encode(f, s[0]) + EncodeAll(f, s[1..])
  }

  /** The anonymous appendOne: bytes are appended one by one, high bits first. */
  method AppendOne(s: seq<byte>, ch: Unichar) returns (out: seq<byte>)
    ensures out == s + EncodeOne(ch)
  {
    var extraBytes;
    ShiftValues(ch);
    if ch <= 0x7FF {
      out := s + [0xC0 + ch / 0x40];
      extraBytes := 1;
    } else if ch <= 0xFFFF {
      out := s + [0xE0 + ch / 0x1000];
      extraBytes := 2;
    } else if ch <= 0x1F_FFFF {
      out := s + [0xF0 + ch / 0x4_0000];
      extraBytes := 3;
    } else if ch <= 0x3FF_FFFF {
      out := s + [0xF8 + ch / 0x100_0000];
      extraBytes := 4;
    } else if ch <= 0x7FFF_FFFF {
      out := s + [0xFC + ch / 0x4000_0000];
      extraBytes := 5;
    } else {
      out := s + [0xFE];
      extraBytes := 6;
    }
    assert out == s + [EncodeOne(ch)[0]];
    assert EncodeOne(ch) == [EncodeOne(ch)[0]] + Tail(ch, extraBytes);
    out := AppendTail(out, ch, extraBytes);
  }

  /** The loop of appendOne. */
  method AppendTail(s: seq<byte>, ch: Unichar, k: nat) returns (out: seq<byte>)
    ensures out == s + Tail(ch, k)
  {
    var extraBytes: nat := k;
    out := s;
    while extraBytes > 0
      invariant extraBytes <= k && out + Tail(ch, extraBytes) == s + Tail(ch, k)
    {
      extraBytes := extraBytes - 1;
      var b := 0x80 + Shift(ch, extraBytes) % 64;
      assert out + ([b] + Tail(ch, extraBytes)) == (out + [b]) + Tail(ch, extraBytes);
      out := out + [b];
    }
  }

  method Append(f: Flags, s: seq<byte>, ch: Unichar) returns (out: seq<byte>)
    ensures out == s + Encode(f, ch)
  {
    if f.errorEscapes && IsErrorCharacter(ch) {
      out := s + [ErrorCharacterId(ch)];
    } else if 0x10000 <= ch <= UNICODE_MAX && f.surrogates {
      var c := ch - 0x10000;
      var high := AppendOne(s, HIGH_SURROGATE_MIN + c / 1024 % 1024);
      out := AppendOne(high, LOW_SURROGATE_MIN + c % 1024);
      assert out == s + (EncodeOne(HIGH_SURROGATE_MIN + c / 1024 % 1024) + EncodeOne(LOW_SURROGATE_MIN + c % 1024));
    } else if ch == 0 && f.encodedZero {
      out := AppendOne(s, 0);
    } else if ch >= 0x80 {
      out := AppendOne(s, ch);
    } else {
      out := s + [ch];
    }
  }

  // Decoding.

  datatype Character = Character(value: Unichar, firstChar: byte, size: nat)

  datatype Lead = Lead(rune: Unichar, extra: nat, minVal: Unichar)

  /** What the first byte of a rune announces; nothing for a byte that cannot start one. */
  function LeadOf(ch: byte): (r: Option<Lead>)
    ensures r.Some? ==> r.value.extra <= 6
  {
    if ch < 0x80 then Some(Lead(ch, 0, 0))
    else if 0xC0 <= ch < 0xE0 then Some(Lead(ch - 0xC0, 1, 0x80))
    else if 0xE0 <= ch < 0xF0 then Some(Lead(ch - 0xE0, 2, 0x800))
    else if 0xF0 <= ch < 0xF8 then Some(Lead(ch - 0xF0, 3, 0x10000))
    else if 0xF8 <= ch < 0xFC then Some(Lead(ch - 0xF8, 4, 0x20_0000))
    else if 0xFC <= ch < 0xFE then Some(Lead(ch - 0xFC, 5, 0x400_0000))
    else if ch == 0xFE then Some(Lead(0, 6, 0x8000_0000))
    else None
  }

  predicate IsContinuation(b: byte) { 0x80 <= b < 0xC0 }

  /** Merges k continuation bytes into a rune; fails on a missing or wrong byte and on
      overflow of 32 bits. */
  function Continue(rune: Unichar, data: seq<byte>, k: nat): Option<Unichar>
    decreases k
  {
    if k == 0 then Some(rune)
    else if data != [] && IsContinuation(data[0]) && rune < 0x400_0000
      then Continue(rune * 64 + data[0] % 64, data[1..], k - 1)
    else None
  }

  /** Runes that are well-formed but not accepted. */
  predicate Rejected(f: Flags, rune: Unichar, lead: Lead) {
    || (IsErrorCharacter(rune) && f.errorEscapes)
    || (rune < lead.minVal && !f.nonMinimal && !(rune == 0 && f.encodedZero && lead.extra == 1))
    || ((rune >= UNICODE_MAX || rune % 0x10000 >= 0xFFFE) && !f.nonCharacters)
  }

  function Parse(f: Flags, data: seq<byte>): (r: Character)
    ensures r.size <= |data| && (data != [] ==> r.size > 0)
  {
    if data == [] then Character(0, 0, 0)
    else
      var ch := data[0];
      var error := Character(MakeErrorCharacter(ch), ch, 1);
      match LeadOf(ch)
      case None => error
      case Some(lead) =>
        match Continue(lead.rune, data[1..], lead.extra)
        case None => error
        case Some(rune) =>
          ContinueTakes(lead.rune, data[1..], lead.extra);
          if Rejected(f, rune, lead) then error else Character(rune, ch, 1 + lead.extra)
  }

  lemma {:induction false} ContinueTakes(rune: Unichar, data: seq<byte>, k: nat)
    requires Continue(rune, data, k).Some?
    ensures k <= |data|
    decreases k
  {
    if k > 0 { ContinueTakes(rune * 64 + data[0] % 64, data[1..], k - 1); }
  }

  datatype Eaten = Eaten(rune: Unichar, size: nat)

  /** One call of Utf8Reader::eat: the rune, and how many bytes it takes. */
  function Eat(f: Flags, data: seq<byte>): (r: Eaten)
    ensures r.size <= |data| && (data != [] ==> r.size > 0)
  {
    var first := Parse(f, data);
    var error := Eaten(MakeErrorCharacter(first.firstChar), 1);
    if data == [] then Eaten(0, 0)
    else if IsHighSurrogate(first.value) then
      if f.surrogates then
        var second := Parse(f, data[first.size..]);
        if IsLowSurrogate(second.value)
        then Eaten(0x10000 + first.value % 1024 * 1024 + second.value % 1024, first.size + second.size)
        else error
      else if f.nonCharacters then Eaten(first.value, first.size)
      else error
    else if IsLowSurrogate(first.value) then
      if f.nonCharacters then Eaten(first.value, first.size) else error
    else Eaten(first.value, first.size)
  }

  function DecodeAll(f: Flags, data: seq<byte>): (s: seq<Unichar>)
    decreases |data|
  {
    if data == [] then []
    else [Eat(f, data).rune] + DecodeAll(f, data[Eat(f, data).size..])
  }

  /** Sequential access to an UTF-8 string. */
  class Utf8Reader {
    var data: seq<byte>
    const flags: Flags

    constructor (data: seq<byte>, flags: Flags)
      ensures this.data == data && this.flags == flags
    {
      this.data, this.flags := data, flags;
    }

    /** Parses the first rune of a byte string. */
    method ParseRune(text: seq<byte>) returns (result: Character)
      ensures result == Parse(flags, text)
    {
      if text == [] {
        return Character(0, 0, 0);
      }
      var ch, rest := text[0], text[1..];
      var error := Character(MakeErrorCharacter(ch), ch, 1);
      var lead := LeadOf(ch);
      if lead == None {
        return error;
      }
      var rune: Unichar := lead.value.rune;
      var extra := lead.value.extra;
      var i := 0;
      while i < extra
        invariant i <= extra
        invariant Continue(rune, rest, extra - i) == Continue(lead.value.rune, text[1..], extra)
      {
        if rest != [] && IsContinuation(rest[0]) && rune < 0x400_0000 {
          rune := rune * 64 + rest[0] % 64;
          rest := rest[1..];
        } else {
          return error;
        }
        i := i + 1;
      }
      if Rejected(flags, rune, lead.value) {
        return error;
      }
      result := Character(rune, ch, 1 + extra);
    }

    /** Reads a rune; 0 when there is none. */
    method EatRune() returns (rune: Unichar)
      modifies this
      ensures rune == Eat(flags, old(data)).rune
      ensures data == old(data)[Eat(flags, old(data)).size..]
    {
      var first := ParseRune(data);
      if first.size == 0 {
        return 0;
      }
      if IsHighSurrogate(first.value) {
        if flags.surrogates {
          var second := ParseRune(data[first.size..]);
          if IsLowSurrogate(second.value) {
            data := data[first.size + second.size..];
            return 0x10000 + first.value % 1024 * 1024 + second.value % 1024;
          } else {
            data := data[1..];
            return MakeErrorCharacter(first.firstChar);
          }
        } else if flags.nonCharacters {
          data := data[first.size..];
          return first.value;
        } else {
          data := data[1..];
          return MakeErrorCharacter(first.firstChar);
        }
      } else if IsLowSurrogate(first.value) {
        if flags.nonCharacters {
          data := data[first.size..];
          return first.value;
        } else {
          data := data[1..];
          return MakeErrorCharacter(first.firstChar);
        }
      } else {
        data := data[first.size..];
        return first.value;
      }
    }
  }

  /** Utf8Reader::count works on a copy of the reader. */
  method Count(data: seq<byte>, f: Flags) returns (n: nat)
    ensures n == |DecodeAll(f, data)|
  {
    var me := new Utf8Reader(data, f);
    n := 0;
    while me.data != []
      invariant me.flags == f && n + |DecodeAll(f, me.data)| == |DecodeAll(f, data)|
      decreases |me.data|
    {
      var rune := me.EatRune();
      n := n + 1;
    }
  }
}
