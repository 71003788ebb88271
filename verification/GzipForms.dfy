/** The header of a gzip stream as a writer makes it, section 2.3 of RFC 1952, and the proof that
    the reader accepts exactly such headers. */
module GzipForms {
  import opened Wrappers
  import opened Bytes
  import opened GzipHeader

  /** The contents of a header.  Info is modification time, extra flags and operating system. */
  datatype Fields = Fields(
    text: bool, info: seq<byte>, extra: Option<seq<byte>>, name: Option<seq<byte>>, comment: Option<seq<byte>>,
    crc: Option<seq<byte>>)

  ghost predicate IsText(t: Option<seq<byte>>) {
    t.Some? ==> 0 !in t.value
  }

  ghost predicate Writable(h: Fields) {
    && |h.info| == 6 && (h.extra.Some? ==> |h.extra.value| < 0x1_0000) && (h.crc.Some? ==> |h.crc.value| == 2)
    && IsText(h.name) && IsText(h.comment)
  }

  function If(b: bool, n: nat): nat {
    if b then n else 0
  }

  /** The flag byte. */
  function FlagsOf(h: Fields): byte {
    If(h.text, 1) + If(h.crc.Some?, 2) + If(h.extra.Some?, 4) + If(h.name.Some?, 8) + If(h.comment.Some?, 16)
  }

  lemma FlagsMean(h: Fields)
    ensures Has(FlagsOf(h), EXTRA_DATA) == h.extra.Some? && Has(FlagsOf(h), FILE_NAME) == h.name.Some?
    ensures Has(FlagsOf(h), COMMENT) == h.comment.Some? && Has(FlagsOf(h), HEADER_CRC) == h.crc.Some?
    ensures FlagsOf(h) < 32
  {
  }

  /** Extra data with its length in front, low byte first. */
  function ExtraBytes(e: Option<seq<byte>>): seq<byte>
    requires e.Some? ==> |e.value| < 0x1_0000
  {
    if e.None? then [] else [|e.value| % 256, |e.value| / 256] + e.value
  }

  /** A text with a zero byte at the end. */
  function TextBytes(t: Option<seq<byte>>): seq<byte> {
    if t.None? then [] else t.value + [0]
  }

  function CrcBytes(c: Option<seq<byte>>): seq<byte> {
    if c.None? then [] else c.value
  }

  function OptionalBytes(h: Fields): seq<byte>
    requires h.extra.Some? ==> |h.extra.value| < 0x1_0000
  {
    ExtraBytes(h.extra) + TextsAndCrc(h)
  }

  function TextsAndCrc(h: Fields): seq<byte> {
    TextBytes(h.name) + (TextBytes(h.comment) + CrcBytes(h.crc))
  }

  function FixedBytes(h: Fields): seq<byte> {
    [0x1F, 0x8B, 8, FlagsOf(h)] + h.info
  }

  function Written(h: Fields): seq<byte>
    requires h.extra.Some? ==> |h.extra.value| < 0x1_0000
  {
    FixedBytes(h) + OptionalBytes(h)
  }

  /** What stands behind a part at the front of the input. */
  lemma Behind(a: seq<byte>, b: seq<byte>, s: seq<byte>)
    requires a + b <= s
    ensures a <= s && b <= From(s, |a|)
  {
    assert s[..|a + b|] == a + b;
    assert s[|a|..][..|b|] == (a + b)[|a|..];
  }

  lemma {:induction false} TextIs(t: seq<byte>, s: seq<byte>)
    requires 0 !in t && t + [0] <= s
    ensures TextSize(true, s) == Some(|t| + 1)
  {
    assert s[..|t| + 1] == t + [0];
    if t != [] {
      assert s[1..][..|t|] == t[1..] + [0];
      TextIs(t[1..], s[1..]);
    }
  }

  lemma OptionalTextIs(t: Option<seq<byte>>, s: seq<byte>)
    requires IsText(t) && TextBytes(t) <= s
    ensures TextSize(t.Some?, s) == Some(|TextBytes(t)|)
  {
    if t.Some? { TextIs(t.value, s); }
  }

  lemma ExtraIs(h: Fields, s: seq<byte>)
    requires Writable(h) && ExtraBytes(h.extra) <= s
    ensures ExtraSize(FlagsOf(h), s) == Some(|ExtraBytes(h.extra)|)
  {
    FlagsMean(h);
    if h.extra.Some? { WordIs(|h.extra.value|); }
  }

  lemma WordIs(n: nat)
    requires n < 0x1_0000
    ensures Word(n % 256, n / 256) == n
  {
  }

  lemma TextsAre(h: Fields, s: seq<byte>)
    requires Writable(h) && TextsAndCrc(h) <= s
    ensures SizeFromName(FlagsOf(h), s) == Some(|TextsAndCrc(h)|)
  {
    FlagsMean(h);
    Behind(TextBytes(h.name), TextBytes(h.comment) + CrcBytes(h.crc), s);
    OptionalTextIs(h.name, s);
    var s1 := From(s, |TextBytes(h.name)|);
    Behind(TextBytes(h.comment), CrcBytes(h.crc), s1);
    OptionalTextIs(h.comment, s1);
  }

  lemma OptionalIs(h: Fields, s: seq<byte>)
    requires Writable(h) && OptionalBytes(h) <= s
    ensures SizeFromExtra(FlagsOf(h), s) == Some(|OptionalBytes(h)|)
  {
    Behind(ExtraBytes(h.extra), TextsAndCrc(h), s);
    ExtraIs(h, s);
    TextsAre(h, From(s, |ExtraBytes(h.extra)|));
    BehindExtra(FlagsOf(h), s, |ExtraBytes(h.extra)|);
  }

  lemma BehindExtra(flags: byte, s: seq<byte>, n: nat)
    requires ExtraSize(flags, s) == Some(n)
    ensures SizeFromExtra(flags, s) == Plus(n, SizeFromName(flags, From(s, n)))
  {
  }

  /** Every header that is written is accepted, and ends where it was written to end, whatever
      follows. */
  lemma WrittenIsRead(h: Fields, s: seq<byte>)
    requires Writable(h) && Written(h) <= s
    ensures Header(s) == Complete(|Written(h)|)
  {
    FlagsMean(h);
    Behind(FixedBytes(h), OptionalBytes(h), s);
    assert s[..10] == FixedBytes(h);
    OptionalIs(h, s[10..]);
  }

  // Conversely, every accepted header was written so.

  lemma {:induction false} ReadText(s: seq<byte>)
    requires TextSize(true, s).Some?
    ensures var n := TextSize(true, s).value; 1 <= n <= |s| && 0 !in s[..n - 1] && s[..n] == s[..n - 1] + [0]
  {
    if s[0] != 0 {
      ReadText(s[1..]);
      var n := TextSize(true, s).value;
      assert s[..n - 1] == [s[0]] + s[1..][..n - 2];
      assert s[1..][..n - 1][n - 2] == 0;
    }
  }

  /** The text at the front of the input. */
  function TextAt(present: bool, s: seq<byte>): Option<seq<byte>> {
    var n := TextSize(present, s);
    if present && n.Some? && 1 <= n.value <= |s| then Some(s[..n.value - 1]) else None
  }

  lemma ReadOptionalText(present: bool, s: seq<byte>)
    requires TextSize(present, s).Some?
    ensures var n, t := TextSize(present, s).value, TextAt(present, s);
      t.Some? == present && IsText(t) && n <= |s| && TextBytes(t) == s[..n]
  {
    if present { ReadText(s); }
  }

  function CrcAt(flags: byte, s: seq<byte>): Option<seq<byte>> {
    if Has(flags, HEADER_CRC) && |s| >= 2 then Some(s[..2]) else None
  }

  /** The part of the input behind the text at its front. */
  function BehindText(present: bool, s: seq<byte>): seq<byte> {
    var n := TextSize(present, s);
    if n.Some? then From(s, n.value) else []
  }

  lemma ReadComment(flags: byte, s: seq<byte>)
    requires SizeFromComment(flags, s).Some?
    ensures var n := SizeFromComment(flags, s).value;
      var comment, crc := TextAt(Has(flags, COMMENT), s), CrcAt(flags, BehindText(Has(flags, COMMENT), s));
      && comment.Some? == Has(flags, COMMENT) && crc.Some? == Has(flags, HEADER_CRC)
      && IsText(comment) && n <= |s| && s[..n] == TextBytes(comment) + CrcBytes(crc)
  {
    ReadOptionalText(Has(flags, COMMENT), s);
    var n := TextSize(Has(flags, COMMENT), s).value;
    Parts(s, n, CrcSize(flags, From(s, n)).value);
  }

  lemma ReadName(flags: byte, s: seq<byte>)
    requires SizeFromName(flags, s).Some?
    ensures var n, s1 := SizeFromName(flags, s).value, BehindText(Has(flags, FILE_NAME), s);
      var name, comment := TextAt(Has(flags, FILE_NAME), s), TextAt(Has(flags, COMMENT), s1);
      var crc := CrcAt(flags, BehindText(Has(flags, COMMENT), s1));
      && name.Some? == Has(flags, FILE_NAME) && comment.Some? == Has(flags, COMMENT)
      && crc.Some? == Has(flags, HEADER_CRC) && IsText(name) && IsText(comment)
      && n <= |s| && s[..n] == TextBytes(name) + (TextBytes(comment) + CrcBytes(crc))
  {
    ReadOptionalText(Has(flags, FILE_NAME), s);
    var n := TextSize(Has(flags, FILE_NAME), s).value;
    ReadComment(flags, From(s, n));
    Parts(s, n, SizeFromComment(flags, From(s, n)).value);
  }

  function ExtraAt(flags: byte, s: seq<byte>): Option<seq<byte>> {
    var n := ExtraSize(flags, s);
    if Has(flags, EXTRA_DATA) && n.Some? && 2 <= n.value <= |s| then Some(s[2..n.value]) else None
  }

  lemma ReadExtra(flags: byte, s: seq<byte>)
    requires ExtraSize(flags, s).Some?
    ensures var n, e := ExtraSize(flags, s).value, ExtraAt(flags, s);
      e.Some? == Has(flags, EXTRA_DATA) && (e.Some? ==> |e.value| < 0x1_0000) && n <= |s| && ExtraBytes(e) == s[..n]
  {
    if Has(flags, EXTRA_DATA) {
      var n := Word(s[0], s[1]);
      WordParts(s[0], s[1]);
      assert s[..n + 2] == [s[0], s[1]] + s[2..n + 2];
    }
  }

  lemma WordParts(lo: byte, hi: byte)
    ensures Word(lo, hi) % 256 == lo && Word(lo, hi) / 256 == hi
  {
  }

  lemma Parts(s: seq<byte>, n: nat, m: nat)
    requires n <= |s| && m <= |From(s, n)|
    ensures s[..n + m] == s[..n] + From(s, n)[..m]
  {
  }

  lemma FlagBits(flags: byte)
    requires flags < 32
    ensures flags == If(Has(flags, 1), 1) + If(Has(flags, 2), 2) + If(Has(flags, 4), 4) + If(Has(flags, 8), 8)
                     + If(Has(flags, 16), 16)
  {
  }

  /** The fields of a header. */
  function FieldsOf(s: seq<byte>): Fields
    requires |s| >= 10
  {
    var flags, rest := s[3], s[10..];
    var n := ExtraSize(flags, rest);
    var s1 := if n.Some? then From(rest, n.value) else [];
    var s2 := BehindText(Has(flags, FILE_NAME), s1);
    Fields(Has(flags, 1), s[4..10], ExtraAt(flags, rest), TextAt(Has(flags, FILE_NAME), s1),
           TextAt(Has(flags, COMMENT), s2), CrcAt(flags, BehindText(Has(flags, COMMENT), s2)))
  }

  lemma ReadOptional(s: seq<byte>, n: nat)
    requires Header(s) == Complete(n)
    ensures Writable(FieldsOf(s)) && 10 <= n <= |s| && OptionalBytes(FieldsOf(s)) == s[10..][..n - 10]
  {
    var flags, rest := s[3], s[10..];
    var k := ExtraSize(flags, rest).value;
    ReadExtra(flags, rest);
    ReadName(flags, From(rest, k));
    Parts(rest, k, SizeFromName(flags, From(rest, k)).value);
  }

  lemma ReadFixed(s: seq<byte>, n: nat)
    requires Header(s) == Complete(n)
    ensures FixedBytes(FieldsOf(s)) == [s[0], s[1], s[2], s[3]] + s[4..10]
  {
    var flags, rest := s[3], s[10..];
    ReadExtra(flags, rest);
    ReadName(flags, From(rest, ExtraSize(flags, rest).value));
    FlagBits(flags);
  }

  /** Whatever is accepted as a header of some size was written from its fields. */
  lemma ReadIsWritten(s: seq<byte>, n: nat)
    requires Header(s) == Complete(n)
    ensures Writable(FieldsOf(s)) && n <= |s| && s[..n] == Written(FieldsOf(s)) && |Written(FieldsOf(s))| == n
  {
    ReadOptional(s, n);
    ReadFixed(s, n);
    FrontAndRest(s, n, FixedBytes(FieldsOf(s)));
  }

  lemma FrontAndRest(s: seq<byte>, n: nat, fixed: seq<byte>)
    requires 10 <= n <= |s| && fixed == [s[0], s[1], s[2], s[3]] + s[4..10]
    ensures s[..n] == fixed + s[10..][..n - 10]
  {
  }

  /** A header is accepted exactly when it is one that is written, at the front of the input. */
  lemma AcceptedExactly(s: seq<byte>, n: nat)
    ensures Header(s) == Complete(n) <==> exists h :: Writable(h) && Written(h) <= s && |Written(h)| == n
  {
    if Header(s) == Complete(n) { ReadIsWritten(s, n); }
    forall h | Writable(h) && Written(h) <= s && |Written(h)| == n
      ensures Header(s) == Complete(n)
    {
      WrittenIsRead(h, s);
    }
  }

  /** It is rejected exactly when ten bytes are there and the first four are not those of a header
      with known flags. */
  lemma RejectedExactly(s: seq<byte>)
    ensures Header(s) == Invalid <==> |s| >= 10 && (s[..3] != [0x1F, 0x8B, 8] || s[3] / 32 != 0)
  {
  }
}
