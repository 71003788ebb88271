/** The header of a gzip stream, section 2.3 of RFC 1952: a grammar of the whole header, a
    machine that takes one byte at a time, and the incremental parser that takes its input in
    pieces of any size. */
module GzipHeader {
  import opened Wrappers
  import opened Bytes

  // The grammar.

  predicate Has(flags: byte, bit: int)
    requires bit > 0
  {
    (flags / bit) % 2 == 1
  }

  const HEADER_CRC := 2
  const EXTRA_DATA := 4
  const FILE_NAME := 8
  const COMMENT := 16

  predicate Acceptable(h: seq<byte>)
    requires |h| >= 10
  {
    h[0] == 0x1F && h[1] == 0x8B && h[2] == 8 && h[3] < 32
  }

  /** A 16-bit number, low byte first. */
  function Word(lo: byte, hi: byte): (r: nat)
    ensures r < 0x10000
  {
    (hi as int) * 256 + (lo as int)
  }

  /** Sizes of the optional fields at the front of s; None while they are incomplete. */
  function ExtraSize(flags: byte, s: seq<byte>): Option<nat> {
    if !Has(flags, EXTRA_DATA) then Some(0)
    else if |s| < 2 || |s| < 2 + Word(s[0], s[1]) then None
    else Some(2 + Word(s[0], s[1]))
  }

  function TextSize(present: bool, s: seq<byte>): Option<nat>
  {
    if !present then Some(0)
    else if s == [] then None
    else if s[0] == 0 then Some(1)
    else
      var n := TextSize(present, s[1..]);
      if n.None? then None else Some(n.value + 1)
  }

  function CrcSize(flags: byte, s: seq<byte>): Option<nat> {
    if !Has(flags, HEADER_CRC) then Some(0) else if |s| < 2 then None else Some(2)
  }

  function From(s: seq<byte>, n: nat): seq<byte> {
    if n <= |s| then s[n..] else []
  }

  function Plus(a: nat, b: Option<nat>): Option<nat> {
    if b.None? then None else Some(a + b.value)
  }

  function SizeFromComment(flags: byte, s: seq<byte>): Option<nat> {
    var n := TextSize(Has(flags, COMMENT), s);
    if n.None? then None else Plus(n.value, CrcSize(flags, From(s, n.value)))
  }

  function SizeFromName(flags: byte, s: seq<byte>): Option<nat> {
    var n := TextSize(Has(flags, FILE_NAME), s);
    if n.None? then None else Plus(n.value, SizeFromComment(flags, From(s, n.value)))
  }

  function SizeFromExtra(flags: byte, s: seq<byte>): Option<nat> {
    var n := ExtraSize(flags, s);
    if n.None? then None else Plus(n.value, SizeFromName(flags, From(s, n.value)))
  }

  datatype Verdict = Incomplete | Invalid | Complete(size: nat)

  function Header(s: seq<byte>): Verdict {
    if |s| < 10 then Incomplete
    else if !Acceptable(s) then Invalid
    else
      var n := SizeFromExtra(s[3], s[10..]);
      if n.None? then Incomplete else Complete(10 + n.value)
  }

  // The machine.

  datatype Phase =
    | Fixed(got: seq<byte>)
    | ExtraLength(flags: byte, got: seq<byte>)
    | Extra(flags: byte, left: nat)
    | Name(flags: byte)
    | Comment(flags: byte)
    | Crc(flags: byte, count: nat)
    | Done
    | Failed

  function Rank(p: Phase): nat {
    match p
    case Fixed(_) => 7
    case ExtraLength(_, _) => 6
    case Extra(_, _) => 5
    case Name(_) => 4
    case Comment(_) => 3
    case Crc(_, _) => 2
    case _ => 0
  }

  /** Goes on as far as possible without input. */
  function Settle(p: Phase): (q: Phase)
    ensures Rank(q) <= Rank(p)
    decreases Rank(p)
  {
    match p
    case Fixed(got) =>
      if |got| < 10 then p else if Acceptable(got) then Settle(ExtraLength(got[3], [])) else Failed
    case ExtraLength(flags, got) =>
      if !Has(flags, EXTRA_DATA) then Settle(Name(flags))
      else if |got| >= 2 then Settle(Extra(flags, Word(got[0], got[1])))
      else p
    case Extra(flags, left) => if left == 0 then Settle(Name(flags)) else p
    case Name(flags) => if Has(flags, FILE_NAME) then p else Settle(Comment(flags))
    case Comment(flags) => if Has(flags, COMMENT) then p else Settle(Crc(flags, 0))
    case Crc(flags, n) => if Has(flags, HEADER_CRC) && n < 2 then p else Done
    case _ => p
  }

  /** Takes one byte. */
  function Eat(p: Phase, b: byte): Phase {
    match p
    case Fixed(got) => Fixed(got + [b])
    case ExtraLength(flags, got) => ExtraLength(flags, got + [b])
    case Extra(flags, left) => Extra(flags, if left > 0 then left - 1 else 0)
    case Name(flags) => if b == 0 then Comment(flags) else p
    case Comment(flags) => if b == 0 then Crc(flags, 0) else p
    case Crc(flags, n) => Crc(flags, n + 1)
    case _ => p
  }

  /** Where the machine ends up, and what input it leaves. */
  function Outcome(p: Phase, s: seq<byte>): (Phase, seq<byte>)
    decreases |s|
  {
    var q := Settle(p);
    if s == [] || q.Done? || q.Failed? then (q, s) else Outcome(Eat(q, s[0]), s[1..])
  }

  lemma {:induction false} SettleTwice(p: Phase)
    ensures Settle(Settle(p)) == Settle(p)
    decreases Rank(p)
  {
    match p
    case Fixed(got) => if |got| >= 10 && Acceptable(got) { SettleTwice(ExtraLength(got[3], [])); }
    case ExtraLength(flags, got) =>
      if !Has(flags, EXTRA_DATA) { SettleTwice(Name(flags)); }
      else if |got| >= 2 { SettleTwice(Extra(flags, Word(got[0], got[1]))); }
    case Extra(flags, left) => if left == 0 { SettleTwice(Name(flags)); }
    case Name(flags) => if !Has(flags, FILE_NAME) { SettleTwice(Comment(flags)); }
    case Comment(flags) => if !Has(flags, COMMENT) { SettleTwice(Crc(flags, 0)); }
    case _ =>
  }

  /** Only the settled phase matters. */
  lemma SameSettled(p: Phase, q: Phase, s: seq<byte>)
    requires Settle(p) == Settle(q)
    ensures Outcome(p, s) == Outcome(q, s)
  {
  }

  /** Cutting the input anywhere makes no difference. */
  lemma {:induction false} OutcomeOfPieces(p: Phase, a: seq<byte>, b: seq<byte>)
    ensures Outcome(p, a + b) == (var o := Outcome(p, a); var n := Outcome(o.0, o.1 + b); n)
    decreases |a|
  {
    var q := Settle(p);
    SettleTwice(p);
    if a == [] {
      assert a + b == b && [] + b == b;
      SameSettled(p, q, b);
    } else if q.Done? || q.Failed? {
      SameSettled(p, q, a + b);
    } else {
      OutcomeOfPieces(Eat(q, a[0]), a[1..], b);
      assert (a + b)[1..] == a[1..] + b;
    }
  }

  // The machine accepts exactly the grammar.

  /** The machine needs more input, or is done after exactly so many bytes. */
  ghost predicate Ends(p: Phase, s: seq<byte>, size: Option<nat>) {
    if size.None? then Outcome(p, s).1 == [] && Rank(Outcome(p, s).0) > 0
    else size.value <= |s| && Outcome(p, s) == (Done, s[size.value..])
  }

  lemma CrcEnds(flags: byte, s: seq<byte>)
    ensures Ends(Crc(flags, 0), s, CrcSize(flags, s))
  {
    if Has(flags, HEADER_CRC) && s != [] {
      CrcHalf(flags, s[1..]);
      EndsOneMore(Crc(flags, 0), Crc(flags, 1), s, if |s| < 2 then None else Some(1));
    }
  }

  lemma CrcHalf(flags: byte, s: seq<byte>)
    requires Has(flags, HEADER_CRC)
    ensures Ends(Crc(flags, 1), s, if s == [] then None else Some(1))
  {
    if s != [] {
      assert Outcome(Crc(flags, 2), s[1..]) == (Done, s[1..]);
      EndsOneMore(Crc(flags, 1), Crc(flags, 2), s, Some(0));
    }
  }

  /** One byte eaten is one byte more. */
  lemma EndsOneMore(p: Phase, q: Phase, s: seq<byte>, size: Option<nat>)
    requires s != [] && Rank(Settle(p)) > 0 && q == Eat(Settle(p), s[0]) && Ends(q, s[1..], size)
    ensures Ends(p, s, Plus(1, size))
  {
    if size.Some? { assert s[1..][size.value..] == s[size.value + 1..]; }
  }

  lemma {:induction false} CommentEnds(flags: byte, s: seq<byte>)
    ensures Ends(Comment(flags), s, SizeFromComment(flags, s))
    decreases |s|
  {
    if !Has(flags, COMMENT) {
      SameSettled(Comment(flags), Crc(flags, 0), s);
      CrcEnds(flags, s);
      assert From(s, 0) == s;
    } else if s != [] {
      if s[0] == 0 {
        CrcEnds(flags, s[1..]);
        EndsOneMore(Comment(flags), Crc(flags, 0), s, CrcSize(flags, s[1..]));
      } else {
        CommentEnds(flags, s[1..]);
        EndsOneMore(Comment(flags), Comment(flags), s, SizeFromComment(flags, s[1..]));
        TextOneMore(s);
      }
    }
  }

  lemma TextOneMore(s: seq<byte>)
    requires s != [] && s[0] != 0
    ensures TextSize(true, s) == Plus(1, TextSize(true, s[1..]))
    ensures TextSize(true, s).Some? ==> From(s, TextSize(true, s).value) == From(s[1..], TextSize(true, s).value - 1)
  {
  }

  lemma {:induction false} NameEnds(flags: byte, s: seq<byte>)
    ensures Ends(Name(flags), s, SizeFromName(flags, s))
    decreases |s|
  {
    if !Has(flags, FILE_NAME) {
      SameSettled(Name(flags), Comment(flags), s);
      CommentEnds(flags, s);
      assert From(s, 0) == s;
    } else if s != [] {
      if s[0] == 0 {
        CommentEnds(flags, s[1..]);
        EndsOneMore(Name(flags), Comment(flags), s, SizeFromComment(flags, s[1..]));
      } else {
        NameEnds(flags, s[1..]);
        EndsOneMore(Name(flags), Name(flags), s, SizeFromName(flags, s[1..]));
        TextOneMore(s);
      }
    }
  }

  function SizeFromSkip(flags: byte, left: nat, s: seq<byte>): Option<nat> {
    if |s| < left then None else Plus(left, SizeFromName(flags, s[left..]))
  }

  lemma SkipOneMore(flags: byte, left: nat, s: seq<byte>)
    requires left > 0 && s != []
    ensures SizeFromSkip(flags, left, s) == Plus(1, SizeFromSkip(flags, left - 1, s[1..]))
  {
    if |s| >= left { assert s[1..][left - 1..] == s[left..]; }
  }

  lemma {:induction false} ExtraEnds(flags: byte, left: nat, s: seq<byte>)
    ensures Ends(Extra(flags, left), s, SizeFromSkip(flags, left, s))
    decreases left
  {
    if left == 0 {
      SameSettled(Extra(flags, 0), Name(flags), s);
      NameEnds(flags, s);
      assert s[0..] == s;
    } else if s != [] {
      ExtraEnds(flags, left - 1, s[1..]);
      SkipOneMore(flags, left, s);
      EndsOneMore(Extra(flags, left), Extra(flags, left - 1), s, SizeFromSkip(flags, left - 1, s[1..]));
    }
  }

  lemma LengthEnds(flags: byte, s: seq<byte>)
    ensures Ends(ExtraLength(flags, []), s, SizeFromExtra(flags, s))
  {
    if !Has(flags, EXTRA_DATA) {
      SameSettled(ExtraLength(flags, []), Name(flags), s);
      NameEnds(flags, s);
      assert From(s, 0) == s;
    } else if |s| >= 2 {
      LengthRead(flags, s, Word(s[0], s[1]));
    } else if |s| == 1 {
      assert [] + [s[0]] == [s[0]];
      assert Outcome(ExtraLength(flags, [s[0]]), s[1..]) == (ExtraLength(flags, [s[0]]), []);
    }
  }

  lemma LengthRead(flags: byte, s: seq<byte>, n: nat)
    requires Has(flags, EXTRA_DATA) && |s| >= 2 && n == Word(s[0], s[1])
    ensures Ends(ExtraLength(flags, []), s, SizeFromExtra(flags, s))
  {
    var none: seq<byte> := [];
    ExtraThenName(flags, s, n);
    var one, two := [s[0]], [s[0], s[1]];
    assert none + [s[0]] == one && one + [s[1]] == two;
    var s2 := s[2..];
    assert s[1..][1..] == s2;
    var size := SizeFromSkip(flags, n, s2);
    ExtraEnds(flags, n, s2);
    SameSettled(ExtraLength(flags, two), Extra(flags, n), s2);
    EndsOneMore(ExtraLength(flags, one), ExtraLength(flags, two), s[1..], size);
    EndsOneMore(ExtraLength(flags, none), ExtraLength(flags, one), s, Plus(1, size));
  }

  lemma ExtraThenName(flags: byte, s: seq<byte>, n: nat)
    requires Has(flags, EXTRA_DATA) && |s| >= 2 && n == Word(s[0], s[1])
    ensures SizeFromExtra(flags, s) == Plus(1, Plus(1, SizeFromSkip(flags, n, s[2..])))
  {
    if |s| >= n + 2 { assert s[2..][n..] == s[2 + n..]; }
  }

  lemma Resliced(got: seq<byte>, s: seq<byte>, k: nat)
    requires 0 < k <= |s|
    ensures s[1..][k - 1..] == s[k..] && got + [s[0]] + s[1..][..k - 1] == got + s[..k]
  {
  }

  lemma LengthOne(flags: byte, got: seq<byte>, s: seq<byte>)
    requires Has(flags, EXTRA_DATA) && |got| < 2 && s != []
    ensures Outcome(ExtraLength(flags, got), s) == Outcome(ExtraLength(flags, got + [s[0]]), s[1..])
  {
    assert Settle(ExtraLength(flags, got)) == ExtraLength(flags, got);
  }

  /** Taking several bytes at once. */
  lemma {:induction false} FixedMore(got: seq<byte>, s: seq<byte>, k: nat)
    requires |got| + k <= 10 && k <= |s|
    ensures Outcome(Fixed(got), s) == Outcome(Fixed(got + s[..k]), s[k..])
    decreases k
  {
    if k > 0 {
      FixedMore(got + [s[0]], s[1..], k - 1);
      Resliced(got, s, k);
    } else {
      assert got + s[..0] == got && s[0..] == s;
    }
  }

  lemma {:induction false} LengthMore(flags: byte, got: seq<byte>, s: seq<byte>, k: nat)
    requires Has(flags, EXTRA_DATA) && |got| + k <= 2 && k <= |s|
    ensures Outcome(ExtraLength(flags, got), s) == Outcome(ExtraLength(flags, got + s[..k]), s[k..])
    decreases k
  {
    if k > 0 {
      LengthOne(flags, got, s);
      LengthMore(flags, got + [s[0]], s[1..], k - 1);
      Resliced(got, s, k);
    } else {
      assert got + s[..0] == got && s[0..] == s;
    }
  }

  lemma {:induction false} ExtraMore(flags: byte, left: nat, s: seq<byte>, k: nat)
    requires k <= left && k <= |s|
    ensures Outcome(Extra(flags, left), s) == Outcome(Extra(flags, left - k), s[k..])
    decreases k
  {
    if k > 0 {
      ExtraMore(flags, left - 1, s[1..], k - 1);
      assert s[1..][k - 1..] == s[k..];
    } else {
      assert s[0..] == s;
    }
  }

  lemma {:induction false} CrcMore(flags: byte, n: nat, s: seq<byte>, k: nat)
    requires Has(flags, HEADER_CRC) && n + k <= 2 && k <= |s|
    ensures Outcome(Crc(flags, n), s) == Outcome(Crc(flags, n + k), s[k..])
    decreases k
  {
    if k > 0 {
      CrcMore(flags, n + 1, s[1..], k - 1);
      assert s[1..][k - 1..] == s[k..];
    } else {
      assert s[0..] == s;
    }
  }

  /** The machine ends exactly where the header ends, rejects exactly the bad headers, and
      otherwise has taken all input and wants more. */
  lemma MachineIsGrammar(s: seq<byte>)
    ensures var o := Outcome(Fixed([]), s);
      match Header(s)
      case Incomplete => o.1 == [] && Rank(o.0) > 0
      case Invalid => o == (Failed, s[10..])
      case Complete(n) => n <= |s| && o == (Done, s[n..])
  {
    if |s| < 10 {
      ShortHeader(s);
    } else if !Acceptable(s) {
      BadHeader(s);
    } else {
      GoodHeader(s, s[10..]);
    }
  }

  lemma ShortHeader(s: seq<byte>)
    requires |s| < 10
    ensures Outcome(Fixed([]), s).1 == [] && Rank(Outcome(Fixed([]), s).0) > 0
  {
    FixedMore([], s, |s|);
  }

  lemma BadHeader(s: seq<byte>)
    requires |s| >= 10 && !Acceptable(s)
    ensures Outcome(Fixed([]), s) == (Failed, s[10..])
  {
    FixedMore([], s, 10);
    assert [] + s[..10] == s[..10];
  }

  lemma GoodHeader(s: seq<byte>, t: seq<byte>)
    requires |s| >= 10 && Acceptable(s) && t == s[10..]
    ensures Ends(Fixed([]), s, Plus(10, SizeFromExtra(s[3], t)))
  {
    FixedMore([], s, 10);
    assert [] + s[..10] == s[..10];
    SameSettled(Fixed(s[..10]), ExtraLength(s[3], []), t);
    LengthEnds(s[3], t);
    var size := SizeFromExtra(s[3], t);
    if size.Some? { assert t[size.value..] == s[10 + size.value..]; }
  }

  // The incremental parser.

  datatype Stage =
    | CheckHeader
    | CheckExtraDataLength
    | CheckExtraData
    | CheckFileName
    | CheckComment
    | CheckHeaderCRC
    | FinishedHeader
    | Decompressing

  datatype Error = InvalidFileHeader

  class HeaderParser {
    var stage: Stage
    const buffer: array<byte>
    var size: nat
    var flags: byte
    var extraLength: nat

    ghost predicate Valid()
      reads this
    {
      && buffer.Length == 16
      && (stage == CheckHeader ==> size <= 10)
      && (stage == CheckExtraDataLength ==> size < 2)
      && (stage == CheckHeaderCRC ==> size < 2)
      && (stage !in {CheckHeader, CheckExtraDataLength, CheckHeaderCRC} ==> size == 0)
    }

    ghost function Abstract(): Phase
      reads this, buffer
      requires Valid()
    {
      match stage
      case CheckHeader => Fixed(buffer[..size])
      case CheckExtraDataLength => ExtraLength(flags, buffer[..size])
      case CheckExtraData => Extra(flags, extraLength)
      case CheckFileName => Name(flags)
      case CheckComment => Comment(flags)
      case CheckHeaderCRC => Crc(flags, size)
      case FinishedHeader => Done
      case Decompressing => Done
    }

    ghost function Height(): nat
      reads this
    {
      match stage
      case CheckHeader => 7
      case CheckExtraDataLength => 6
      case CheckExtraData => 5
      case CheckFileName => 4
      case CheckComment => 3
      case CheckHeaderCRC => 2
      case FinishedHeader => 1
      case Decompressing => 0
    }

    constructor ()
      ensures Valid() && fresh(buffer) && Abstract() == Fixed([]) && stage == CheckHeader
    {
      stage, size, flags, extraLength := CheckHeader, 0, 0, 0;
      buffer := new byte[16];
      new;
      assert buffer[..size] == [];
    }

    /** Moves input to the buffer until it holds n bytes. */
    method Fill(n: nat, input: seq<byte>) returns (rest: seq<byte>)
      requires size <= n <= buffer.Length
      modifies this`size, buffer
      ensures var k := Min(n - old(size), |input|);
        size == old(size) + k && rest == input[k..] && buffer[..size] == old(buffer[..size]) + input[..k]
    {
      rest := input;
      ghost var k := 0;
      while size < n && rest != []
        invariant 0 <= k <= |input| && size == old(size) + k <= n && rest == input[k..]
        invariant buffer[..size] == old(buffer[..size]) + input[..k]
      {
        buffer[size] := rest[0];
        size := size + 1;
        rest := rest[1..];
        k := k + 1;
        assert input[..k] == input[..k - 1] + [input[k - 1]];
      }
    }

    /** Skips input up to and including a zero byte. */
    method SkipText(input: seq<byte>, ghost p: Phase) returns (rest: seq<byte>, found: bool)
      requires (p.Name? || p.Comment?) && Settle(p) == p
      ensures |rest| <= |input| && (input != [] ==> |rest| < |input|) && (!found ==> rest == [])
      ensures Outcome(p, input) == Outcome(if found then Eat(p, 0) else p, rest)
    {
      rest, found := input, false;
      while rest != [] && !found
        invariant |rest| <= |input| && (found ==> |rest| < |input|)
        invariant Outcome(p, input) == Outcome(if found then Eat(p, 0) else p, rest)
      {
        found := rest[0] == 0;
        rest := rest[1..];
      }
    }

    /** Takes up to ten bytes and judges them when they are complete. */
    method ReadFixed(input: seq<byte>) returns (rest: seq<byte>, r: Result<(), Error>)
      requires Valid() && stage == CheckHeader && input != []
      modifies this, buffer
      ensures Valid() && Outcome(Abstract(), rest) == Outcome(old(Abstract()), input)
      ensures |rest| <= |input| && (r.Success? ==> |rest| < |input| || Height() < old(Height()))
      ensures r.Failure? <==> Settle(Abstract()) == Failed
    {
      ghost var got := buffer[..size];
      rest := Fill(10, input);
      FixedMore(got, input, size - |got|);
      r := Success(());
      if size >= 10 {
        r := Judge(rest);
      }
    }

    /** Accepts or rejects ten bytes. */
    method Judge(ghost rest: seq<byte>) returns (r: Result<(), Error>)
      requires Valid() && stage == CheckHeader && size == 10
      modifies this
      ensures Valid() && Outcome(Abstract(), rest) == Outcome(old(Abstract()), rest)
      ensures r.Success? ==> Height() < old(Height())
      ensures r.Failure? <==> Settle(Abstract()) == Failed
    {
      if buffer[0] != 0x1F || buffer[1] != 0x8B || buffer[2] != 8 || buffer[3] >= 32 {
        return Failure(InvalidFileHeader);
      }
      SameSettled(Fixed(buffer[..10]), ExtraLength(buffer[3], []), rest);
      SettledLater(ExtraLength(buffer[3], []));
      flags, stage, size := buffer[3], CheckExtraDataLength, 0;
      assert buffer[..0] == [];
      r := Success(());
    }

    method ReadLength(input: seq<byte>) returns (rest: seq<byte>)
      requires Valid() && stage == CheckExtraDataLength && input != []
      modifies this, buffer
      ensures Valid() && Outcome(Abstract(), rest) == Outcome(old(Abstract()), input)
      ensures |rest| <= |input| && (|rest| < |input| || Height() < old(Height())) && stage != CheckHeader
    {
      rest := input;
      if Has(flags, EXTRA_DATA) {
        ghost var got := buffer[..size];
        rest := Fill(2, input);
        LengthMore(flags, got, input, size - |got|);
        if size >= 2 {
          var n := Word(buffer[0], buffer[1]);
          SameSettled(ExtraLength(flags, buffer[..2]), Extra(flags, n), rest);
          extraLength, stage, size := n, CheckExtraData, 0;
        }
      } else {
        SameSettled(ExtraLength(flags, buffer[..size]), Name(flags), rest);
        stage, size := CheckFileName, 0;
      }
    }

    method SkipExtra(input: seq<byte>) returns (rest: seq<byte>)
      requires Valid() && stage == CheckExtraData && input != []
      modifies this
      ensures Valid() && Outcome(Abstract(), rest) == Outcome(old(Abstract()), input)
      ensures |rest| <= |input| && (|rest| < |input| || Height() < old(Height())) && stage != CheckHeader
    {
      var k := Min(extraLength, |input|);
      ExtraMore(flags, extraLength, input, k);
      rest, extraLength := input[k..], extraLength - k;
      if extraLength == 0 {
        SameSettled(Extra(flags, 0), Name(flags), rest);
        stage := CheckFileName;
      }
    }

    method SkipTexts(input: seq<byte>) returns (rest: seq<byte>)
      requires Valid() && (stage == CheckFileName || stage == CheckComment) && input != []
      modifies this
      ensures Valid() && Outcome(Abstract(), rest) == Outcome(old(Abstract()), input)
      ensures |rest| <= |input| && (|rest| < |input| || Height() < old(Height())) && stage != CheckHeader
    {
      ghost var p := Abstract();
      var next := if stage == CheckFileName then CheckComment else CheckHeaderCRC;
      rest := input;
      if Has(flags, if stage == CheckFileName then FILE_NAME else COMMENT) {
        var found;
        rest, found := SkipText(input, p);
        if found { stage := next; }
      } else {
        SameSettled(p, Eat(p, 0), rest);
        stage := next;
      }
    }

    method ReadCrc(input: seq<byte>) returns (rest: seq<byte>)
      requires Valid() && stage == CheckHeaderCRC && input != []
      modifies this
      ensures Valid() && Outcome(Abstract(), rest) == Outcome(old(Abstract()), input)
      ensures |rest| <= |input| && (|rest| < |input| || Height() < old(Height())) && stage != CheckHeader
    {
      rest := input;
      if Has(flags, HEADER_CRC) {
        var k := Min(2 - size, |input|);
        CrcMore(flags, size, input, k);
        rest, size := input[k..], size + k;
        if size >= 2 {
          SameSettled(Crc(flags, 2), Done, rest);
          stage, size := FinishedHeader, 0;
        }
      } else {
        SameSettled(Crc(flags, size), Done, rest);
        stage, size := FinishedHeader, 0;
      }
    }

    /** One round of the loop. */
    method Step(input: seq<byte>) returns (rest: seq<byte>, r: Result<(), Error>)
      requires Valid() && stage != Decompressing && input != []
      modifies this, buffer
      ensures Valid() && Outcome(Abstract(), rest) == Outcome(old(Abstract()), input)
      ensures |rest| <= |input| && (r.Success? ==> |rest| < |input| || Height() < old(Height()))
      ensures r.Failure? <==> Settle(Abstract()) == Failed
    {
      rest, r := input, Success(());
      match stage {
        case CheckHeader => rest, r := ReadFixed(input);
        case CheckExtraDataLength => rest := ReadLength(input);
        case CheckExtraData => rest := SkipExtra(input);
        case CheckFileName => rest := SkipTexts(input);
        case CheckComment => rest := SkipTexts(input);
        case CheckHeaderCRC => rest := ReadCrc(input);
        case FinishedHeader => stage := Decompressing;
      }
      SettledLater(Abstract());
    }

    /** The loop of transform, up to the state in which the input belongs to the decompressor:
        does what the machine does, leaves the same input, and terminates. */
    method Transform(input: seq<byte>, room: bool) returns (rest: seq<byte>, r: Result<(), Error>)
      requires Valid()
      modifies this, buffer
      ensures Valid()
      ensures room ==> (Settle(Abstract()), rest) == Outcome(old(Abstract()), input)
      ensures !room ==> Abstract() == old(Abstract()) && rest == input
      ensures r.Failure? <==> room && input != [] && Settle(Abstract()) == Failed
      ensures r.Success? && room ==> rest == [] || stage == Decompressing
    {
      rest, r := input, Success(());
      while stage != Decompressing && rest != [] && room
        invariant Valid() && Outcome(Abstract(), rest) == Outcome(old(Abstract()), input)
        invariant !room ==> Abstract() == old(Abstract()) && rest == input
        invariant |rest| <= |input| && r.Success? && (rest != input ==> Settle(Abstract()) != Failed)
        decreases |rest|, Height()
      {
        rest, r := Step(rest);
        if r.Failure? { return; }
      }
      if rest == [] && room { assert Outcome(Abstract(), []) == (Settle(Abstract()), []); }
    }
  }

  /** Only the fixed part of the header is ever rejected. */
  lemma {:induction false} SettledLater(p: Phase)
    requires !p.Failed?
    ensures Settle(p) == Failed <==> p.Fixed? && |p.got| >= 10 && !Acceptable(p.got)
    decreases Rank(p)
  {
    match p
    case Fixed(got) => if |got| >= 10 && Acceptable(got) { SettledLater(ExtraLength(got[3], [])); }
    case ExtraLength(flags, got) =>
      if !Has(flags, EXTRA_DATA) { SettledLater(Name(flags)); }
      else if |got| >= 2 { SettledLater(Extra(flags, Word(got[0], got[1]))); }
    case Extra(flags, left) => if left == 0 { SettledLater(Name(flags)); }
    case Name(flags) => if !Has(flags, FILE_NAME) { SettledLater(Comment(flags)); }
    case Comment(flags) => if !Has(flags, COMMENT) { SettledLater(Crc(flags, 0)); }
    case _ =>
  }

  lemma OutcomeLeaves(p: Phase, s: seq<byte>)
    ensures var o := Outcome(p, s); Settle(o.0) == o.0 && (o.1 != [] ==> o.0.Done? || o.0.Failed?)
    decreases |s|
  {
    SettleTwice(p);
    var q := Settle(p);
    if s != [] && !q.Done? && !q.Failed? { OutcomeLeaves(Eat(q, s[0]), s[1..]); }
  }

  /** One more piece, when the header of the pieces so far is done or wants more. */
  lemma PieceContinues(p: Phase, all: seq<byte>, left: seq<byte>, piece: seq<byte>)
    requires Outcome(Fixed([]), all) == (Settle(p), left) && Settle(p) != Failed
    ensures Outcome(Fixed([]), all + piece) == (Outcome(p, piece).0, left + Outcome(p, piece).1)
  {
    OutcomeOfPieces(Fixed([]), all, piece);
    OutcomeLeaves(Fixed([]), all);
    if left == [] {
      assert left + piece == piece && left + Outcome(p, piece).1 == Outcome(p, piece).1;
      SettleTwice(p);
      SameSettled(p, Settle(p), piece);
    }
  }

  /** However the stream is cut into pieces, the decompressor gets exactly the bytes after
      the header, and an exception is thrown exactly for an invalid header. */
  method HeaderOfPieces(pieces: seq<seq<byte>>) returns (compressed: seq<byte>, r: Result<(), Error>)
    ensures var all := Flatten(pieces);
      match Header(all)
      case Incomplete => r.Success? && compressed == []
      case Invalid => r.Failure?
      case Complete(n) => r.Success? && n <= |all| && compressed == all[n..]
  {
    var parser := new HeaderParser();
    compressed, r := [], Success(());
    var i := 0;
    while i < |pieces|
      invariant 0 <= i <= |pieces| && fresh(parser) && fresh(parser.buffer) && parser.Valid() && r.Success?
      invariant Outcome(Fixed([]), Flatten(pieces[..i])) == (Settle(parser.Abstract()), compressed)
      invariant Settle(parser.Abstract()) != Failed
    {
      PieceContinues(parser.Abstract(), Flatten(pieces[..i]), compressed, pieces[i]);
      assert pieces[..i + 1][..i] == pieces[..i];
      var rest;
      rest, r := parser.Transform(pieces[i], true);
      compressed := compressed + rest;
      i := i + 1;
      if r.Failure? {
        FailedForGood(pieces, i);
        return;
      }
    }
    assert pieces[..i] == pieces;
    MachineIsGrammar(Flatten(pieces));
  }

  lemma {:induction false} FailedForGood(pieces: seq<seq<byte>>, i: nat)
    requires i <= |pieces| && Outcome(Fixed([]), Flatten(pieces[..i])).0 == Failed
    ensures Header(Flatten(pieces)) == Invalid
    decreases |pieces| - i
  {
    if i < |pieces| {
      OutcomeOfPieces(Fixed([]), Flatten(pieces[..i]), pieces[i]);
      assert pieces[..i + 1][..i] == pieces[..i];
      FailedForGood(pieces, i + 1);
    } else {
      assert pieces[..i] == pieces;
      MachineIsGrammar(Flatten(pieces));
    }
  }
}
