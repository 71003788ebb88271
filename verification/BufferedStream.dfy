/** The seekable stream below a BufferedStream, and what the operations mean on plain
    bytes. */
module RawStreams {
  import opened Bytes

  /** Byte i of the content after writing d at a position; a gap past the end reads as
      zero. */
  function ByteAfter(c: seq<byte>, pos: nat, d: seq<byte>, i: nat): byte {
    if pos <= i < pos + |d| then d[i - pos] else if i < |c| then c[i] else 0
  }

  function SizeAfter(c: seq<byte>, pos: nat, d: seq<byte>): nat {
    if d == [] then |c| else Max(|c|, pos + |d|)
  }

  /** The content after writing d at a position. */
  function Overwrite(c: seq<byte>, pos: nat, d: seq<byte>): (r: seq<byte>)
    ensures d == [] ==> r == c
  {
    seq(SizeAfter(c, pos, d), i requires 0 <= i => ByteAfter(c, pos, d, i))
  }

  /** What a write does to each byte: the data stands at its position, the bytes around it are as
      they were, and a gap between the old end and the data is filled with zeros. */
  lemma OverwriteExactly(c: seq<byte>, pos: nat, d: seq<byte>)
    requires d != []
    ensures var r := Overwrite(c, pos, d);
      && |r| == (if |c| < pos + |d| then pos + |d| else |c|) && r[pos..pos + |d|] == d
      && (forall i :: 0 <= i < |c| && !(pos <= i < pos + |d|) ==> r[i] == c[i])
      && (forall i :: |c| <= i < pos ==> r[i] == 0)
  {
  }

  /** Writing in two parts is writing at once. */
  lemma OverwriteTwice(c: seq<byte>, pos: nat, a: seq<byte>, b: seq<byte>)
    ensures Overwrite(Overwrite(c, pos, a), pos + |a|, b) == Overwrite(c, pos, a + b)
  {
    if a == [] {
      assert a + b == b;
    } else if b == [] {
      assert a + b == a;
    } else {
      var c1 := Overwrite(c, pos, a);
      var l, r := Overwrite(c1, pos + |a|, b), Overwrite(c, pos, a + b);
      forall i | 0 <= i < |l|
        ensures l[i] == r[i]
      {
        assert i < |c1| ==> c1[i] == ByteAfter(c, pos, a, i);
      }
    }
  }

  /** A stream: a read returns at least one byte unless it is at the end, a write takes at
      least one byte. */
  class Stream {
    var content: seq<byte>
    var pos: nat
    const canWrite: bool

    constructor (content: seq<byte>, canWrite: bool)
      ensures this.content == content && this.canWrite == canWrite && pos == 0
    {
      this.content, this.canWrite, pos := content, canWrite, 0;
    }

    method Read(m: array<byte>) returns (did: nat)
      modifies this`pos, m
      ensures did <= m.Length && (m.Length > 0 && old(pos) < |content| ==> did > 0)
      ensures old(pos) >= |content| ==> did == 0
      ensures old(pos) < |content| ==> old(pos) + did <= |content| && m[..did] == content[old(pos)..old(pos) + did]
      ensures pos == old(pos) + did
    {
      var avail := if pos < |content| then Min(m.Length, |content| - pos) else 0;
      did :| did <= avail && (avail > 0 ==> did > 0);
      var i := 0;
      while i < did
        invariant i <= did && pos == old(pos)
        invariant forall j :: 0 <= j < i ==> m[j] == content[pos + j]
      {
        m[i] := content[pos + i];
        i := i + 1;
      }
      pos := pos + did;
    }

    method Write(m: seq<byte>) returns (now: nat)
      requires m != []
      modifies this`content, this`pos
      ensures 0 < now <= |m|
      ensures content == Overwrite(old(content), old(pos), m[..now]) && pos == old(pos) + now
    {
      now :| 0 < now <= |m|;
      content := Overwrite(content, pos, m[..now]);
      pos := pos + now;
    }

    /** Write everything, retrying partial writes. */
    method FullWrite(data: seq<byte>)
      modifies this`content, this`pos
      ensures content == Overwrite(old(content), old(pos), data) && pos == old(pos) + |data|
    {
      var m := data;
      ghost var done := [];
      while m != []
        invariant data == done + m
        invariant content == Overwrite(old(content), old(pos), done) && pos == old(pos) + |done|
        decreases |m|
      {
        var n := Write(m);
        OverwriteTwice(old(content), old(pos), done, m[..n]);
        done := done + m[..n];
        m := m[n..];
      }
      assert done == data;
    }
  }
}

/** BufferedStream: a cache over a stream that nobody can tell from the stream itself. */
module BufferedStreams {
  import opened Wrappers
  import opened Bytes
  import opened RawStreams

  const BUFFER_SIZE := 1024

  datatype Mode = Neutral | Reading | Writing

  datatype Error = CannotWrite

  /** Nothing, or the part of c that starts at a position. */
  ghost predicate IsPart(c: seq<byte>, p: nat, m: seq<byte>) {
    m == [] || (p + |m| <= |c| && m == c[p..p + |m|])
  }

  lemma PartGrows(c: seq<byte>, p: nat, m: seq<byte>, x: byte)
    requires IsPart(c, p, m) && p + |m| < |c| && c[p + |m|] == x
    ensures IsPart(c, p, m + [x])
  {
  }

  lemma SliceOn(s: seq<byte>, i: nat, n: nat)
    requires i + n <= |s|
    ensures s[..i] + s[i..][..n] == s[..i + n]
  {
  }

  class BufferedStream {
    var mode: Mode
    const stream: Stream
    const rawBuffer: array<byte>
    var bufferStart: nat  // the descriptor m_buffer: a window of rawBuffer
    var bufferSize: nat
    var bufferFill: nat

    /** What the mode promises about the buffer.  Between calls the write buffer is never
        full. */
    ghost predicate Valid()
      reads this, stream, rawBuffer
    {
      && rawBuffer.Length == BUFFER_SIZE
      && match mode
         case Neutral => true
         case Reading =>
           && bufferStart + bufferSize <= BUFFER_SIZE
           && (bufferSize > 0 ==>
                 && bufferSize <= stream.pos <= |stream.content|
                 && rawBuffer[bufferStart..bufferStart + bufferSize]
                   == stream.content[stream.pos - bufferSize..stream.pos])
         case Writing => stream.canWrite && bufferStart == 0 && bufferSize == BUFFER_SIZE && bufferFill < BUFFER_SIZE
    }

    /** The content a user sees. */
    ghost function Content(): seq<byte>
      requires Valid()
      reads this, stream, rawBuffer
    {
      if mode == Writing then Overwrite(stream.content, stream.pos, rawBuffer[..bufferFill]) else stream.content
    }

    /** The position a user sees. */
    ghost function Pos(): nat
      requires Valid()
      reads this, stream, rawBuffer
    {
      match mode
      case Neutral => stream.pos
      case Reading => stream.pos - bufferSize
      case Writing => stream.pos + bufferFill
    }

    constructor (s: Stream)
      ensures Valid() && stream == s && mode == Neutral && fresh(rawBuffer)
      ensures Content() == s.content && Pos() == s.pos
    {
      mode, stream, rawBuffer := Neutral, s, new byte[BUFFER_SIZE];
      bufferStart, bufferSize, bufferFill := 0, 0, 0;
    }

    method FlushBuffer()
      requires rawBuffer.Length == BUFFER_SIZE && bufferStart == 0
      requires bufferSize == BUFFER_SIZE && bufferFill <= BUFFER_SIZE
      modifies stream`content, stream`pos, this`bufferSize, this`bufferFill, this`bufferStart
      ensures stream.content == Overwrite(old(stream.content), old(stream.pos), rawBuffer[..old(bufferFill)])
      ensures stream.pos == old(stream.pos) + old(bufferFill)
      ensures bufferStart == 0 && bufferSize == BUFFER_SIZE && bufferFill == 0
    {
      if bufferFill != 0 {
        bufferSize := Min(bufferSize, bufferFill);
        stream.FullWrite(rawBuffer[bufferStart..bufferStart + bufferSize]);
      }
      bufferStart, bufferSize, bufferFill := 0, rawBuffer.Length, 0;
    }

    method RefillBuffer()
      requires Valid() && mode == Reading && bufferSize == 0
      modifies stream`pos, rawBuffer, this`bufferSize, this`bufferStart
      ensures Valid() && Content() == old(Content()) && Pos() == old(Pos())
      ensures bufferSize == 0 ==> Pos() >= |Content()|
    {
      bufferStart, bufferSize := 0, rawBuffer.Length;
      var did := stream.Read(rawBuffer);
      bufferSize := Min(bufferSize, did);
    }

    /** Prepare for an operation; fails when the stream cannot be written. */
    method SetMode(m: Mode) returns (ok: bool)
      requires Valid()
      modifies this, stream`content, stream`pos
      ensures Valid() && Content() == old(Content()) && Pos() == old(Pos())
      ensures ok == (m == Writing ==> stream.canWrite)
      ensures mode == if ok then m else Neutral
    {
      ok := true;
      if m != mode {
        match mode {
          case Reading =>
            if bufferSize != 0 {
              stream.pos := stream.pos - bufferSize;
            }
          case Writing =>
            FlushBuffer();
          case Neutral =>
        }
        match m {
          case Writing =>
            if !stream.canWrite {
              mode := Neutral;
              return false;
            }
            bufferStart, bufferSize := 0, rawBuffer.Length;
            bufferFill := 0;
          case Reading =>
            bufferStart, bufferSize := 0, 0;
          case Neutral =>
        }
        mode := m;
      }
    }

    method ReadByte() returns (r: Option<byte>)
      requires Valid()
      modifies this, stream`content, stream`pos, rawBuffer
      ensures Valid() && mode == Reading && Content() == old(Content())
      ensures r == if old(Pos()) < |Content()| then Some(Content()[old(Pos())]) else None
      ensures Pos() == if r.Some? then old(Pos()) + 1 else old(Pos())
    {
      var ok := SetMode(Reading);
      if bufferSize == 0 {
        RefillBuffer();
      }
      if bufferSize == 0 {
        r := None;
      } else {
        var x := EatByte();
        r := Some(x);
      }
    }

    /** Takes the first byte off the read buffer. */
    method EatByte() returns (x: byte)
      requires Valid() && mode == Reading && bufferSize > 0
      modifies this`bufferStart, this`bufferSize
      ensures Valid() && Content() == old(Content()) && Pos() == old(Pos()) + 1
      ensures old(Pos()) < |Content()| && x == Content()[old(Pos())]
    {
      x := rawBuffer[bufferStart];
      ghost var w := rawBuffer[bufferStart..bufferStart + bufferSize];
      assert w[1..] == rawBuffer[bufferStart + 1..bufferStart + bufferSize];
      assert w[1..] == stream.content[stream.pos - bufferSize + 1..stream.pos];
      assert w[0] == x;
      bufferStart, bufferSize := bufferStart + 1, bufferSize - 1;
    }

    method PeekByte() returns (r: Option<byte>)
      requires Valid()
      modifies this, stream`content, stream`pos, rawBuffer
      ensures Valid() && mode == Reading && Content() == old(Content()) && Pos() == old(Pos())
      ensures r == if Pos() < |Content()| then Some(Content()[Pos()]) else None
    {
      var ok := SetMode(Reading);
      if bufferSize == 0 {
        RefillBuffer();
      }
      r := if bufferSize == 0 then None else Some(rawBuffer[bufferStart]);
    }

    /** Reads up to n bytes; less only at the end. */
    method Read(n: nat) returns (m: seq<byte>)
      requires Valid()
      modifies this, stream`content, stream`pos, rawBuffer
      ensures Valid() && Content() == old(Content()) && Pos() == old(Pos()) + |m|
      ensures |m| == if old(Pos()) < |Content()| then Min(n, |Content()| - old(Pos())) else 0
      ensures m == [] || m == Content()[old(Pos())..old(Pos()) + |m|]
      ensures n > 0 ==> mode == Reading
      ensures n == 0 ==> mode == old(mode)
    {
      ghost var c, start, was := Content(), Pos(), mode;
      m := [];
      while |m| < n
        invariant Valid() && Content() == c && Pos() == start + |m| && |m| <= n && IsPart(c, start, m)
        invariant if m == [] then mode == was else mode == Reading
        decreases n - |m|
      {
        var p := ReadByte();
        if p == None {
          break;
        }
        PartGrows(c, start, m, p.value);
        m := m + [p.value];
      }
    }

    /** One round of write through the buffer. */
    method WriteThroughBuffer(m: seq<byte>) returns (copied: nat)
      requires Valid() && mode == Writing && m != []
      modifies this`bufferSize, this`bufferFill, this`bufferStart, stream`content, stream`pos, rawBuffer
      ensures Valid() && 0 < copied <= |m|
      ensures Content() == Overwrite(old(Content()), old(Pos()), m[..copied]) && Pos() == old(Pos()) + copied
    {
      ghost var c, p, buffered := stream.content, stream.pos, rawBuffer[..bufferFill];
      copied := CopyInto(rawBuffer, bufferFill, m);
      OverwriteTwice(c, p, buffered, m[..copied]);
      ghost var all := buffered + m[..copied];
      assert rawBuffer[..bufferFill + copied] == all;
      bufferFill := bufferFill + copied;
      if bufferFill >= bufferSize {
        FlushBuffer();
        assert stream.content == Overwrite(c, p, all) && rawBuffer[..bufferFill] == [];
      } else {
        assert rawBuffer[..bufferFill] == all;
      }
    }

    /** One round of write: directly when nothing is buffered and m fills a buffer. */
    method WriteSome(m: seq<byte>) returns (now: nat)
      requires Valid() && mode == Writing && m != []
      modifies this`bufferSize, this`bufferFill, this`bufferStart, stream`content, stream`pos, rawBuffer
      ensures Valid() && 0 < now <= |m|
      ensures Content() == Overwrite(old(Content()), old(Pos()), m[..now]) && Pos() == old(Pos()) + now
    {
      if bufferFill == 0 && |m| >= bufferSize {
        assert rawBuffer[..bufferFill] == [];
        now := stream.Write(m);
        assert rawBuffer[..bufferFill] == [];
      } else {
        now := WriteThroughBuffer(m);
      }
    }

    method Write(data: seq<byte>) returns (r: Result<nat, Error>)
      requires Valid()
      modifies this, stream`content, stream`pos, rawBuffer
      ensures Valid() && r == if stream.canWrite then Success(|data|) else Failure(CannotWrite)
      ensures r.Success? ==> mode == Writing
      ensures r.Success? ==> Content() == Overwrite(old(Content()), old(Pos()), data) && Pos() == old(Pos()) + |data|
      ensures r.Failure? ==> mode == Neutral && Content() == old(Content()) && Pos() == old(Pos())
    {
      var ok := SetMode(Writing);
      if !ok {
        return Failure(CannotWrite);
      }
      WriteAll(data);
      r := Success(|data|);
    }

    /** The loop of write. */
    method WriteAll(data: seq<byte>)
      requires Valid() && mode == Writing
      modifies this`bufferSize, this`bufferFill, this`bufferStart, stream`content, stream`pos, rawBuffer
      ensures Valid() && mode == Writing
      ensures Content() == Overwrite(old(Content()), old(Pos()), data) && Pos() == old(Pos()) + |data|
    {
      ghost var content, pos := Content(), Pos();
      var did := 0;
      while did < |data|
        invariant did <= |data| && Valid() && mode == Writing && Written(content, pos, data, did)
      {
        did := WriteNext(data, did, content, pos);
      }
      assert data[..did] == data;
    }

    /** So many bytes of the data have been written at a position. */
    ghost predicate Written(content: seq<byte>, pos: nat, data: seq<byte>, did: nat)
      requires Valid() && did <= |data|
      reads this, stream, rawBuffer
    {
      Content() == Overwrite(content, pos, data[..did]) && Pos() == pos + did
    }

    method WriteNext(data: seq<byte>, did: nat, ghost content: seq<byte>, ghost pos: nat) returns (next: nat)
      requires did < |data| && Valid() && mode == Writing && Written(content, pos, data, did)
      modifies this`bufferSize, this`bufferFill, this`bufferStart, stream`content, stream`pos, rawBuffer
      ensures did < next <= |data| && Valid() && mode == Writing && Written(content, pos, data, next)
    {
      var now := WriteSome(data[did..]);
      next := did + now;
      OverwriteTwice(content, pos, data[..did], data[did..][..now]);
      SliceOn(data, did, now);
    }

    method SetPos(pos: nat)
      requires Valid()
      modifies this, stream`content, stream`pos
      ensures Valid() && mode == Neutral && Content() == old(Content()) && Pos() == pos
    {
      var ok := SetMode(Neutral);
      stream.pos := pos;
    }

    /** Makes the underlying stream agree with what the user sees. */
    method Flush()
      requires Valid()
      modifies this, stream`content, stream`pos
      ensures Valid() && mode == Neutral && Content() == old(Content()) && Pos() == old(Pos())
      ensures stream.content == old(Content()) && stream.pos == old(Pos())
    {
      var ok := SetMode(Neutral);
    }

    method GetPos() returns (p: int)
      requires Valid()
      ensures p == Pos()
    {
      p := stream.pos;
      match mode
      case Reading => p := p - bufferSize;
      case Writing => p := p + bufferFill;
      case Neutral =>
    }

    /** In writing mode the position counts as part of the size even when nothing has been
        buffered there. */
    method GetSize() returns (p: nat)
      requires Valid()
      ensures p == if mode == Writing then Max(|Content()|, Pos()) else |Content()|
    {
      p := |stream.content|;
      if mode == Writing {
        p := Max(p, stream.pos + bufferFill);
      }
    }
  }

  // Whole runs.

  datatype Op =
    | DoRead(n: nat)
    | DoWrite(data: seq<byte>)
    | DoSetPos(pos: nat)
    | DoFlush
    | DoReadByte
    | DoPeekByte
    | DoGetPos
    | DoGetSize

  datatype Out = Done | Data(data: seq<byte>) | Byte(value: Option<byte>) | Number(n: int) | Failed(error: Error)

  /** The plain byte sequence with a position.  `writing` says that the last operation
      other than a query was a write; only the reported size depends on it. */
  datatype Plain = Plain(content: seq<byte>, pos: nat, canWrite: bool, writing: bool)

  function PlainRest(st: Plain): seq<byte> {
    if st.pos < |st.content| then st.content[st.pos..] else []
  }

  function ReportedSize(st: Plain): nat {
    if st.writing then Max(|st.content|, st.pos) else |st.content|
  }

  function PlainStep(st: Plain, op: Op): (Plain, Out) {
    match op
    case DoRead(n) =>
      var d := PlainRest(st)[..Min(n, |PlainRest(st)|)];
      (st.(pos := st.pos + |d|, writing := n == 0 && st.writing), Data(d))
    case DoWrite(data) =>
      if st.canWrite then
        (st.(content := Overwrite(st.content, st.pos, data), pos := st.pos + |data|, writing := true), Number(|data|))
      else
        (st.(writing := false), Failed(CannotWrite))
    case DoSetPos(pos) => (st.(pos := pos, writing := false), Done)
    case DoFlush => (st.(writing := false), Done)
    case DoReadByte =>
      if PlainRest(st) == [] then (st.(writing := false), Byte(None))
      else (st.(pos := st.pos + 1, writing := false), Byte(Some(PlainRest(st)[0])))
    case DoPeekByte =>
      (st.(writing := false), Byte(if PlainRest(st) == [] then None else Some(PlainRest(st)[0])))
    case DoGetPos => (st, Number(st.pos))
    case DoGetSize => (st, Number(ReportedSize(st)))
  }

  function PlainRun(st: Plain, ops: seq<Op>): (r: (Plain, seq<Out>))
    ensures |r.1| == |ops|
  {
    if ops == [] then (st, [])
    else
      var (st1, outs) := PlainRun(st, ops[..|ops| - 1]);
      var (st2, out) := PlainStep(st1, ops[|ops| - 1]);
      (st2, outs + [out])
  }

  /** The plain state a buffered stream stands for. */
  ghost function View(b: BufferedStream): Plain
    requires b.Valid()
    reads b, b.stream, b.rawBuffer
  {
    Plain(b.Content(), b.Pos(), b.stream.canWrite, b.mode == Writing)
  }

  lemma ReadIsRest(st: Plain, n: nat, d: seq<byte>)
    requires |d| == if st.pos < |st.content| then Min(n, |st.content| - st.pos) else 0
    requires d == [] || d == st.content[st.pos..st.pos + |d|]
    ensures d == PlainRest(st)[..Min(n, |PlainRest(st)|)]
  {
  }

  /** Every single operation acts as it does on the plain bytes. */
  method Perform(b: BufferedStream, op: Op) returns (out: Out)
    requires b.Valid()
    modifies b, b.stream`content, b.stream`pos, b.rawBuffer
    ensures b.Valid()
    ensures (View(b), out) == PlainStep(old(View(b)), op)
    ensures op == DoFlush ==> b.stream.content == View(b).content && b.stream.pos == View(b).pos
  {
    match op
    case DoRead(n) => out := PerformRead(b, n);
    case DoWrite(data) => out := PerformWrite(b, data);
    case DoSetPos(_) => out := PerformMove(b, op);
    case DoFlush => out := PerformMove(b, op);
    case DoReadByte => out := PerformByte(b, op);
    case DoPeekByte => out := PerformByte(b, op);
    case DoGetPos => out := PerformQuery(b, op);
    case DoGetSize => out := PerformQuery(b, op);
  }

  method PerformMove(b: BufferedStream, op: Op) returns (out: Out)
    requires b.Valid() && (op.DoSetPos? || op.DoFlush?)
    modifies b, b.stream`content, b.stream`pos, b.rawBuffer
    ensures b.Valid() && (View(b), out) == PlainStep(old(View(b)), op)
    ensures op == DoFlush ==> b.stream.content == View(b).content && b.stream.pos == View(b).pos
  {
    if op.DoSetPos? {
      b.SetPos(op.pos);
    } else {
      b.Flush();
    }
    out := Done;
  }

  method PerformByte(b: BufferedStream, op: Op) returns (out: Out)
    requires b.Valid() && (op.DoReadByte? || op.DoPeekByte?)
    modifies b, b.stream`content, b.stream`pos, b.rawBuffer
    ensures b.Valid() && (View(b), out) == PlainStep(old(View(b)), op)
  {
    var r;
    if op.DoReadByte? {
      r := b.ReadByte();
    } else {
      r := b.PeekByte();
    }
    out := Byte(r);
  }

  method PerformQuery(b: BufferedStream, op: Op) returns (out: Out)
    requires b.Valid() && (op.DoGetPos? || op.DoGetSize?)
    ensures (View(b), out) == PlainStep(View(b), op)
  {
    var n;
    if op.DoGetPos? {
      n := b.GetPos();
    } else {
      n := b.GetSize();
    }
    out := Number(n);
  }

  method PerformRead(b: BufferedStream, n: nat) returns (out: Out)
    requires b.Valid()
    modifies b, b.stream`content, b.stream`pos, b.rawBuffer
    ensures b.Valid() && (View(b), out) == PlainStep(old(View(b)), DoRead(n))
  {
    var d := b.Read(n);
    ReadIsRest(old(View(b)), n, d);
    out := Data(d);
  }

  method PerformWrite(b: BufferedStream, data: seq<byte>) returns (out: Out)
    requires b.Valid()
    modifies b, b.stream`content, b.stream`pos, b.rawBuffer
    ensures b.Valid() && (View(b), out) == PlainStep(old(View(b)), DoWrite(data))
  {
    var r := b.Write(data);
    out := match r case Success(n) => Number(n) case Failure(e) => Failed(e);
  }

  /** Refinement: for every sequence of operations, whatever the partial reads and writes
      of the stream below, the results and the state are those of the plain bytes. */
  method Replay(b: BufferedStream, ops: seq<Op>) returns (outs: seq<Out>)
    requires b.Valid()
    modifies b, b.stream`content, b.stream`pos, b.rawBuffer
    ensures b.Valid() && (View(b), outs) == PlainRun(old(View(b)), ops)
  {
    outs := [];
    for i := 0 to |ops|
      invariant b.Valid() && (View(b), outs) == PlainRun(old(View(b)), ops[..i])
    {
      var out := Perform(b, ops[i]);
      assert ops[..i + 1][..i] == ops[..i];
      outs := outs + [out];
    }
    assert ops[..|ops|] == ops;
  }

  // The reported size.

  /** The reported size is wrong exactly after a write when the position lies past the
      end, which only empty writes leave behind. */
  lemma SizeExactlyWhen(st: Plain)
    ensures ReportedSize(st) == |st.content| <==> !(st.writing && st.pos > |st.content|)
  {
  }

  lemma EmptyWritePastEndMisreportsSize()
    ensures PlainRun(Plain([], 0, true, false), [DoSetPos(100), DoWrite([]), DoGetSize]).1
      == [Done, Number(0), Number(100)]
    ensures PlainRun(Plain([], 0, true, false), [DoSetPos(100), DoWrite([]), DoGetSize]).0.content == []
  {
    var st := Plain([], 0, true, false);
    var op1, op2, op3 := DoSetPos(100), DoWrite([]), DoGetSize;
    assert [op1, op2, op3][..2] == [op1, op2];
    assert [op1, op2][..1] == [op1];
    assert [op1][..0] == [];
    assert PlainRun(st, [op1]).1 == [Done];
    assert PlainRun(st, [op1, op2]).1 == [Done, Number(0)];
  }

  /** A step other than an empty write leaves the reported size right. */
  lemma StepKeepsSize(st: Plain, op: Op)
    requires (st.writing ==> st.pos <= |st.content|) && op != DoWrite([])
    ensures var st' := PlainStep(st, op).0; st'.writing ==> st'.pos <= |st'.content|
  {
  }

  /** Operations that leave everything as it is: queries and reads of no bytes. */
  predicate Silent(op: Op) {
    op == DoGetPos || op == DoGetSize || op == DoRead(0)
  }

  /** The operations up to the last one that is not silent. */
  function Heard(ops: seq<Op>): (r: seq<Op>)
    ensures r != [] ==> !Silent(r[|r| - 1])
  {
    if ops != [] && Silent(ops[|ops| - 1]) then Heard(ops[..|ops| - 1]) else ops
  }

  /** The last operation that counts is an empty write at a position past the end. */
  predicate EmptyWritePastEnd(st: Plain, ops: seq<Op>) {
    var h := Heard(ops);
    h != [] && h[|h| - 1] == DoWrite([]) && st.canWrite &&
    var before := PlainRun(st, h[..|h| - 1]).0; before.pos > |before.content|
  }

  lemma SilentKeeps(st: Plain, op: Op)
    requires Silent(op)
    ensures PlainStep(st, op).0 == st
  {
  }

  lemma {:induction false} RunKeepsCapability(st: Plain, ops: seq<Op>)
    ensures PlainRun(st, ops).0.canWrite == st.canWrite
  {
    if ops != [] { RunKeepsCapability(st, ops[..|ops| - 1]); }
  }

  lemma WrongAfter(st: Plain, op: Op)
    requires !Silent(op)
    ensures var end := PlainStep(st, op).0;
      end.writing && end.pos > |end.content| <==> op == DoWrite([]) && st.canWrite && st.pos > |st.content|
  {
  }

  lemma RunLast(st: Plain, ops: seq<Op>, op: Op)
    ensures PlainRun(st, ops + [op]).0 == PlainStep(PlainRun(st, ops).0, op).0
  {
    assert (ops + [op])[..|ops|] == ops;
  }

  lemma AfterSilent(st: Plain, ops: seq<Op>, op: Op)
    requires Silent(op)
    ensures PlainRun(st, ops + [op]).0 == PlainRun(st, ops).0
    ensures EmptyWritePastEnd(st, ops + [op]) <==> EmptyWritePastEnd(st, ops)
  {
    RunLast(st, ops, op);
    SilentKeeps(PlainRun(st, ops).0, op);
    assert (ops + [op])[..|ops|] == ops;
    assert Heard(ops + [op]) == Heard(ops);
  }

  lemma AfterHeard(st: Plain, ops: seq<Op>, op: Op)
    requires !Silent(op)
    ensures var end := PlainRun(st, ops + [op]).0;
      end.writing && end.pos > |end.content| <==> EmptyWritePastEnd(st, ops + [op])
  {
    RunLast(st, ops, op);
    WrongAfter(PlainRun(st, ops).0, op);
    RunKeepsCapability(st, ops);
    assert Heard(ops + [op]) == ops + [op] && (ops + [op])[..|ops|] == ops;
  }

  lemma RunTwo(st: Plain, ops: seq<Op>, a: Op, b: Op)
    ensures var before, end := PlainRun(st, ops).0, PlainRun(st, ops + [a, b]);
      && end.0 == PlainStep(PlainStep(before, a).0, b).0
      && end.1[|ops|] == PlainStep(before, a).1 && end.1[|ops| + 1] == PlainStep(PlainStep(before, a).0, b).1
  {
    assert ops + [a, b] == (ops + [a]) + [b];
    assert (ops + [a, b])[..|ops| + 1] == ops + [a] && (ops + [a])[..|ops|] == ops;
  }

  /** After any run: a read from a position returns the bytes of the content there. */
  lemma ReadFrom(st: Plain, ops: seq<Op>, q: nat, n: nat)
    ensures var c := PlainRun(st, ops).0.content;
      PlainRun(st, ops + [DoSetPos(q), DoRead(n)]).1[|ops| + 1] == Data(c[Min(q, |c|)..Min(q + n, |c|)])
  {
    RunTwo(st, ops, DoSetPos(q), DoRead(n));
    SliceRead(PlainRun(st, ops).0.content, q, n);
  }

  lemma SliceRead(c: seq<byte>, q: nat, n: nat)
    ensures var rest := if q < |c| then c[q..] else []; rest[..Min(n, |rest|)] == c[Min(q, |c|)..Min(q + n, |c|)]
  {
  }

  /** After any run on a writable stream: a write at a position overwrites the content there. */
  lemma WriteAt(st: Plain, ops: seq<Op>, p: nat, d: seq<byte>)
    requires st.canWrite
    ensures var end := PlainRun(st, ops + [DoSetPos(p), DoWrite(d)]);
      end.0.content == Overwrite(PlainRun(st, ops).0.content, p, d) && end.1[|ops| + 1] == Number(|d|)
  {
    RunKeepsCapability(st, ops);
    RunTwo(st, ops, DoSetPos(p), DoWrite(d));
  }

  /** After any run on a writable stream: what is written at a position is read back from there. */
  lemma WriteThenRead(st: Plain, ops: seq<Op>, p: nat, d: seq<byte>)
    requires st.canWrite
    ensures var outs := PlainRun(st, ops + [DoSetPos(p), DoWrite(d)] + [DoSetPos(p), DoRead(|d|)]).1;
      outs[|ops| + 1] == Number(|d|) && outs[|ops| + 3] == Data(d)
  {
    var written := ops + [DoSetPos(p), DoWrite(d)];
    WriteAt(st, ops, p, d);
    ReadFrom(st, written, p, |d|);
    OutsKept(st, written, [DoSetPos(p), DoRead(|d|)], |ops| + 1);
    ReadOfWrite(PlainRun(st, ops).0.content, p, d);
  }

  lemma ReadOfWrite(c: seq<byte>, p: nat, d: seq<byte>)
    ensures var r := Overwrite(c, p, d); r[Min(p, |r|)..Min(p + |d|, |r|)] == d
  {
    if d != [] { OverwriteExactly(c, p, d); }
  }

  /** Elsewhere the write changes nothing: bytes outside its range are read as before, and a gap it
      leaves behind the old end is read as zeros. */
  lemma WriteLeavesRest(st: Plain, ops: seq<Op>, p: nat, d: seq<byte>, q: nat, n: nat)
    requires st.canWrite && d != [] && (q + n <= p || p + |d| <= q)
    ensures var c := PlainRun(st, ops).0.content;
      var out := PlainRun(st, ops + [DoSetPos(p), DoWrite(d)] + [DoSetPos(q), DoRead(n)]).1[|ops| + 3];
      && (q + n <= |c| ==> out == Data(c[q..q + n]))
      && (|c| <= q && q + n <= p ==> out == Data(Repeat<byte>(0, n)))
  {
    WriteAt(st, ops, p, d);
    ReadFrom(st, ops + [DoSetPos(p), DoWrite(d)], q, n);
    RestOfWrite(PlainRun(st, ops).0.content, p, d, q, n);
  }

  lemma RestOfWrite(c: seq<byte>, p: nat, d: seq<byte>, q: nat, n: nat)
    requires d != [] && (q + n <= p || p + |d| <= q)
    ensures var r := Overwrite(c, p, d); var s := r[Min(q, |r|)..Min(q + n, |r|)];
      && (q + n <= |c| ==> s == c[q..q + n])
      && (|c| <= q && q + n <= p ==> s == Repeat<byte>(0, n))
  {
    OverwriteExactly(c, p, d);
  }

  /** What was answered stays answered. */
  lemma {:induction false} OutsKept(st: Plain, ops: seq<Op>, more: seq<Op>, i: nat)
    requires i < |ops|
    ensures PlainRun(st, ops + more).1[i] == PlainRun(st, ops).1[i]
    decreases |more|
  {
    if more == [] {
      assert ops + more == ops;
    } else {
      OutsKept(st, ops, more[..|more| - 1], i);
      assert (ops + more)[..|ops + more| - 1] == ops + more[..|more| - 1];
    }
  }

  /** In every run the reported size is the size of the content, unless the last operation
      that counts is an empty write at a position past the end. */
  lemma {:induction false} SizeExactly(st: Plain, ops: seq<Op>)
    requires !st.writing
    ensures var end := PlainRun(st, ops).0;
      ReportedSize(end) == |end.content| <==> !EmptyWritePastEnd(st, ops)
  {
    SizeExactlyWhen(PlainRun(st, ops).0);
    if ops != [] {
      var front, last := ops[..|ops| - 1], ops[|ops| - 1];
      assert ops == front + [last];
      if Silent(last) {
        SizeExactly(st, front);
        AfterSilent(st, front, last);
      } else {
        AfterHeard(st, front, last);
      }
    }
  }

  /** In every run without empty writes the reported size is the size of the content. */
  lemma {:induction false} SizeExactInRuns(st: Plain, ops: seq<Op>)
    requires !st.writing && DoWrite([]) !in ops
    ensures var end := PlainRun(st, ops).0;
      ReportedSize(end) == |end.content| && (end.writing ==> end.pos <= |end.content|)
  {
    if ops != [] {
      var n := |ops| - 1;
      SizeExactInRuns(st, ops[..n]);
      StepKeepsSize(PlainRun(st, ops[..n]).0, ops[n]);
    }
  }
}
