/** Byte positions and rune positions of an UTF-8 string: Utf8::charToBytePos,
    byteToCharPos, substrMemory and charAt.

    A text is cut into runes by repeated reads.  What the position functions need to know
    of a reader is only that every read takes at least one byte. */
module Utf8Positions {
  import opened Bytes
  import opened Utf8Codec

  // Lists of reads.

  ghost predicate Positive(rs: seq<Eaten>) {
    forall i :: 0 <= i < |rs| ==> rs[i].size > 0
  }

  /** The number of bytes of the first n reads, of all if there are fewer. */
  ghost function Prefix(rs: seq<Eaten>, n: nat): nat {
    if n == 0 || rs == [] then 0 else rs[0].size + Prefix(rs[1..], n - 1)
  }

  /** The number of reads that begin before byte b. */
  ghost function CountBelow(rs: seq<Eaten>, b: int): nat {
    if b <= 0 || rs == [] then 0 else 1 + CountBelow(rs[1..], b - rs[0].size)
  }

  lemma {:induction false} PrefixAll(rs: seq<Eaten>, n: nat)
    requires n >= |rs|
    ensures Prefix(rs, n) == Prefix(rs, |rs|)
  {
    if rs != [] { PrefixAll(rs[1..], n - 1); }
  }

  lemma {:induction false} PrefixBounds(rs: seq<Eaten>, n: nat)
    requires Positive(rs)
    ensures Min(n, |rs|) <= Prefix(rs, n) <= Prefix(rs, |rs|)
    ensures n < |rs| ==> Prefix(rs, n) < Prefix(rs, |rs|)
  {
    if rs == [] {
    } else if n == 0 {
      PrefixBounds(rs[1..], 0);
      assert rs[0].size > 0;
    } else {
      PrefixBounds(rs[1..], n - 1);
    }
  }

  lemma {:induction false} CountBelowBound(rs: seq<Eaten>, b: int)
    ensures CountBelow(rs, b) <= |rs|
  {
    if b > 0 && rs != [] { CountBelowBound(rs[1..], b - rs[0].size); }
  }

  /** The Galois connection between counting and summing. */
  lemma {:induction false} CountPrefixGalois(rs: seq<Eaten>, b: int, n: nat)
    requires Positive(rs)
    ensures CountBelow(rs, b) <= n <==> Min(b, Prefix(rs, |rs|)) <= Prefix(rs, n)
  {
    PrefixBounds(rs, n);
    PrefixBounds(rs, |rs|);
    if rs == [] || b <= 0 {
    } else if n == 0 {
      assert rs[0].size > 0;
      PrefixBounds(rs[1..], |rs| - 1);
    } else {
      CountPrefixGalois(rs[1..], b - rs[0].size, n - 1);
    }
  }

  // Cutting a text into runes, whatever the reader.

  /** How a reader takes the next rune off a text. */
  type Reading = seq<byte> -> Eaten

  ghost predicate Progresses(eat: Reading) {
    forall d :: (d == [] ==> eat(d) == Eaten(0, 0)) && (d != [] ==> 0 < eat(d).size <= |d|)
  }

  ghost function Reads(eat: Reading, text: seq<byte>): seq<Eaten>
    requires Progresses(eat)
    decreases |text|
  {
    if text == [] then [] else [eat(text)] + Reads(eat, text[eat(text).size..])
  }

  lemma {:induction false} ReadsTotal(eat: Reading, text: seq<byte>)
    requires Progresses(eat)
    ensures Positive(Reads(eat, text)) && Prefix(Reads(eat, text), |Reads(eat, text)|) == |text|
    decreases |text|
  {
    if text != [] {
      var rest := text[eat(text).size..];
      ReadsTotal(eat, rest);
      assert Reads(eat, text)[1..] == Reads(eat, rest);
    }
  }

  /** What is left of the text after m reads. */
  ghost function Rest(eat: Reading, text: seq<byte>, m: nat): seq<byte>
    requires Progresses(eat)
    decreases m
  {
    if m == 0 then text else if text == [] then [] else Rest(eat, text[eat(text).size..], m - 1)
  }

  /** One more read. */
  lemma {:induction false} RestNext(eat: Reading, text: seq<byte>, m: nat)
    requires Progresses(eat)
    ensures var d := Rest(eat, text, m); Rest(eat, text, m + 1) == d[eat(d).size..]
    decreases m
  {
    if text != [] && m > 0 {
      RestNext(eat, text[eat(text).size..], m - 1);
    }
  }

  lemma ConsSlice<T>(x: T, s: seq<T>, m: nat)
    requires 0 < m <= |s| + 1
    ensures ([x] + s)[m..] == s[m - 1..]
  {
  }

  /** The rest has the remaining runes. */
  lemma {:induction false} RestReads(eat: Reading, text: seq<byte>, m: nat)
    requires Progresses(eat) && m <= |Reads(eat, text)|
    ensures Reads(eat, Rest(eat, text, m)) == Reads(eat, text)[m..]
    decreases m
  {
    if m > 0 {
      var rest := text[eat(text).size..];
      RestReads(eat, rest, m - 1);
      ConsSlice(eat(text), Reads(eat, rest), m);
    }
  }

  lemma {:induction false} RestSize(eat: Reading, text: seq<byte>, m: nat)
    requires Progresses(eat)
    ensures |Rest(eat, text, m)| == |text| - Prefix(Reads(eat, text), m)
    decreases m
  {
    if text != [] && m > 0 {
      var rest := text[eat(text).size..];
      RestSize(eat, rest, m - 1);
      assert Reads(eat, text)[1..] == Reads(eat, rest);
    }
  }

  lemma {:induction false} RestIsSuffix(eat: Reading, text: seq<byte>, m: nat)
    requires Progresses(eat)
    ensures |Rest(eat, text, m)| <= |text| && Rest(eat, text, m) == text[|text| - |Rest(eat, text, m)|..]
    decreases m
  {
    if text != [] && m > 0 {
      RestIsSuffix(eat, text[eat(text).size..], m - 1);
    }
  }

  lemma {:induction false} RestEmpty(eat: Reading, text: seq<byte>, m: nat)
    requires Progresses(eat)
    ensures Rest(eat, text, m) == [] <==> m >= |Reads(eat, text)|
    decreases m
  {
    if text != [] && m > 0 {
      RestEmpty(eat, text[eat(text).size..], m - 1);
    }
  }

  /** What the next read returns. */
  lemma RestFirst(eat: Reading, text: seq<byte>, m: nat)
    requires Progresses(eat) && m < |Reads(eat, text)|
    ensures eat(Rest(eat, text, m)) == Reads(eat, text)[m]
  {
    RestReads(eat, text, m);
    assert Reads(eat, Rest(eat, text, m))[0] == Reads(eat, text)[m..][0];
  }

  // The UTF-8 reader.

  ghost predicate EatsAt(eat: Reading, f: Flags, d: seq<byte>) {
    eat(d) == Eat(f, d)
  }

  /** Utf8Reader::eat as a function of the text; what it does is looked up by EatsAt. */
  ghost function EatWith(f: Flags): (eat: Reading)
    ensures forall d :: EatsAt(eat, f, d)
  {
    var lambda := d => Eat(f, d);
    assert forall d :: EatsAt(lambda, f, d);
    var eat :| forall d :: EatsAt(eat, f, d);
    eat
  }

  lemma EatProgresses(f: Flags)
    ensures Progresses(EatWith(f))
  {
    forall d
      ensures d == [] ==> EatWith(f)(d) == Eaten(0, 0)
      ensures d != [] ==> 0 < EatWith(f)(d).size <= |d|
    {
      assert EatsAt(EatWith(f), f, d);
    }
  }

  ghost function RunesOf(f: Flags, text: seq<byte>): (rs: seq<Eaten>)
    ensures Positive(rs) && Prefix(rs, |rs|) == |text|
  {
    EatProgresses(f);
    ReadsTotal(EatWith(f), text);
    Reads(EatWith(f), text)
  }

  lemma {:induction false} DecodeIsReads(f: Flags, text: seq<byte>)
    ensures |DecodeAll(f, text)| == |RunesOf(f, text)|
    ensures forall i :: 0 <= i < |DecodeAll(f, text)| ==> DecodeAll(f, text)[i] == RunesOf(f, text)[i].rune
    decreases |text|
  {
    EatProgresses(f);
    if text != [] {
      assert EatsAt(EatWith(f), f, text);
      DecodeIsReads(f, text[Eat(f, text).size..]);
    }
  }

  /** The byte offset after n runes. */
  ghost function Offset(f: Flags, text: seq<byte>, n: nat): (p: nat)
    ensures p <= |text|
  {
    PrefixBounds(RunesOf(f, text), n);
    Prefix(RunesOf(f, text), n)
  }

  /** The number of runes that begin before byte b. */
  ghost function RunesBefore(f: Flags, text: seq<byte>, b: nat): nat {
    CountBelow(RunesOf(f, text), b)
  }

  ghost function Length(f: Flags, text: seq<byte>): nat {
    |RunesOf(f, text)|
  }

  /** The reader has taken the first m runes of the text. */
  ghost predicate AfterRunes(rdr: Utf8Reader, text: seq<byte>, m: nat)
    reads rdr
  {
    EatProgresses(rdr.flags);
    rdr.data == Rest(EatWith(rdr.flags), text, m)
  }

  lemma AfterRunesMeans(rdr: Utf8Reader, text: seq<byte>, m: nat)
    requires AfterRunes(rdr, text, m)
    ensures |rdr.data| == |text| - Offset(rdr.flags, text, m)
    ensures rdr.data == text[Offset(rdr.flags, text, m)..]
    ensures rdr.data == [] <==> m >= Length(rdr.flags, text)
  {
    EatProgresses(rdr.flags);
    var eat := EatWith(rdr.flags);
    RestSize(eat, text, m);
    RestIsSuffix(eat, text, m);
    RestEmpty(eat, text, m);
  }

  /** One eat. */
  method Take(rdr: Utf8Reader, ghost text: seq<byte>, ghost m: nat) returns (rune: Unichar)
    requires AfterRunes(rdr, text, m)
    modifies rdr
    ensures AfterRunes(rdr, text, m + 1)
    ensures rune == if m < Length(rdr.flags, text) then RunesOf(rdr.flags, text)[m].rune else 0
  {
    EatProgresses(rdr.flags);
    RestNext(EatWith(rdr.flags), text, m);
    RestEmpty(EatWith(rdr.flags), text, m);
    if m < Length(rdr.flags, text) { RestFirst(EatWith(rdr.flags), text, m); }
    assert EatsAt(EatWith(rdr.flags), rdr.flags, rdr.data);
    rune := rdr.EatRune();
  }

  method CharToBytePos(text: seq<byte>, f: Flags, charPos: nat) returns (p: nat)
    ensures p == Offset(f, text, charPos)
  {
    if charPos >= |text| {
      PrefixBounds(RunesOf(f, text), Length(f, text));
      PrefixAll(RunesOf(f, text), charPos);
      p := |text|;
    } else {
      var rdr := new Utf8Reader(text, f);
      var n: nat := charPos;
      while n != 0
        invariant n <= charPos && AfterRunes(rdr, text, charPos - n)
        decreases n
      {
        var rune := Take(rdr, text, charPos - n);
        n := n - 1;
      }
      AfterRunesMeans(rdr, text, charPos);
      p := |text| - |rdr.data|;
    }
  }

  method ByteToCharPos(text: seq<byte>, f: Flags, bytePos: nat) returns (result: nat)
    ensures result == RunesBefore(f, text, bytePos)
  {
    if bytePos >= |text| {
      result := Count(text, f);
      DecodeIsReads(f, text);
      CountBelowAll(RunesOf(f, text), bytePos);
    } else {
      result := CountUpTo(text, f, bytePos);
    }
  }

  /** Counts runes until bytePos bytes have been consumed. */
  method CountUpTo(text: seq<byte>, f: Flags, bytePos: nat) returns (result: nat)
    requires bytePos < |text|
    ensures result == RunesBefore(f, text, bytePos)
  {
    var rdr := new Utf8Reader(text, f);
    result := 0;
    AfterRunesMeans(rdr, text, 0);
    while |text| - |rdr.data| < bytePos
      invariant AfterRunes(rdr, text, result) && result <= RunesBefore(f, text, bytePos)
      invariant |rdr.data| == |text| - Offset(f, text, result)
      decreases |rdr.data|
    {
      NotYetReached(f, text, bytePos, result);
      var rune := Take(rdr, text, result);
      result := result + 1;
      AfterRunesMeans(rdr, text, result);
    }
    CountPrefixGalois(RunesOf(f, text), bytePos, result);
  }

  lemma NotYetReached(f: Flags, text: seq<byte>, b: nat, m: nat)
    requires Offset(f, text, m) < b <= |text|
    ensures m < RunesBefore(f, text, b) && Offset(f, text, m) < Offset(f, text, m + 1)
  {
    var rs := RunesOf(f, text);
    CountPrefixGalois(rs, b, m);
    CountBelowBound(rs, b);
    PrefixGrows(rs, m, m + 1);
  }

  lemma {:induction false} PrefixGrows(rs: seq<Eaten>, m: nat, n: nat)
    requires Positive(rs) && m < n
    ensures Prefix(rs, m) <= Prefix(rs, n)
    ensures m < |rs| ==> Prefix(rs, m) < Prefix(rs, n)
  {
    if rs == [] {
    } else if m == 0 {
      assert rs[0].size > 0;
    } else {
      PrefixGrows(rs[1..], m - 1, n - 1);
    }
  }

  lemma CountBelowAll(rs: seq<Eaten>, b: nat)
    requires Positive(rs) && b >= Prefix(rs, |rs|)
    ensures CountBelow(rs, b) == |rs|
  {
    CountBelowBound(rs, b);
    if |rs| > 0 {
      CountPrefixGalois(rs, b, |rs| - 1);
      PrefixBounds(rs, |rs| - 1);
    }
  }

  /** Skips runes up to the end of the text; returns how many were not there. */
  method SkipRunes(rdr: Utf8Reader, count: nat, ghost text: seq<byte>, ghost m: nat) returns (left: nat)
    requires AfterRunes(rdr, text, m)
    modifies rdr
    ensures left <= count && AfterRunes(rdr, text, m + (count - left))
    ensures left == 0 || rdr.data == []
  {
    left := count;
    while rdr.data != [] && left != 0
      invariant left <= count && AfterRunes(rdr, text, m + (count - left))
      decreases left
    {
      var _ := Take(rdr, text, m + (count - left));
      left := left - 1;
    }
  }

  method CharAt(text: seq<byte>, f: Flags, index: nat) returns (rune: Unichar)
    ensures rune == if index < |DecodeAll(f, text)| then DecodeAll(f, text)[index] else 0
  {
    var rdr := new Utf8Reader(text, f);
    DecodeIsReads(f, text);
    var n := SkipRunes(rdr, index, text, 0);
    AfterRunesMeans(rdr, text, index - n);
    if n == 0 && rdr.data != [] {
      rune := Take(rdr, text, index);
    } else {
      rune := 0;
    }
  }

  // The Galois connection.

  /** A rune position is at least the number of runes before a byte exactly when its
      offset has reached that byte. */
  lemma PositionsGalois(f: Flags, text: seq<byte>, b: nat, n: nat)
    ensures RunesBefore(f, text, b) <= n <==> Min(b, |text|) <= Offset(f, text, n)
  {
    CountPrefixGalois(RunesOf(f, text), b, n);
  }

  /** From runes to bytes and back. */
  lemma RunesBeforeOffset(f: Flags, text: seq<byte>, n: nat)
    ensures RunesBefore(f, text, Offset(f, text, n)) == Min(n, Length(f, text))
  {
    var rs := RunesOf(f, text);
    var b, m := Offset(f, text, n), Min(n, |rs|);
    CountPrefixGalois(rs, b, n);
    CountBelowBound(rs, b);
    if m > 0 {
      CountPrefixGalois(rs, b, m - 1);
      PrefixGrows(rs, m - 1, n);
    }
  }

  /** From bytes to runes and back: the least rune boundary at or after the byte. */
  lemma OffsetRunesBefore(f: Flags, text: seq<byte>, b: nat, n: nat)
    ensures Min(b, |text|) <= Offset(f, text, RunesBefore(f, text, b))
    ensures Min(b, |text|) <= Offset(f, text, n) ==> Offset(f, text, RunesBefore(f, text, b)) <= Offset(f, text, n)
  {
    var k := RunesBefore(f, text, b);
    PositionsGalois(f, text, b, k);
    PositionsGalois(f, text, b, n);
    if k < n { PrefixGrows(RunesOf(f, text), k, n); }
  }

  // Substrings.

  /** Cutting the text behind a rune does not change how that rune is read. */
  ghost predicate LocalAt(eat: Reading, d: seq<byte>, b: nat) {
    eat(d).size <= b <= |d| ==> eat(d[..b]) == eat(d)
  }

  ghost predicate Local(eat: Reading) {
    forall d, b :: LocalAt(eat, d, b)
  }

  lemma FirstOfCut(eat: Reading, text: seq<byte>, p: nat)
    requires Progresses(eat) && Local(eat) && text != [] && eat(text).size <= p <= |text|
    ensures 0 < eat(text).size
    ensures Reads(eat, text[..p]) == [eat(text)] + Reads(eat, text[eat(text).size..][..p - eat(text).size])
  {
    var k := eat(text).size;
    assert LocalAt(eat, text, p);
    assert text[..p][k..] == text[k..][..p - k];
  }

  lemma {:induction false} PrefixReads(eat: Reading, text: seq<byte>, rs: seq<Eaten>, n: nat, p: nat)
    requires Progresses(eat) && Local(eat)
    requires rs == Reads(eat, text) && n <= |rs| && p == Prefix(rs, n) <= |text|
    ensures Reads(eat, text[..p]) == rs[..n]
    decreases n
  {
    if n > 0 {
      var k := eat(text).size;
      var rest, tail := text[k..], rs[1..];
      assert tail == Reads(eat, rest) && p - k == Prefix(tail, n - 1);
      PrefixReads(eat, rest, tail, n - 1, p - k);
      FirstOfCut(eat, text, p);
      assert rs[..n] == [rs[0]] + tail[..n - 1];
    }
  }

  lemma {:induction false} ContinueCut(rune: Unichar, data: seq<byte>, b: nat, k: nat)
    requires b <= |data|
    ensures Continue(rune, data[..b], k) == if k <= b then Continue(rune, data, k) else Continue(rune, data[..b], k)
    ensures k > b ==> Continue(rune, data[..b], k).None?
    decreases k
  {
    if k > 0 && b > 0 && IsContinuation(data[0]) && rune < 0x400_0000 {
      ContinueCut(rune * 64 + data[0] % 64, data[1..], b - 1, k - 1);
      assert data[..b][1..] == data[1..][..b - 1];
    }
  }

  /** A cut rune reads as an error; a rune that is not cut reads the same. */
  lemma ParseCut(f: Flags, data: seq<byte>, b: nat)
    requires 0 < b <= |data|
    ensures Parse(f, data).size <= b ==> Parse(f, data[..b]) == Parse(f, data)
    ensures Parse(f, data).size > b ==> Parse(f, data[..b]) == Character(MakeErrorCharacter(data[0]), data[0], 1)
  {
    var lead := LeadOf(data[0]);
    assert data[..b][0] == data[0] && data[..b][1..] == data[1..][..b - 1];
    if lead.Some? {
      ContinueCut(lead.value.rune, data[1..], b - 1, lead.value.extra);
    }
  }

  lemma EatCut(f: Flags, data: seq<byte>, b: nat)
    requires Eat(f, data).size <= b <= |data|
    ensures Eat(f, data[..b]) == Eat(f, data)
  {
    if data == [] {
      assert data[..b] == data;
    } else {
      ParseCut(f, data, b);
      FirstIsMultiByte(f, data);
      var first := Parse(f, data);
      if IsHighSurrogate(first.value) && f.surrogates && first.size <= b {
        var rest := data[first.size..];
        assert data[..b][first.size..] == rest[..b - first.size];
        if b > first.size {
          ParseCut(f, rest, b - first.size);
          FirstIsMultiByte(f, rest);
        }
      }
    }
  }

  /** An error character never passes for a surrogate, and the error value fits. */
  lemma FirstIsMultiByte(f: Flags, data: seq<byte>)
    requires data != []
    ensures Parse(f, data).firstChar == data[0]
    ensures !IsHighSurrogate(MakeErrorCharacter(data[0])) && !IsLowSurrogate(MakeErrorCharacter(data[0]))
  {
  }

  lemma EatIsLocal(f: Flags)
    ensures Local(EatWith(f))
  {
    forall d, b: nat
      ensures LocalAt(EatWith(f), d, b)
    {
      assert EatsAt(EatWith(f), f, d);
      if Eat(f, d).size <= b <= |d| {
        EatCut(f, d, b);
        assert EatsAt(EatWith(f), f, d[..b]);
      }
    }
  }

  /** Get a substring by rune position: exactly the bytes between two rune boundaries. */
  method SubstrMemory(text: seq<byte>, f: Flags, index: nat, count: nat) returns (r: seq<byte>)
    ensures Offset(f, text, index) <= Offset(f, text, index + count)
    ensures r == text[Offset(f, text, index)..Offset(f, text, index + count)]
  {
    var rdr := new Utf8Reader(text, f);
    var n := SkipRunes(rdr, index, text, 0);
    ReachedOffset(rdr, text, index - n, index);
    ghost var at := index - n;
    if count > 0 { PrefixGrows(RunesOf(f, text), index, index + count); }
    var tail := rdr.data;
    if count >= |tail| {
      TailHasFewRunes(f, text, index, count);
      r := tail;
    } else {
      var c := SkipRunes(rdr, count, text, at);
      ReachedTotal(rdr, text, at, index, c, count);
      r := tail[..|tail| - |rdr.data|];
    }
  }

  /** Stopping early at the end of the text is the same as going on. */
  lemma ReachedOffset(rdr: Utf8Reader, text: seq<byte>, m: nat, n: nat)
    requires AfterRunes(rdr, text, m) && m <= n && (m == n || rdr.data == [])
    ensures Offset(rdr.flags, text, m) == Offset(rdr.flags, text, n)
    ensures rdr.data == text[Offset(rdr.flags, text, n)..]
    ensures m < n ==> m >= Length(rdr.flags, text)
  {
    AfterRunesMeans(rdr, text, m);
    if m < n {
      PrefixAll(RunesOf(rdr.flags, text), m);
      PrefixAll(RunesOf(rdr.flags, text), n);
    }
  }

  lemma ReachedTotal(rdr: Utf8Reader, text: seq<byte>, at: nat, index: nat, c: nat, count: nat)
    requires at <= index && c <= count && AfterRunes(rdr, text, at + (count - c)) && (c == 0 || rdr.data == [])
    requires at < index ==> at >= Length(rdr.flags, text)
    ensures rdr.data == text[Offset(rdr.flags, text, index + count)..]
  {
    AfterRunesMeans(rdr, text, at + (count - c));
    if at < index || c != 0 {
      PrefixAll(RunesOf(rdr.flags, text), at + (count - c));
      PrefixAll(RunesOf(rdr.flags, text), index + count);
    }
  }

  lemma TailHasFewRunes(f: Flags, text: seq<byte>, index: nat, count: nat)
    requires count >= |text| - Offset(f, text, index)
    ensures Offset(f, text, index + count) == |text|
  {
    var rs := RunesOf(f, text);
    if index + count < |rs| {
      PrefixStep(rs, index, count);
      PrefixBounds(rs, index + count);
    } else {
      PrefixAll(rs, index + count);
    }
  }

  /** Each read takes at least one byte. */
  lemma {:induction false} PrefixStep(rs: seq<Eaten>, m: nat, k: nat)
    requires Positive(rs) && m + k <= |rs|
    ensures Prefix(rs, m) + k <= Prefix(rs, m + k)
  {
    if k > 0 {
      PrefixStep(rs, m, k - 1);
      PrefixGrows(rs, m + k - 1, m + k);
    }
  }

  /** The text between two rune boundaries has the runes between them. */
  lemma {:induction false} MiddleReads(eat: Reading, text: seq<byte>, sub: seq<byte>, m: nat, n: nat)
    requires Progresses(eat) && Local(eat) && m + n <= |Reads(eat, text)|
    requires Prefix(Reads(eat, text), m) <= Prefix(Reads(eat, text), m + n) <= |text|
    requires sub == text[Prefix(Reads(eat, text), m)..Prefix(Reads(eat, text), m + n)]
    ensures Reads(eat, sub) == Reads(eat, text)[m..m + n]
  {
    var rs, rest := Reads(eat, text), Rest(eat, text, m);
    var p, q := Prefix(rs, m), Prefix(rs, m + n);
    RestReads(eat, text, m);
    RestBytes(eat, text, m);
    PrefixSplit(rs, m, n);
    CutMiddle(text, p, q);
    CutMiddle(rs, m, m + n);
    PrefixReads(eat, rest, rs[m..], n, q - p);
  }

  lemma RestBytes(eat: Reading, text: seq<byte>, m: nat)
    requires Progresses(eat)
    ensures Prefix(Reads(eat, text), m) <= |text|
    ensures Rest(eat, text, m) == text[Prefix(Reads(eat, text), m)..]
  {
    RestSize(eat, text, m);
    RestIsSuffix(eat, text, m);
  }

  lemma CutMiddle<T>(s: seq<T>, p: nat, q: nat)
    requires p <= q <= |s|
    ensures s[p..][..q - p] == s[p..q]
  {
  }

  lemma SubstrReads(f: Flags, text: seq<byte>, m: nat, n: nat)
    requires m + n <= Length(f, text)
    ensures Offset(f, text, m) <= Offset(f, text, m + n)
    ensures RunesOf(f, text[Offset(f, text, m)..Offset(f, text, m + n)]) == RunesOf(f, text)[m..m + n]
  {
    EatProgresses(f);
    EatIsLocal(f);
    if n > 0 { PrefixGrows(RunesOf(f, text), m, m + n); }
    assert Offset(f, text, m + n) <= |text|;
    MiddleReads(EatWith(f), text, text[Offset(f, text, m)..Offset(f, text, m + n)], m, n);
  }

  lemma SubstrCapped(f: Flags, text: seq<byte>, index: nat, count: nat)
    ensures Offset(f, text, index) <= Offset(f, text, index + count)
    ensures var rs := RunesOf(f, text);
      RunesOf(f, text[Offset(f, text, index)..Offset(f, text, index + count)])
      == rs[Min(index, |rs|)..Min(index + count, |rs|)]
  {
    var m, q := Min(index, Length(f, text)), Min(index + count, Length(f, text));
    PrefixCapped(RunesOf(f, text), index);
    PrefixCapped(RunesOf(f, text), index + count);
    SubstrReads(f, text, m, q - m);
  }

  lemma DecodeSlice(f: Flags, text: seq<byte>, sub: seq<byte>, a: nat, b: nat)
    requires a <= b <= Length(f, text) && RunesOf(f, sub) == RunesOf(f, text)[a..b]
    ensures b <= |DecodeAll(f, text)| && DecodeAll(f, sub) == DecodeAll(f, text)[a..b]
  {
    DecodeIsReads(f, text);
    DecodeIsReads(f, sub);
  }

  /** A substring decodes to the runes asked for, as far as the text has them. */
  lemma SubstrRunes(f: Flags, text: seq<byte>, sub: seq<byte>, index: nat, count: nat)
    requires Offset(f, text, index) <= Offset(f, text, index + count)
    requires sub == text[Offset(f, text, index)..Offset(f, text, index + count)]
    ensures var n := |DecodeAll(f, text)|; DecodeAll(f, sub) == DecodeAll(f, text)[Min(index, n)..Min(index + count, n)]
  {
    SubstrCapped(f, text, index, count);
    var n := Length(f, text);
    DecodeIsReads(f, text);
    DecodeSlice(f, text, sub, Min(index, n), Min(index + count, n));
  }

  lemma PrefixCapped(rs: seq<Eaten>, n: nat)
    ensures Prefix(rs, n) == Prefix(rs, Min(n, |rs|))
  {
    if n > |rs| { PrefixAll(rs, n); }
  }

  lemma {:induction false} PrefixSplit(rs: seq<Eaten>, m: nat, n: nat)
    requires m <= |rs|
    ensures Prefix(rs, m) + Prefix(rs[m..], n) == Prefix(rs, m + n)
  {
    if m > 0 {
      PrefixSplit(rs[1..], m - 1, n);
      assert rs[m..] == rs[1..][m - 1..];
    } else {
      assert rs[0..] == rs;
    }
  }
}
