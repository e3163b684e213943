/** The chunked coding itself: what a message looks like on the wire, and the proof
    that the decoder accepts exactly such messages and recovers their payload. */
module ChunkedCoding {
  import opened Bytes
  import opened ChunkedAutomaton
  import opened ChunkedCalls

  /** One chunk: size digits as written, chunk extension, data. */
  datatype Chunk = Chunk(digits: seq<Byte>, ext: seq<Byte>, data: seq<Byte>)

  /** A message: data chunks, the last-chunk line, trailer lines, and the closing
      line, which may hold any number of CRs before its LF. */
  datatype Message = Message(
    chunks: seq<Chunk>,
    lastDigits: seq<Byte>,
    lastExt: seq<Byte>,
    trailers: seq<seq<Byte>>,
    closing: seq<Byte>)

  function HexFrom(acc: nat, digits: seq<Byte>): nat
    requires AllHex(digits)
    decreases |digits|
  {
    if digits == [] then acc else HexFrom(acc * 16 + DecodeHex(digits[0]), digits[1..])
  }

  predicate AllHex(digits: seq<Byte>) {
    forall i :: 0 <= i < |digits| ==> DecodeHex(digits[i]) != -1
  }

  predicate NoLineBreak(s: seq<Byte>) {
    forall i :: 0 <= i < |s| ==> s[i] != CR && s[i] != LF
  }

  /** A chunk extension starts with blank or semicolon and stays on its line. */
  predicate LegalExt(ext: seq<Byte>) {
    ext == [] || (ext[0] in {SP, HT, SEMICOLON} && NoLineBreak(ext))
  }

  predicate LegalSize(digits: seq<Byte>, value: nat) {
    0 < |digits| <= 16 && AllHex(digits) && HexFrom(0, digits) == value
  }

  predicate LegalChunk(c: Chunk) {
    c.data != [] && LegalSize(c.digits, |c.data|) && LegalExt(c.ext)
  }

  predicate AllCr(s: seq<Byte>) {
    forall i :: 0 <= i < |s| ==> s[i] == CR
  }

  predicate TrailerLine(s: seq<Byte>) {
    LF !in s && !AllCr(s)
  }

  predicate Legal(m: Message) {
    && (forall i :: 0 <= i < |m.chunks| ==> LegalChunk(m.chunks[i]))
    && LegalSize(m.lastDigits, 0)
    && LegalExt(m.lastExt)
    && (forall i :: 0 <= i < |m.trailers| ==> TrailerLine(m.trailers[i]))
    && AllCr(m.closing)
  }

  function SizeLine(digits: seq<Byte>, ext: seq<Byte>): seq<Byte> {
    digits + ext + CRLF
  }

  function EncodeChunks(chunks: seq<Chunk>): seq<Byte> {
    if chunks == [] then []
    else SizeLine(chunks[0].digits, chunks[0].ext) + chunks[0].data + CRLF + EncodeChunks(chunks[1..])
  }

  function EncodeLines(lines: seq<seq<Byte>>): seq<Byte> {
    if lines == [] then [] else lines[0] + [LF] + EncodeLines(lines[1..])
  }

  /** Everything up to and including the last-chunk line. */
  function Head(m: Message): seq<Byte> {
    EncodeChunks(m.chunks) + SizeLine(m.lastDigits, m.lastExt)
  }

  /** Trailer section with its closing line. */
  function Tail(m: Message): seq<Byte> {
    EncodeLines(m.trailers) + m.closing + [LF]
  }

  function Payload(chunks: seq<Chunk>): seq<Byte> {
    if chunks == [] then [] else chunks[0].data + Payload(chunks[1..])
  }

  // ---------------------------------------------------------------- size lines

  /** Where decoding goes once a size line with value `v` has been read. */
  function AfterSizeLine(v: nat, consumeTrailer: bool, tail: seq<Byte>): Fed {
    if v > 0 then Feed(Decoder(v, consumeTrailer, 0, Data), tail)
    else if consumeTrailer then Feed(Decoder(0, consumeTrailer, 0, TrailerHead), tail)
    else Finished(Decoder(0, consumeTrailer, 0, HeaderLf), [], tail)
  }

  /** The decoder after one more size digit. */
  function DigitAdded(d: Decoder, v: nat): Decoder {
    d.(left := d.left * 16 + v, hexCount := d.hexCount + 1)
  }

  lemma FeedOneDigit(d: Decoder, b: Byte, tail: seq<Byte>)
    requires Valid(d) && d.phase.Size? && d.hexCount < MAX_HEX_DIGITS && DecodeHex(b) != -1
    ensures Valid(DigitAdded(d, DecodeHex(b)))
    ensures Feed(d, [b] + tail) == Feed(DigitAdded(d, DecodeHex(b)), tail)
  {
    StepKeepsValid(d, b);
    assert Step(d, b) == Next(DigitAdded(d, DecodeHex(b)), []);
    var s := [b] + tail;
    assert s[0] == b && s[1..] == tail;
  }

  /** The decoder after a string of size digits. */
  function DigitsAdded(d: Decoder, digits: seq<Byte>): Decoder
    requires AllHex(digits)
  {
    d.(left := HexFrom(d.left, digits), hexCount := d.hexCount + |digits|)
  }

  lemma DigitsAddedCons(d: Decoder, digits: seq<Byte>)
    requires AllHex(digits) && digits != []
    ensures DigitsAdded(DigitAdded(d, DecodeHex(digits[0])), digits[1..]) == DigitsAdded(d, digits)
  {
  }

  lemma {:induction false} FeedDigits(d: Decoder, digits: seq<Byte>, tail: seq<Byte>)
    requires Valid(d) && d.phase.Size?
    requires AllHex(digits) && d.hexCount + |digits| <= MAX_HEX_DIGITS
    ensures Feed(d, digits + tail) == Feed(DigitsAdded(d, digits), tail)
    ensures Valid(DigitsAdded(d, digits))
    decreases |digits|
  {
    hide Feed, Step;
    if digits == [] {
      assert digits + tail == tail;
    } else {
      FeedOneDigit(d, digits[0], digits[1..] + tail);
      assert digits + tail == [digits[0]] + (digits[1..] + tail);
      FeedDigits(DigitAdded(d, DecodeHex(digits[0])), digits[1..], tail);
      DigitsAddedCons(d, digits);
    }
  }

  lemma {:induction false} FeedExt(d: Decoder, ext: seq<Byte>, tail: seq<Byte>)
    requires d.phase.Ext? && NoLineBreak(ext)
    ensures Feed(d, ext + tail) == Feed(d, tail)
    decreases |ext|
  {
    if ext == [] {
      assert ext + tail == tail;
    } else {
      assert (ext + tail)[1..] == ext[1..] + tail;
      FeedExt(d, ext[1..], tail);
    }
  }

  lemma FeedLineEnd(d: Decoder, tail: seq<Byte>)
    requires d.phase.Ext? && d.hexCount == 0
    ensures Feed(d, CRLF + tail) == AfterSizeLine(d.left, d.consumeTrailer, tail)
  {
    var s := CRLF + tail;
    assert s[0] == CR && s[1..][0] == LF && s[1..][1..] == tail;
    var d1 := d.(phase := HeaderLf);
    assert Feed(d, s) == Feed(d1, s[1..]);
  }

  /** A size digit string is left by its first terminator without consuming it. */
  lemma FeedEndsSize(d: Decoder, s: seq<Byte>)
    requires d.phase.Size? && d.hexCount > 0
    requires s != [] && DecodeHex(s[0]) == -1 && EndsSize(s[0]) && s[0] != LF
    ensures Feed(d, s) == Feed(d.(hexCount := 0, phase := Ext), s)
  {
  }

  lemma {:induction false} FeedSizeLine(digits: seq<Byte>, ext: seq<Byte>, consumeTrailer: bool, tail: seq<Byte>)
    requires AllHex(digits) && 0 < |digits| <= MAX_HEX_DIGITS && LegalExt(ext)
    ensures Feed(Initial(consumeTrailer), SizeLine(digits, ext) + tail)
            == AfterSizeLine(HexFrom(0, digits), consumeTrailer, tail)
  {
    var d0 := Initial(consumeTrailer);
    var after := ext + (CRLF + tail);
    assert SizeLine(digits, ext) + tail == digits + after;
    FeedDigits(d0, digits, after);
    var d1 := d0.(left := HexFrom(0, digits), hexCount := |digits|);
    assert after[0] == if ext == [] then CR else ext[0];
    FeedEndsSize(d1, after);
    var d2 := d1.(hexCount := 0, phase := Ext);
    FeedExt(d2, ext, CRLF + tail);
    FeedLineEnd(d2, tail);
  }

  // ---------------------------------------------------------------- round trip

  lemma {:induction false} FeedChunk(c: Chunk, consumeTrailer: bool, tail: seq<Byte>)
    requires LegalChunk(c)
    ensures Feed(Initial(consumeTrailer), SizeLine(c.digits, c.ext) + c.data + CRLF + tail)
            == Feed(Initial(consumeTrailer), tail).After(c.data)
  {
    var body := c.data + (CRLF + tail);
    assert SizeLine(c.digits, c.ext) + c.data + CRLF + tail == SizeLine(c.digits, c.ext) + body;
    FeedSizeLine(c.digits, c.ext, consumeTrailer, body);
    FeedDigits(Initial(consumeTrailer), c.digits, []);
    var d := Decoder(|c.data|, consumeTrailer, 0, Data);
    FeedData(d, body, |c.data|);
    assert body[|c.data|..] == CRLF + tail && body[..|c.data|] == c.data;
    FeedChunkEnd(consumeTrailer, tail);
  }

  lemma FeedChunkEnd(consumeTrailer: bool, tail: seq<Byte>)
    ensures Feed(Decoder(0, consumeTrailer, 0, DataCr), CRLF + tail) == Feed(Initial(consumeTrailer), tail)
  {
    var s := CRLF + tail;
    assert s[0] == CR && s[1..][0] == LF && s[1..][1..] == tail;
    assert Feed(Decoder(0, consumeTrailer, 0, DataCr), s) == Feed(Decoder(0, consumeTrailer, 0, DataLf), s[1..]);
  }

  lemma {:induction false} FeedChunks(chunks: seq<Chunk>, consumeTrailer: bool, tail: seq<Byte>)
    requires forall i :: 0 <= i < |chunks| ==> LegalChunk(chunks[i])
    ensures Feed(Initial(consumeTrailer), EncodeChunks(chunks) + tail)
            == Feed(Initial(consumeTrailer), tail).After(Payload(chunks))
    decreases |chunks|
  {
    if chunks == [] {
      assert EncodeChunks(chunks) + tail == tail;
    } else {
      EncodeChunksCons(chunks, tail);
      FeedChunk(chunks[0], consumeTrailer, EncodeChunks(chunks[1..]) + tail);
      FeedChunks(chunks[1..], consumeTrailer, tail);
      Feed(Initial(consumeTrailer), tail).AfterAfter(chunks[0].data, Payload(chunks[1..]));
    }
  }

  lemma EncodeChunksCons(chunks: seq<Chunk>, tail: seq<Byte>)
    requires chunks != []
    ensures EncodeChunks(chunks) + tail ==
            SizeLine(chunks[0].digits, chunks[0].ext) + chunks[0].data + CRLF + (EncodeChunks(chunks[1..]) + tail)
  {
    var c := SizeLine(chunks[0].digits, chunks[0].ext) + chunks[0].data + CRLF;
    assert EncodeChunks(chunks) + tail == c + (EncodeChunks(chunks[1..]) + tail);
  }

  function AtLine(p: Phase): Decoder {
    Decoder(0, true, 0, p)
  }

  lemma {:induction false} FeedLine(s: seq<Byte>, tail: seq<Byte>, p: Phase)
    requires p == TrailerMiddle || (p == TrailerHead && !AllCr(s))
    requires LF !in s
    ensures Feed(AtLine(p), s + [LF] + tail) == Feed(AtLine(TrailerHead), tail)
    decreases |s|
  {
    var t := s + [LF] + tail;
    if s == [] {
      assert t[0] == LF && t[1..] == tail;
    } else {
      assert t[0] == s[0] && t[1..] == s[1..] + [LF] + tail;
      assert forall i :: 0 <= i < |s[1..]| ==> s[1..][i] == s[i + 1];
      var q := if p == TrailerHead && s[0] == CR then TrailerHead else TrailerMiddle;
      FeedLine(s[1..], tail, q);
    }
  }

  lemma {:induction false} FeedClosing(s: seq<Byte>, tail: seq<Byte>)
    requires AllCr(s)
    ensures Feed(AtLine(TrailerHead), s + [LF] + tail) == Finished(AtLine(TrailerHead), [], tail)
    decreases |s|
  {
    var t := s + [LF] + tail;
    if s == [] {
      assert t[0] == LF && t[1..] == tail;
    } else {
      assert t[0] == CR && t[1..] == s[1..] + [LF] + tail;
      FeedClosing(s[1..], tail);
    }
  }

  lemma {:induction false} FeedTail(lines: seq<seq<Byte>>, closing: seq<Byte>, tail: seq<Byte>)
    requires forall i :: 0 <= i < |lines| ==> TrailerLine(lines[i])
    requires AllCr(closing)
    ensures Feed(AtLine(TrailerHead), EncodeLines(lines) + closing + [LF] + tail)
            == Finished(AtLine(TrailerHead), [], tail)
    decreases |lines|
  {
    if lines == [] {
      assert EncodeLines(lines) + closing + [LF] + tail == closing + [LF] + tail;
      FeedClosing(closing, tail);
    } else {
      var more := EncodeLines(lines[1..]) + closing + [LF] + tail;
      assert EncodeLines(lines) + closing + [LF] + tail == lines[0] + [LF] + more;
      FeedLine(lines[0], more, TrailerHead);
      FeedTail(lines[1..], closing, tail);
    }
  }

  /** Decoding an encoded message ends exactly at its end and yields its payload. */
  lemma {:induction false} FeedMessage(m: Message, consumeTrailer: bool, extra: seq<Byte>)
    requires Legal(m)
    ensures var f := Feed(Initial(consumeTrailer), Head(m) + Tail(m) + extra);
            && f.Finished?
            && f.out == Payload(m.chunks)
            && f.rest == if consumeTrailer then extra else Tail(m) + extra
  {
    var line := SizeLine(m.lastDigits, m.lastExt);
    var tail := Tail(m) + extra;
    assert Head(m) + Tail(m) + extra == EncodeChunks(m.chunks) + (line + tail);
    FeedChunks(m.chunks, consumeTrailer, line + tail);
    FeedSizeLine(m.lastDigits, m.lastExt, consumeTrailer, tail);
    if consumeTrailer {
      assert tail == EncodeLines(m.trailers) + m.closing + [LF] + extra;
      FeedTail(m.trailers, m.closing, extra);
    }
  }

  /** Chunked round trip under every cut that does not trip the guard. */
  lemma {:induction false} RoundTrip(m: Message, consumeTrailer: bool, extra: seq<Byte>, pieces: seq<seq<Byte>>)
    requires Legal(m)
    requires pieces != [] && Concat(pieces) == Head(m) + Tail(m) + extra
    requires !CutTrips(Fresh(consumeTrailer), pieces)
    ensures var r := Calls(Fresh(consumeTrailer), pieces);
            && r.verdict == Complete
            && r.out == Payload(m.chunks)
            && r.rest == if consumeTrailer then extra else Tail(m) + extra
  {
    CutInvariance(Fresh(consumeTrailer), pieces);
    FeedMessage(m, consumeTrailer, extra);
  }

  // ---------------------------------------------------------------- acceptance is exact

  lemma SizeGoesOn(d: Decoder, s: seq<Byte>)
    requires d.phase.Size? && d.hexCount <= MAX_HEX_DIGITS && Feed(d, s).Finished?
    ensures s != [] && (DecodeHex(s[0]) != -1 ==> d.hexCount < MAX_HEX_DIGITS)
  {
  }

  /** Reads a size line back out of an accepted stream. */
  lemma {:induction false} SplitSizeLine(d: Decoder, s: seq<Byte>)
    returns (digits: seq<Byte>, ext: seq<Byte>, tail: seq<Byte>)
    requires Valid(d) && d.phase.Size? && Feed(d, s).Finished?
    ensures s == SizeLine(digits, ext) + tail
    ensures AllHex(digits) && LegalExt(ext)
    ensures 0 < d.hexCount + |digits| <= MAX_HEX_DIGITS
    ensures Feed(d, s) == AfterSizeLine(HexFrom(d.left, digits), d.consumeTrailer, tail)
    decreases |s|
  {
    SizeGoesOn(d, s);
    hide Feed, Step, AfterSizeLine, DecodeHex, LegalExt, Wrap64, SizeLine;
    if DecodeHex(s[0]) != -1 {
      var more;
      var d1 := DigitAdded(d, DecodeHex(s[0]));
      assert s == [s[0]] + s[1..];
      FeedOneDigit(d, s[0], s[1..]);
      more, ext, tail := SplitSizeLine(d1, s[1..]);
      digits := [s[0]] + more;
      PrependDigit(s[0], more, ext, tail, d.left);
    } else {
      digits := [];
      ext, tail := SplitAfterDigits(d, s);
    }
  }

  /** What stands behind the digits. */
  lemma SplitAfterDigits(d: Decoder, s: seq<Byte>) returns (ext: seq<Byte>, tail: seq<Byte>)
    requires d.phase.Size? && s != [] && DecodeHex(s[0]) == -1 && Feed(d, s).Finished?
    ensures d.hexCount > 0 && LegalExt(ext) && s == SizeLine([], ext) + tail
    ensures Feed(d, s) == AfterSizeLine(d.left, d.consumeTrailer, tail)
  {
    FeedEndsSize(d, s);
    ext, tail := SplitExt(d.(hexCount := 0, phase := Ext), s);
    assert s == SizeLine([], ext) + tail;
  }

  lemma PrependDigit(b: Byte, more: seq<Byte>, ext: seq<Byte>, tail: seq<Byte>, acc: nat)
    requires DecodeHex(b) != -1 && AllHex(more)
    ensures [b] + (SizeLine(more, ext) + tail) == SizeLine([b] + more, ext) + tail
    ensures AllHex([b] + more)
    ensures HexFrom(acc, [b] + more) == HexFrom(acc * 16 + DecodeHex(b), more)
  {
    var digits := [b] + more;
    assert digits[1..] == more;
    assert forall i :: 1 <= i < |digits| ==> digits[i] == more[i - 1];
  }

  lemma {:induction false} SplitExt(d: Decoder, s: seq<Byte>) returns (ext: seq<Byte>, tail: seq<Byte>)
    requires d.phase.Ext? && d.hexCount == 0 && Feed(d, s).Finished?
    ensures s == ext + CRLF + tail && NoLineBreak(ext)
    ensures Feed(d, s) == AfterSizeLine(d.left, d.consumeTrailer, tail)
    decreases |s|
  {
    if s[0] == CR {
      ext := [];
      var d1 := d.(phase := HeaderLf);
      assert Feed(d, s) == Feed(d1, s[1..]);
      assert s[1..][0] == LF;
      tail := s[1..][1..];
      assert s == ext + CRLF + tail;
      FeedLineEnd(d, tail);
      assert CRLF + tail == s;
    } else {
      var more;
      more, tail := SplitExt(d, s[1..]);
      ext := [s[0]] + more;
      assert s == [s[0]] + s[1..] == ext + CRLF + tail;
    }
  }

  /** Reads the data of a chunk and its line end back out of an accepted stream. */
  lemma {:induction false} SplitData(v: nat, consumeTrailer: bool, s: seq<Byte>) returns (tail: seq<Byte>)
    requires 0 < v < TWO64
    requires Feed(Decoder(v, consumeTrailer, 0, Data), s).Finished?
    ensures |s| >= v && s == s[..v] + CRLF + tail
    ensures Feed(Decoder(v, consumeTrailer, 0, Data), s) == Feed(Initial(consumeTrailer), tail).After(s[..v])
  {
    hide Feed, Step;
    var d := Decoder(v, consumeTrailer, 0, Data);
    if |s| < v {
      DataRunsOut(d, s);
      assert false;
    }
    FeedData(d, s, v);
    tail := SplitChunkEnd(consumeTrailer, s[v..]);
    assert s[..v] + s[v..] == s;
    assert s == s[..v] + CRLF + tail;
  }

  lemma DataRunsOut(d: Decoder, s: seq<Byte>)
    requires d.phase.Data? && |s| < d.left
    ensures Feed(d, s).More?
  {
    FeedData(d, s, |s|);
    assert s[|s|..] == [];
  }

  lemma SplitChunkEnd(consumeTrailer: bool, t: seq<Byte>) returns (tail: seq<Byte>)
    requires Feed(Decoder(0, consumeTrailer, 0, DataCr), t).Finished?
    ensures t == CRLF + tail
    ensures Feed(Decoder(0, consumeTrailer, 0, DataCr), t) == Feed(Initial(consumeTrailer), tail)
  {
    hide StepExt, DecodeHex;
    assert t[0] == CR;
    assert Feed(Decoder(0, consumeTrailer, 0, DataCr), t) == Feed(Decoder(0, consumeTrailer, 0, DataLf), t[1..]);
    assert t[1..][0] == LF;
    tail := t[1..][1..];
    assert t == CRLF + tail;
    FeedChunkEnd(consumeTrailer, tail);
  }

  /** Reads one line of the trailer section. */
  lemma {:induction false} SplitLine(p: Phase, s: seq<Byte>) returns (line: seq<Byte>, tail: seq<Byte>)
    requires p == TrailerHead || p == TrailerMiddle
    requires Feed(AtLine(p), s).Finished?
    ensures s == line + [LF] + tail && LF !in line
    ensures Feed(AtLine(p), s) ==
            if p == TrailerHead && AllCr(line) then Finished(AtLine(TrailerHead), [], tail)
            else Feed(AtLine(TrailerHead), tail)
    decreases |s|
  {
    if s[0] == LF {
      line, tail := [], s[1..];
      assert s == line + [LF] + tail;
    } else {
      var q := if p == TrailerHead && s[0] == CR then TrailerHead else TrailerMiddle;
      var more;
      more, tail := SplitLine(q, s[1..]);
      line := [s[0]] + more;
      assert line[1..] == more && forall i :: 1 <= i < |line| ==> line[i] == more[i - 1];
      assert s == [s[0]] + s[1..] == line + [LF] + tail;
      assert AllCr(line) <==> s[0] == CR && AllCr(more);
    }
  }

  lemma PrependLine(line: seq<Byte>, more: seq<seq<Byte>>, closing: seq<Byte>, rest: seq<Byte>)
    ensures EncodeLines([line] + more) + closing + [LF] + rest
            == line + [LF] + (EncodeLines(more) + closing + [LF] + rest)
  {
    assert ([line] + more)[1..] == more;
    var a, b := line + [LF], EncodeLines(more);
    assert EncodeLines([line] + more) == a + b;
    assert a + b + closing + [LF] + rest == a + (b + closing + [LF] + rest);
  }

  lemma {:induction false} SplitTail(s: seq<Byte>)
    returns (trailers: seq<seq<Byte>>, closing: seq<Byte>, rest: seq<Byte>)
    requires Feed(AtLine(TrailerHead), s).Finished?
    ensures forall i :: 0 <= i < |trailers| ==> TrailerLine(trailers[i])
    ensures AllCr(closing)
    ensures s == EncodeLines(trailers) + closing + [LF] + rest
    ensures Feed(AtLine(TrailerHead), s) == Finished(AtLine(TrailerHead), [], rest)
    decreases |s|
  {
    hide Feed, Step;
    var line, tail := SplitLine(TrailerHead, s);
    if AllCr(line) {
      trailers, closing, rest := [], line, tail;
      assert EncodeLines([]) + closing == closing;
    } else {
      var more;
      more, closing, rest := SplitTail(tail);
      trailers := [line] + more;
      PrependLine(line, more, closing, rest);
    }
  }

  /** Whatever the decoder accepts is an encoded message, its output the payload. */
  lemma {:induction false} AcceptedIsMessage(consumeTrailer: bool, s: seq<Byte>) returns (m: Message)
    requires Feed(Initial(consumeTrailer), s).Finished?
    ensures Legal(m)
    ensures var f := Feed(Initial(consumeTrailer), s);
            && f.out == Payload(m.chunks)
            && s == Head(m) + (if consumeTrailer then Tail(m) else []) + f.rest
    decreases |s|
  {
    var f := Feed(Initial(consumeTrailer), s);
    var digits, ext, tail := SplitSizeLine(Initial(consumeTrailer), s);
    FeedDigits(Initial(consumeTrailer), digits, []);
    var v := HexFrom(0, digits);
    if v == 0 {
      m := AcceptedEnd(digits, ext, consumeTrailer, tail);
    } else {
      var more := SplitData(v, consumeTrailer, tail);
      var m1 := AcceptedIsMessage(consumeTrailer, more);
      var c := Chunk(digits, ext, tail[..v]);
      m := m1.(chunks := [c] + m1.chunks);
      PrependChunk(c, m1, if consumeTrailer then Tail(m1) else [], f.rest);
    }
  }

  /** The last-chunk line and what follows it. */
  lemma AcceptedEnd(digits: seq<Byte>, ext: seq<Byte>, consumeTrailer: bool, tail: seq<Byte>) returns (m: Message)
    requires LegalSize(digits, 0) && LegalExt(ext)
    requires AfterSizeLine(0, consumeTrailer, tail).Finished?
    ensures Legal(m) && m.chunks == []
    ensures var f := AfterSizeLine(0, consumeTrailer, tail);
            && f.out == []
            && SizeLine(digits, ext) + tail == Head(m) + (if consumeTrailer then Tail(m) else []) + f.rest
  {
    if consumeTrailer {
      var trailers, closing, rest := SplitTail(tail);
      m := Message([], digits, ext, trailers, closing);
      assert Head(m) == SizeLine(digits, ext);
      assert SizeLine(digits, ext) + tail == Head(m) + Tail(m) + rest;
    } else {
      m := Message([], digits, ext, [], []);
      assert Head(m) == SizeLine(digits, ext);
      assert SizeLine(digits, ext) + tail == Head(m) + [] + tail;
    }
  }

  lemma PrependChunk(c: Chunk, m: Message, end: seq<Byte>, rest: seq<Byte>)
    requires Legal(m) && LegalChunk(c)
    ensures var m1 := m.(chunks := [c] + m.chunks);
            && Legal(m1)
            && Tail(m1) == Tail(m)
            && Payload(m1.chunks) == c.data + Payload(m.chunks)
            && SizeLine(c.digits, c.ext) + (c.data + CRLF + (Head(m) + end + rest)) == Head(m1) + end + rest
  {
    var m1 := m.(chunks := [c] + m.chunks);
    assert m1.chunks[1..] == m.chunks;
    var line := SizeLine(m.lastDigits, m.lastExt);
    EncodeChunksCons(m1.chunks, line + end + rest);
    assert Head(m1) + end + rest == EncodeChunks(m1.chunks) + (line + end + rest);
    assert Head(m) + end + rest == EncodeChunks(m.chunks) + (line + end + rest);
    var a := SizeLine(c.digits, c.ext);
    var z := Head(m) + end + rest;
    assert a + (c.data + CRLF + z) == a + c.data + CRLF + z;
  }

  /** `s` is a legal encoding of `out` followed by `rest`. */
  ghost predicate Encodes(consumeTrailer: bool, s: seq<Byte>, out: seq<Byte>, rest: seq<Byte>) {
    exists m: Message ::
      && Legal(m)
      && out == Payload(m.chunks)
      && s == Head(m) + (if consumeTrailer then Tail(m) else []) + rest
  }

  lemma {:induction false} MessageIsAccepted(m: Message, consumeTrailer: bool, rest: seq<Byte>)
    requires Legal(m)
    ensures var f := Feed(Initial(consumeTrailer), Head(m) + (if consumeTrailer then Tail(m) else []) + rest);
            f.Finished? && f.out == Payload(m.chunks) && f.rest == rest
  {
    if consumeTrailer {
      FeedMessage(m, true, rest);
    } else {
      var line := SizeLine(m.lastDigits, m.lastExt);
      assert Head(m) + [] + rest == EncodeChunks(m.chunks) + (line + rest);
      FeedChunks(m.chunks, false, line + rest);
      FeedSizeLine(m.lastDigits, m.lastExt, false, rest);
    }
  }

  /** The decoder finishes on exactly the legal encodings, with their payload. */
  lemma AcceptsExactlyMessages(consumeTrailer: bool, s: seq<Byte>, out: seq<Byte>, rest: seq<Byte>)
    ensures Encodes(consumeTrailer, s, out, rest) <==>
            (var f := Feed(Initial(consumeTrailer), s); f.Finished? && f.out == out && f.rest == rest)
  {
    var f := Feed(Initial(consumeTrailer), s);
    if f.Finished? && f.out == out && f.rest == rest {
      var m := AcceptedIsMessage(consumeTrailer, s);
    }
    if Encodes(consumeTrailer, s, out, rest) {
      var m: Message :| && Legal(m)
                        && out == Payload(m.chunks)
                        && s == Head(m) + (if consumeTrailer then Tail(m) else []) + rest;
      MessageIsAccepted(m, consumeTrailer, rest);
    }
  }

  // ---------------------------------------------------------------- chunk sizes

  function HexDigit(v: nat): (b: Byte)
    requires v < 16
    ensures DecodeHex(b) == v
  {
    if v < 10 then 48 + v else 87 + v
  }

  /** Canonical size digits. */
  function HexDigits(n: nat): (digits: seq<Byte>)
    ensures AllHex(digits) && digits != []
  {
    if n < 16 then [HexDigit(n)] else HexDigits(n / 16) + [HexDigit(n % 16)]
  }

  lemma {:induction false} HexFromSnoc(acc: nat, digits: seq<Byte>, b: Byte)
    requires AllHex(digits) && DecodeHex(b) != -1
    ensures AllHex(digits + [b])
    ensures HexFrom(acc, digits + [b]) == HexFrom(acc, digits) * 16 + DecodeHex(b)
    decreases |digits|
  {
    if digits == [] {
      assert digits + [b] == [b];
    } else {
      assert (digits + [b])[1..] == digits[1..] + [b];
      HexFromSnoc(acc * 16 + DecodeHex(digits[0]), digits[1..], b);
    }
  }

  /** Every 64-bit length can be written as a legal size. */
  lemma {:induction false} HexDigitsLegal(n: nat, k: nat)
    requires n < Pow16(k) && 0 < k
    ensures |HexDigits(n)| <= k && HexFrom(0, HexDigits(n)) == n
    decreases n
  {
    if n >= 16 {
      assert k > 1;
      HexDigitsLegal(n / 16, k - 1);
      HexFromSnoc(0, HexDigits(n / 16), HexDigit(n % 16));
    }
  }

  /** The accumulator is the value of the size digits at the end of `seen`, which
      start a line there. */
  predicate DigitsSeen(d: Decoder, seen: seq<Byte>) {
    var start := |seen| - d.hexCount;
    && 0 <= start
    && AllHex(seen[start..])
    && d.left == HexFrom(0, seen[start..])
    && (start == 0 || seen[start - 1] == LF)
  }

  lemma StepKeepsDigits(d: Decoder, seen: seq<Byte>, b: Byte)
    requires Valid(d) && (d.phase.Size? ==> DigitsSeen(d, seen))
    requires Step(d, b).Next? && Step(d, b).d.phase.Size?
    ensures DigitsSeen(Step(d, b).d, seen + [b])
  {
    StepKeepsValid(d, b);
    if d.phase.Size? {
      var start := |seen| - d.hexCount;
      assert (seen + [b])[start..] == seen[start..] + [b];
      HexFromSnoc(0, seen[start..], b);
    }
  }

  lemma FeedNothing(d: Decoder)
    ensures Feed(d, []) == More(d, [])
  {
  }

  lemma {:induction false} FeedKeepsDigits(d: Decoder, seen: seq<Byte>, s: seq<Byte>)
    requires Valid(d) && (d.phase.Size? ==> DigitsSeen(d, seen))
    ensures Feed(d, s).More? && Feed(d, s).d.phase.Size? ==> DigitsSeen(Feed(d, s).d, seen + s)
    decreases |s|
  {
    hide Feed, Step, Valid, DigitsSeen;
    if s == [] {
      assert seen + s == seen;
      FeedNothing(d);
      return;
    }
    FeedFirst(d, s);
    if Step(d, s[0]).Next? {
      StepKeepsValid(d, s[0]);
      var d1 := Step(d, s[0]).d;
      if d1.phase.Size? {
        StepKeepsDigits(d, seen, s[0]);
      }
      FeedKeepsDigits(d1, seen + [s[0]], s[1..]);
      assert (seen + [s[0]]) + s[1..] == seen + s;
    }
  }

  /** In every reachable state that reads a size, the accumulator is the value of
      the digits seen since the line began, however the input was cut, and has not
      wrapped. */
  lemma SizeIsDigitsSeen(consumeTrailer: bool, s: seq<Byte>)
    requires Feed(Initial(consumeTrailer), s).More? && Feed(Initial(consumeTrailer), s).d.phase.Size?
    ensures var d := Feed(Initial(consumeTrailer), s).d;
            && DigitsSeen(d, s)
            && d.hexCount <= MAX_HEX_DIGITS
            && d.left < Pow16(d.hexCount) <= TWO64
  {
    var d0 := Initial(consumeTrailer);
    FeedKeepsDigits(d0, [], s);
    assert [] + s == s;
    FeedKeepsValid(d0, s);
    Pow16Bound(Feed(d0, s).d.hexCount);
  }

  // ---------------------------------------------------------------- the guard depends on the cut

  /** Feeding a size line whose extension is still open. */
  lemma {:induction false} FeedOpenLine(digits: seq<Byte>, ext: seq<Byte>, consumeTrailer: bool)
    requires AllHex(digits) && 0 < |digits| <= MAX_HEX_DIGITS && ext != [] && LegalExt(ext)
    ensures Feed(Initial(consumeTrailer), digits + ext)
            == More(Decoder(HexFrom(0, digits), consumeTrailer, 0, Ext), [])
  {
    var d0 := Initial(consumeTrailer);
    FeedDigits(d0, digits, ext);
    var d1 := d0.(left := HexFrom(0, digits), hexCount := |digits|);
    FeedEndsSize(d1, ext);
    FeedExt(d1.(hexCount := 0, phase := Ext), ext, []);
    assert ext + [] == ext;
  }

  /** A stream can be refused because of where its first buffer ends: with a long
      chunk extension the guard trips inside the size line, although the data that
      follows would bring the overhead down again. */
  lemma CutCanTrip(digits: seq<Byte>, ext: seq<Byte>, data: seq<Byte>, consumeTrailer: bool)
    requires LegalSize(digits, |data|) && LegalExt(ext)
    requires OVERHEAD_LIMIT <= |ext| <= |data| < 0x1_0000_0000
    ensures Call(Fresh(consumeTrailer), SizeLine(digits, ext) + data).verdict == Incomplete
    ensures Concat([digits + ext, CRLF + data]) == SizeLine(digits, ext) + data
    ensures Calls(Fresh(consumeTrailer), [digits + ext, CRLF + data]).verdict == Error
  {
    hide Feed, Step;
    LineAndData(digits, ext, data, consumeTrailer);
    FeedOpenLine(digits, ext, consumeTrailer);
    assert [digits + ext, CRLF + data][1..] == [CRLF + data];
    assert Concat([CRLF + data]) == CRLF + data;
  }

  lemma LineAndData(digits: seq<Byte>, ext: seq<Byte>, data: seq<Byte>, consumeTrailer: bool)
    requires LegalSize(digits, |data|) && LegalExt(ext) && data != []
    ensures Feed(Initial(consumeTrailer), SizeLine(digits, ext) + data).More?
    ensures Feed(Initial(consumeTrailer), SizeLine(digits, ext) + data).out == data
  {
    FeedSizeLine(digits, ext, consumeTrailer, data);
    FeedData(Decoder(|data|, consumeTrailer, 0, Data), data, |data|);
    assert data[..|data|] == data && data[|data|..] == [];
  }

  /** Such streams exist. */
  lemma CutCanTripWitness() returns (digits: seq<Byte>, ext: seq<Byte>, data: seq<Byte>)
    ensures LegalSize(digits, |data|) && LegalExt(ext)
    ensures OVERHEAD_LIMIT <= |ext| <= |data| < 0x1_0000_0000
  {
    ext := seq(OVERHEAD_LIMIT, _ => SEMICOLON);
    data := seq(OVERHEAD_LIMIT, _ => SP);
    assert Pow16(5) == 0x10_0000;
    HexDigitsLegal(OVERHEAD_LIMIT, 5);
    digits := HexDigits(OVERHEAD_LIMIT);
  }
}
