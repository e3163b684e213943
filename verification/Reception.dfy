/** What the read loops make of the bytes that arrive, whatever pieces they come in:
    which streams are served, and with how much body. */
module Reception {
  import opened Bytes
  import opened HttpLimits
  import opened HttpSyntax
  import opened HttpStability
  import opened HttpIncremental
  import opened ContentLength
  import opened Reader

  /** The bytes that arrive before the first close, error or empty piece. */
  function Stream(script: seq<Event>): seq<Byte> {
    if script == [] || !script[0].Bytes? || script[0].data == [] then []
    else script[0].data + Stream(script[1..])
  }

  /** As much as the buffer holds. */
  function Cut(s: seq<Byte>): (t: seq<Byte>)
    ensures |t| <= MAX_BUFFR && t <= s
    ensures |s| <= MAX_BUFFR ==> t == s
  {
    if |s| <= MAX_BUFFR then s else s[..MAX_BUFFR]
  }

  /** What the buffer can come to hold, if `data` is in it already. */
  function Received(data: seq<Byte>, script: seq<Event>): (s: seq<Byte>)
    ensures |s| <= MAX_BUFFR
    ensures |data| <= MAX_BUFFR ==> data <= s
  {
    Cut(data + Stream(script))
  }

  /** What a receive does to the stream itself. */
  lemma RecvTakes(script: seq<Event>, room: nat)
    ensures var (got, rest) := Recv(script, room);
            && (got.Data? <==> room > 0 && Stream(script) != [])
            && (got.Data? ==> got.bytes + Stream(rest) == Stream(script))
  {
    if 0 < room && script != [] && script[0].Bytes? && room < |script[0].data| {
      PieceSplit(script[0].data, room, script[1..]);
    }
  }

  lemma PieceSplit(piece: seq<Byte>, room: nat, more: seq<Event>)
    requires 0 < room < |piece|
    ensures piece[..room] + Stream([Event.Bytes(piece[room..])] + more) == piece + Stream(more)
  {
    var later := [Event.Bytes(piece[room..])] + more;
    assert later[1..] == more && later[0].data == piece[room..];
    assert Stream(later) == piece[room..] + Stream(more);
    var tail := Stream(more);
    assert piece[..room] + (piece[room..] + tail) == piece + tail;
  }

  /** One receive moves some bytes from the stream to the buffer, or there is no room or
      no stream. */
  lemma RecvSplits(data: seq<Byte>, script: seq<Event>)
    requires |data| <= MAX_BUFFR
    ensures var (got, rest) := Recv(script, MAX_BUFFR - |data|);
            && (got.Data? <==> Received(data, script) != data)
            && (got.Data? ==>
                  && |data + got.bytes| <= MAX_BUFFR
                  && data + got.bytes + Stream(rest) == data + Stream(script)
                  && data + got.bytes <= Received(data, script))
  {
    hide Stream, Recv, Cut;
    var (got, rest) := Recv(script, MAX_BUFFR - |data|);
    RecvTakes(script, MAX_BUFFR - |data|);
    if got.Data? {
      Joined(data, got.bytes, Stream(rest), Stream(script));
    } else {
      NothingJoins(data, Stream(script));
    }
  }

  lemma Joined(data: seq<Byte>, bytes: seq<Byte>, tail: seq<Byte>, all: seq<Byte>)
    requires bytes + tail == all && bytes != [] && |data| + |bytes| <= MAX_BUFFR
    ensures data + bytes + tail == data + all
    ensures Cut(data + all) != data && data + bytes <= Cut(data + all)
  {
    assert data + bytes + tail == data + (bytes + tail);
    assert |Cut(data + all)| >= |data + bytes|;
  }

  lemma NothingJoins(data: seq<Byte>, all: seq<Byte>)
    requires |data| == MAX_BUFFR || (|data| < MAX_BUFFR && all == [])
    ensures Cut(data + all) == data
  {
  }

  /** A parse that fails on the buffer so far can only succeed behind it. */
  lemma EndsBehind(data: seq<Byte>, s: seq<Byte>)
    requires data <= s && !ParseMessage(RequestKind, data, MAX_HEADERS).Ok?
    requires ParseMessage(RequestKind, s, MAX_HEADERS).Ok?
    ensures |data| < ParseMessage(RequestKind, s, MAX_HEADERS).pos
  {
    hide ParseMessage;
    assert s[..|data|] == data;
    if ParseMessage(RequestKind, s, MAX_HEADERS).pos <= |data| {
      PrefixDecides(RequestKind, s, MAX_HEADERS, |data|);
    }
  }

  /** What it takes to find a header section that is in the buffer already, left by an
      earlier connection: something new has arrived, and from three bytes before it on an
      empty line shows up, with no lone CR before it. */
  predicate Noticed(data: seq<Byte>, s: seq<Byte>)
    requires data <= s
  {
    var i := FirstRevealing(s, Resume(|data|));
    s != data && i < |s| && s[i] != CR
  }

  /** The bytes that have come to stand in the buffer show a header section. */
  predicate Found(data: seq<Byte>, s: seq<Byte>)
    requires data <= s
  {
    && ParseMessage(RequestKind, s, MAX_HEADERS).Ok?
    && (ParseMessage(RequestKind, data, MAX_HEADERS).Ok? ==> Noticed(data, s))
  }

  /** The header loop, from every buffer and however the bytes are cut: it succeeds exactly
      if they parse and, where the buffer already held a header section, it is noticed. */
  lemma HeaderExact(b: Buffer, script: seq<Event>)
    requires InBounds(b)
    ensures var s := Received(b.data, script);
            var r := ParseMessage(RequestKind, s, MAX_HEADERS);
            var p := ReadHeader(b, script);
            && (p.stage.Done? <==> Found(b.data, s))
            && (p.stage.Done? ==>
                  && p.stage == Done(Headed(r.pos, r.value))
                  && r.pos <= |p.buffer.data|
                  && p.buffer.data + Stream(p.script) == b.data + Stream(script))
  {
    hide ParseMessage, Phr, Stream, ReadHeader, Noticed;
    var s := Received(b.data, script);
    if ParseMessage(RequestKind, b.data, MAX_HEADERS).Ok? {
      HeaderNoticed(b, script);
      ParseStable(RequestKind, b.data, s, MAX_HEADERS);
    } else {
      HeaderCompleted(b, script);
    }
    var p := ReadHeader(b, script);
    if p.stage.Done? {
      HeaderAccepts(b, script);
      HeaderKeepsBounds(b, script);
      PrefixOfReceived(p.buffer.data, p.script, b.data, script);
      ParseStable(RequestKind, p.buffer.data, s, MAX_HEADERS);
    }
  }

  lemma PrefixOfReceived(d: seq<Byte>, rest: seq<Event>, data: seq<Byte>, script: seq<Event>)
    requires d + Stream(rest) == data + Stream(script) && |d| <= MAX_BUFFR
    ensures d <= Received(data, script)
  {
    hide Stream;
    assert d <= data + Stream(script);
  }

  /** From a buffer without a complete header section. */
  lemma {:induction false} HeaderCompleted(b: Buffer, script: seq<Event>)
    requires InBounds(b) && !ParseMessage(RequestKind, b.data, MAX_HEADERS).Ok?
    ensures ReadHeader(b, script).stage.Done? <==>
            ParseMessage(RequestKind, Received(b.data, script), MAX_HEADERS).Ok?
    decreases MAX_BUFFR - |b.data|
  {
    hide ParseMessage, Phr, Stream;
    var s := Received(b.data, script);
    var (got, rest) := Recv(script, MAX_BUFFR - |b.data|);
    RecvSplits(b.data, script);
    if got.Data? {
      var b1 := Buffer(b.data + got.bytes, |b.data|);
      assert Received(b1.data, rest) == s;
      ParseStable(RequestKind, b1.data, s, MAX_HEADERS);
      PhrIsParse(b1.data, b1.lastLen);
      assert s[..|b1.data|] == b1.data;
      if ParseMessage(RequestKind, s, MAX_HEADERS).Ok? {
        EndsBehind(b.data, s);
        IncrementalStep(RequestKind, s, MAX_HEADERS, |b1.data|, |b.data|);
      }
      if Phr(RequestKind, b1.data, MAX_HEADERS, b1.lastLen).Partial? && |b1.data| < MAX_BUFFR
         && !ParseMessage(RequestKind, b1.data, MAX_HEADERS).Ok? {
        HeaderCompleted(b1, rest);
      }
    }
  }

  /** From a buffer with one: only the shortcut decides. */
  lemma {:induction false} HeaderNoticed(b: Buffer, script: seq<Event>)
    requires InBounds(b) && ParseMessage(RequestKind, b.data, MAX_HEADERS).Ok?
    ensures ReadHeader(b, script).stage.Done? <==> Noticed(b.data, Received(b.data, script))
    decreases MAX_BUFFR - |b.data|
  {
    hide ParseMessage, Phr, Stream, FirstRevealing, Revealing, Recv;
    var s := Received(b.data, script);
    var (got, rest) := Recv(script, MAX_BUFFR - |b.data|);
    RecvSplits(b.data, script);
    if got.Data? {
      var b1 := Buffer(b.data + got.bytes, |b.data|);
      assert Received(b1.data, rest) == s;
      ParseStable(RequestKind, b.data, b1.data, MAX_HEADERS);
      NothingIsNoRequest(b.data);
      PhrExact(RequestKind, b1.data, MAX_HEADERS, |b.data|);
      if FirstRevealing(b1.data, Resume(|b.data|)) < |b1.data| {
        FirstStays(b1.data, s, Resume(|b.data|));
      } else {
        NothingBefore(b1.data, s, |b.data|);
        assert |b1.data| == |s| ==> b1.data == s;
        if |b1.data| < MAX_BUFFR {
          HeaderNoticed(b1, rest);
        }
      }
    }
  }

  lemma NothingIsNoRequest(data: seq<Byte>)
    requires ParseMessage(RequestKind, data, MAX_HEADERS).Ok?
    ensures data != []
  {
  }

  /** From any buffer: a header section is only found after a receive, and no byte of
      the stream is lost. The call that found it would have accepted it with the length
      before the first receive as well. */
  lemma {:induction false} HeaderAccepts(b: Buffer, script: seq<Event>)
    requires InBounds(b) && ReadHeader(b, script).stage.Done?
    ensures var p := ReadHeader(b, script);
            && b.data < p.buffer.data
            && p.buffer.data + Stream(p.script) == b.data + Stream(script)
            && Phr(RequestKind, p.buffer.data, MAX_HEADERS, |b.data|) ==
               ParseMessage(RequestKind, p.buffer.data, MAX_HEADERS) ==
               Ok(p.stage.value.size, p.stage.value.request)
    decreases MAX_BUFFR - |b.data|
  {
    hide ParseMessage, Phr, Stream;
    var (got, rest) := Recv(script, MAX_BUFFR - |b.data|);
    RecvSplits(b.data, script);
    var b1 := Buffer(b.data + got.bytes, |b.data|);
    PhrIsParse(b1.data, b1.lastLen);
    if Phr(RequestKind, b1.data, MAX_HEADERS, b1.lastLen).Partial? {
      HeaderAccepts(b1, rest);
      EarlierLengthAccepts(RequestKind, b1.data, ReadHeader(b1, rest).buffer.data, MAX_HEADERS, |b.data|);
    }
  }

  /** Success of a call is success of the parse. */
  lemma PhrIsParse(s: seq<Byte>, lastLen: nat)
    requires lastLen <= |s|
    ensures var r := Phr(RequestKind, s, MAX_HEADERS, lastLen);
            r.Ok? ==> r == ParseMessage(RequestKind, s, MAX_HEADERS)
  {
    hide ParseMessage, IsComplete;
  }

  /** The body loop succeeds exactly if enough bytes arrive. */
  lemma {:induction false} BodyExact(b: Buffer, script: seq<Event>, need: int)
    requires InBounds(b) && need <= MAX_BUFFR
    ensures var p := ReadBody(b, script, need);
            && (p.stage.Done? <==> need <= |Received(b.data, script)|)
            && (p.stage.Done? ==>
                  && p.buffer.data + Stream(p.script) == b.data + Stream(script)
                  && |b.data| <= |p.buffer.data| <= MAX_BUFFR && need <= |p.buffer.data|)
    decreases MAX_BUFFR - |b.data|
  {
    hide Stream;
    if |b.data| < need {
      var (got, rest) := Recv(script, MAX_BUFFR - |b.data|);
      RecvSplits(b.data, script);
      if got.Data? {
        BodyExact(b.(data := b.data + got.bytes), rest, need);
      }
    }
  }

  /** The body length a complete header section announces. */
  function Announced(s: seq<Byte>): int
    requires ParseMessage(RequestKind, s, MAX_HEADERS).Ok?
  {
    HeadersInBuffer(s);
    BodyLength(s, ParseMessage(RequestKind, s, MAX_HEADERS).value.headers)
  }

  /** `s` starts with a request and holds as much body as that announces. */
  predicate Fulfilled(s: seq<Byte>) {
    var r := ParseMessage(RequestKind, s, MAX_HEADERS);
    r.Ok? && r.pos + Announced(s) <= |s|
  }

  /** More bytes do not change what is announced. */
  lemma AnnouncedStays(s: seq<Byte>, t: seq<Byte>)
    requires s <= t && ParseMessage(RequestKind, s, MAX_HEADERS).Ok?
    ensures ParseMessage(RequestKind, t, MAX_HEADERS) == ParseMessage(RequestKind, s, MAX_HEADERS)
    ensures Announced(t) == Announced(s)
  {
    hide ParseMessage, BodyLength;
    ParseStable(RequestKind, s, t, MAX_HEADERS);
    HeadersInBuffer(s);
    BodyLengthExtends(s, t, ParseMessage(RequestKind, s, MAX_HEADERS).value.headers);
  }

  /** The request `s` starts with was served: its parse, and everything behind the
      header section that had arrived by then. */
  ghost predicate ServedFrom(p: Progress<Served>, s: seq<Byte>) {
    var r := ParseMessage(RequestKind, s, MAX_HEADERS);
    && p.stage.Done? && r.Ok?
    && p.stage.value.size == r.pos && p.stage.value.request == r.value
    && p.buffer.data <= s && r.pos <= |p.buffer.data| && r.pos + Announced(s) <= |p.buffer.data|
    && p.stage.value.body == p.buffer.data[r.pos..]
  }

  /** The body stage, from a header section that is in the buffer. */
  lemma FinishExact(p: Progress<Headed>, s: seq<Byte>)
    requires Consistent(p) && p.stage.Done? && s == Received(p.buffer.data, p.script)
    requires ParseMessage(RequestKind, p.buffer.data, MAX_HEADERS) == Ok(p.stage.value.size, p.stage.value.request)
    ensures ParseMessage(RequestKind, s, MAX_HEADERS) == ParseMessage(RequestKind, p.buffer.data, MAX_HEADERS)
    ensures Finish(p).stage.Done? <==> Fulfilled(s)
    ensures Fulfilled(s) ==> ServedFrom(Finish(p), s)
    ensures Fulfilled(s) ==>
              Finish(p).buffer.data + Stream(Finish(p).script) == p.buffer.data + Stream(p.script)
  {
    hide ParseMessage, BodyLength, ReadBody, Stream, InBuffer, Recv;
    AnnouncedStays(p.buffer.data, s);
    var need := p.stage.value.size + Announced(s);
    if need <= MAX_BUFFR {
      BodyExact(p.buffer, p.script, need);
    }
  }

  /** Whatever is served, from any buffer, is the request its final contents start with. */
  lemma ServedSound(b: Buffer, script: seq<Event>)
    requires InBounds(b) && ReadRequest(b, script).stage.Done?
    ensures var p := ReadRequest(b, script);
            && b.data < p.buffer.data <= b.data + Stream(script)
            && ServedFrom(p, p.buffer.data)
  {
    hide ParseMessage, BodyLength, ReadHeader, Stream, Finish, Announced, Phr;
    HeaderKeepsBounds(b, script);
    var h := ReadHeader(b, script);
    if !h.stage.Done? {
      FinishFails(h);
    }
    HeaderAccepts(b, script);
    var s := Received(h.buffer.data, h.script);
    FinishExact(h, s);
    var p := Finish(h);
    AnnouncedStays(h.buffer.data, s);
    FinishAppends(h);
    AnnouncedStays(h.buffer.data, p.buffer.data);
  }

  lemma FinishAppends(p: Progress<Headed>)
    requires Consistent(p)
    ensures InBounds(Finish(p).buffer) && p.buffer.data <= Finish(p).buffer.data
  {
    hide ReadBody, BodyLength, InBuffer;
    if p.stage.Done? {
      var expected := BodyLength(p.buffer.data, p.stage.value.request.headers);
      if expected <= MAX_BUFFR - p.stage.value.size {
        BodyKeepsBounds(p.buffer, p.script, p.stage.value.size + expected);
      }
    }
  }

  /** Which streams are served, from every buffer: exactly those whose bytes show a header
      section, in the sense above, and complete it with the announced body within the
      buffer. From the empty buffer the first part is just that they parse. */
  lemma ServedExactly(b: Buffer, script: seq<Event>)
    requires InBounds(b)
    ensures var s := Received(b.data, script);
            var p := ReadRequest(b, script);
            && (p.stage.Done? <==> Found(b.data, s) && Fulfilled(s))
            && (p.stage.Done? ==> ServedFrom(p, s) && p.buffer.data + Stream(p.script) == b.data + Stream(script))
  {
    hide ParseMessage, BodyLength, ReadHeader, Stream, Finish, Announced, Noticed;
    HeaderExact(b, script);
    HeaderKeepsBounds(b, script);
    var p := ReadHeader(b, script);
    if p.stage.Done? {
      FinishExact(p, Received(b.data, script));
    } else {
      FinishFails(p);
    }
  }

  lemma FinishFails(p: Progress<Headed>)
    requires Consistent(p) && !p.stage.Done?
    ensures !Finish(p).stage.Done? && Finish(p).buffer == p.buffer
  {
  }

  lemma NothingParsed()
    ensures ParseMessage(RequestKind, [], MAX_HEADERS) == Partial
  {
  }

  // ---------------------------------------------------------------- how much body

  /** Some receive ends with `len` bytes in the buffer. */
  ghost predicate Boundary(data: seq<Byte>, script: seq<Event>, len: int) {
    exists k :: 0 <= k <= |script| && |Received(data, script[..k])| == len
  }

  /** Boundaries are where the buffer stands now and the boundaries from the next
      receive on. */
  lemma BoundaryUnfold(data: seq<Byte>, script: seq<Event>, len: int)
    requires |data| <= MAX_BUFFR
    ensures var (got, rest) := Recv(script, MAX_BUFFR - |data|);
            Boundary(data, script, len) <==>
              len == |data| || (got.Data? && Boundary(data + got.bytes, rest, len))
  {
    hide Cut;
    var (got, rest) := Recv(script, MAX_BUFFR - |data|);
    NothingMore(data, script);
    if !got.Data? {
      forall k | 0 <= k <= |script|
        ensures Received(data, script[..k]) == data
      {
        NothingLater(data, script, k);
      }
    } else if |script[0].data| <= MAX_BUFFR - |data| {
      WholePiece(data, script, len);
    } else {
      PieceCut(data, script, len);
    }
    if len == |data| {
      assert |Received(data, script[..0])| == len;
    }
  }

  lemma NothingMore(data: seq<Byte>, script: seq<Event>)
    requires |data| <= MAX_BUFFR
    ensures Received(data, script[..0]) == data
  {
    assert data + [] == data;
  }

  lemma NothingLater(data: seq<Byte>, script: seq<Event>, k: nat)
    requires |data| <= MAX_BUFFR && k <= |script| && !Recv(script, MAX_BUFFR - |data|).0.Data?
    ensures Received(data, script[..k]) == data
  {
    if |data| < MAX_BUFFR {
      assert Stream(script[..k]) == [];
      assert data + [] == data;
    }
  }

  lemma WholePiece(data: seq<Byte>, script: seq<Event>, len: int)
    requires |data| <= MAX_BUFFR && script != [] && script[0].Bytes? && script[0].data != []
    requires |data + script[0].data| <= MAX_BUFFR
    ensures Boundary(data, script, len) <==>
              len == |data| || Boundary(data + script[0].data, script[1..], len)
  {
    hide Cut;
    var piece, more := script[0].data, script[1..];
    NothingMore(data, script);
    forall k | 0 < k <= |script|
      ensures Received(data, script[..k]) == Received(data + piece, more[..k - 1])
    {
      assert script[..k][1..] == more[..k - 1];
      assert data + (piece + Stream(more[..k - 1])) == data + piece + Stream(more[..k - 1]);
    }
    forall k | 0 <= k <= |more|
      ensures Received(data + piece, more[..k]) == Received(data, script[..k + 1])
    {
    }
  }

  lemma PieceCut(data: seq<Byte>, script: seq<Event>, len: int)
    requires |data| < MAX_BUFFR && script != [] && script[0].Bytes?
    requires |data + script[0].data| > MAX_BUFFR
    ensures var (got, rest) := Recv(script, MAX_BUFFR - |data|);
            && got.Data?
            && (Boundary(data, script, len) <==> len == |data| || Boundary(data + got.bytes, rest, len))
  {
    var (got, rest) := Recv(script, MAX_BUFFR - |data|);
    NothingMore(data, script);
    forall k | 0 < k <= |script|
      ensures |Received(data, script[..k])| == MAX_BUFFR
    {
      assert script[..k][0] == script[0];
    }
    var full := data + got.bytes;
    forall k | 0 <= k <= |rest|
      ensures |Received(full, rest[..k])| == MAX_BUFFR
    {
    }
    assert |Received(data, script[..1])| == MAX_BUFFR && |Received(full, rest[..0])| == MAX_BUFFR;
  }

  lemma {:induction false} HeaderStops(b: Buffer, script: seq<Event>, len: int)
    requires InBounds(b) && ReadHeader(b, script).stage.Done?
    requires !ParseMessage(RequestKind, b.data, MAX_HEADERS).Ok?
    requires ReadHeader(b, script).stage.value.size <= len
    ensures Boundary(b.data, script, len) <==>
              Boundary(ReadHeader(b, script).buffer.data, ReadHeader(b, script).script, len)
    decreases MAX_BUFFR - |b.data|
  {
    hide ParseMessage, Phr, Boundary;
    var (got, rest) := Recv(script, MAX_BUFFR - |b.data|);
    var b1 := Buffer(b.data + got.bytes, |b.data|);
    BoundaryUnfold(b.data, script, len);
    HeaderExact(b, script);
    EndsBehind(b.data, Received(b.data, script));
    if Phr(RequestKind, b1.data, MAX_HEADERS, b1.lastLen).Partial? {
      NotYetParsed(b, got.bytes, script, rest);
      HeaderStops(b1, rest, len);
    }
  }

  /** While the loop goes on, the buffer does not parse. */
  lemma NotYetParsed(b: Buffer, bytes: seq<Byte>, script: seq<Event>, rest: seq<Event>)
    requires InBounds(b) && !ParseMessage(RequestKind, b.data, MAX_HEADERS).Ok?
    requires Recv(script, MAX_BUFFR - |b.data|) == (Data(bytes), rest)
    requires Phr(RequestKind, b.data + bytes, MAX_HEADERS, |b.data|).Partial?
    ensures !ParseMessage(RequestKind, b.data + bytes, MAX_HEADERS).Ok?
  {
    hide ParseMessage, Phr;
    var t := b.data + bytes;
    if ParseMessage(RequestKind, t, MAX_HEADERS).Ok? {
      EndsBehind(b.data, t);
      ShortcutTransparent(RequestKind, t, MAX_HEADERS, |b.data|);
    }
  }

  lemma {:induction false} BodyStops(b: Buffer, script: seq<Event>, need: int)
    requires InBounds(b) && need <= MAX_BUFFR && ReadBody(b, script, need).stage.Done?
    ensures |ReadBody(b, script, need).buffer.data| == need <==> Boundary(b.data, script, need)
    decreases MAX_BUFFR - |b.data|
  {
    hide Boundary;
    BoundaryUnfold(b.data, script, need);
    var (got, rest) := Recv(script, MAX_BUFFR - |b.data|);
    if |b.data| < need {
      BodyStops(b.(data := b.data + got.bytes), rest, need);
    } else if |b.data| > need {
      NoBoundaryBelow(b.data, script, need);
    }
  }

  lemma NoBoundaryBelow(data: seq<Byte>, script: seq<Event>, len: int)
    requires len < |data| <= MAX_BUFFR
    ensures !Boundary(data, script, len)
  {
    forall k | 0 <= k <= |script|
      ensures |Received(data, script[..k])| > len
    {
    }
  }

  /** The body handed over is the announced one, and no byte more, exactly if some
      receive ended right behind it. */
  lemma BodyLengthExact(script: seq<Event>)
    requires ReadRequest(EMPTY, script).stage.Done?
    ensures var s := Received([], script);
            var r := ParseMessage(RequestKind, s, MAX_HEADERS);
            && r.Ok?
            && (|ReadRequest(EMPTY, script).stage.value.body| == Announced(s) <==>
                  Announced(s) >= 0 && Boundary([], script, r.pos + Announced(s)))
  {
    hide ParseMessage, ReadHeader, ReadBody, BodyLength, Boundary, Stream, InBuffer;
    NothingParsed();
    ServedExactly(EMPTY, script);
    HeaderExact(EMPTY, script);
    HeaderKeepsBounds(EMPTY, script);
    var s := Received([], script);
    var p := ReadHeader(EMPTY, script);
    AnnouncedStays(p.buffer.data, s);
    var need := p.stage.value.size + Announced(s);
    if Announced(s) >= 0 {
      HeaderStops(EMPTY, script, need);
      BodyStops(p.buffer, p.script, need);
    }
  }
}
