/** What a worker carries from one connection into the next. The buffer is emptied only
    after a request was processed, so every other connection leaves its bytes behind. */
module Carryover {
  import opened Bytes
  import opened Wrappers
  import opened HttpLimits
  import opened HttpSyntax
  import opened HttpStability
  import opened HttpIncremental
  import opened HttpCompletion
  import opened HttpSound
  import opened HttpText
  import ContentLength
  import opened Reader
  import opened Reception
  import opened Assembly

  // ---------------------------------------------------------------- runs of connections

  lemma ConnectionKeepsBounds(b: Buffer, c: Connection)
    requires InBounds(b)
    ensures InBounds(AfterConnection(b, c))
    ensures !ReadRequest(b, c.script).stage.Done? ==> b.data <= AfterConnection(b, c).data
  {
    hide ReadHeader, Finish, ParseMessage;
    HeaderKeepsBounds(b, c.script);
    FinishAppends(ReadHeader(b, c.script));
  }

  /** The buffer after a run of connections. */
  function Carried(b: Buffer, run: seq<Connection>): Buffer
    requires InBounds(b)
    decreases |run|
  {
    if run == [] then b
    else
      ConnectionKeepsBounds(b, run[0]);
      Carried(AfterConnection(b, run[0]), run[1..])
  }

  /** Whatever connections arrive and whatever `recv` returns, the lengths stay inside
      the buffer. */
  lemma {:induction false} RunKeepsBounds(b: Buffer, run: seq<Connection>)
    requires InBounds(b)
    ensures InBounds(Carried(b, run))
    ensures Carried(b, run).lastLen <= |Carried(b, run).data| <= 8192
    decreases |run|
  {
    hide AfterConnection;
    if run != [] {
      ConnectionKeepsBounds(b, run[0]);
      RunKeepsBounds(AfterConnection(b, run[0]), run[1..]);
    }
  }

  /** A peer that sends some bytes and closes. */
  function Leaving(data: seq<Byte>): Connection {
    Connection([Event.Bytes(data), Closed], false)
  }

  /** All of them stay in the buffer. */
  lemma LeavesAll(b: Buffer, data: seq<Byte>)
    requires InBounds(b) && |b.data| + |data| <= MAX_BUFFR
    ensures AfterConnection(b, Leaving(data)).data == b.data + data
  {
    hide Phr, ParseMessage, ContentLength.BodyLength;
    var script := Leaving(data).script;
    assert script[1..] == [Closed];
    HeaderKeepsBounds(b, script);
    if data == [] {
      assert ReadHeader(b, script).buffer == b;
      assert b.data + data == b.data;
    } else {
      var b1 := Buffer(b.data + data, |b.data|);
      assert ReadHeader(b1, [Closed]).buffer == b1;
      var h := ReadHeader(b, script);
      assert h.buffer == b1;
      if h.stage.Done? {
        ClosedBody(h);
      }
    }
  }

  lemma ClosedBody(h: Progress<Headed>)
    requires Consistent(h) && h.stage.Done? && h.script == [Closed]
    ensures Finish(h).buffer == h.buffer
  {
    hide ContentLength.BodyLength, ContentLength.InBuffer;
  }

  /** Every buffer contents can come about: all that follows about arbitrary buffers is
      about reachable ones. */
  lemma EveryBufferIsReachable(data: seq<Byte>)
    requires |data| <= MAX_BUFFR
    ensures Carried(EMPTY, [Leaving(data)]).data == data
  {
    hide AfterConnection;
    LeavesAll(EMPTY, data);
    assert [] + data == data;
    CarriedOne(EMPTY, Leaving(data));
  }

  lemma CarriedOne(b: Buffer, c: Connection)
    requires InBounds(b)
    ensures Carried(b, [c]) == AfterConnection(b, c)
  {
    hide AfterConnection;
    ConnectionKeepsBounds(b, c);
    assert [c][1..] == [];
  }

  // ---------------------------------------------------------------- clean connections

  /** A connection that leaves an empty buffer empty, by what it sends: nothing, or a
      request with all the body it announces, which is then processed. */
  predicate Clean(c: Connection) {
    var s := Received([], c.script);
    s == [] || (Fulfilled(s) && c.processed)
  }

  lemma CleanExactly(c: Connection)
    ensures AfterConnection(EMPTY, c).data == [] <==> Clean(c)
    ensures Clean(c) ==> AfterConnection(EMPTY, c) == EMPTY
  {
    hide ReadHeader, Finish, ParseMessage, Announced, Recv, Stream;
    NothingParsed();
    ServedExactly(EMPTY, c.script);
    HeaderKeepsBounds(EMPTY, c.script);
    var h := ReadHeader(EMPTY, c.script);
    FinishAppends(h);
    FirstReceive(c.script);
    if !h.stage.Done? {
      FinishFails(h);
    }
  }

  /** Bytes once received stay in the buffer; without any it stays as it is. */
  lemma FirstReceive(script: seq<Event>)
    ensures var s, h := Received([], script), ReadHeader(EMPTY, script);
            if s == [] then h.buffer == EMPTY && !h.stage.Done? else h.buffer.data != []
  {
    hide Phr, ParseMessage, Recv, Stream;
    RecvSplits([], script);
    var (got, rest) := Recv(script, MAX_BUFFR);
    if got.Data? {
      HeaderKeepsBounds(Buffer([] + got.bytes, 0), rest);
    }
  }

  /** Exactly when every connection of a run is read from an empty buffer. */
  lemma {:induction false} CleanRunExactly(run: seq<Connection>)
    ensures (forall k :: 0 <= k <= |run| ==> Carried(EMPTY, run[..k]).data == [])
            <==> forall i :: 0 <= i < |run| ==> Clean(run[i])
    decreases |run|
  {
    hide AfterConnection, Clean;
    if run != [] {
      var c, more := run[0], run[1..];
      CleanExactly(c);
      assert run[..1] == [c];
      CarriedOne(EMPTY, c);
      if Clean(c) {
        CleanRunExactly(more);
        forall k | 0 < k <= |run|
          ensures Carried(EMPTY, run[..k]) == Carried(EMPTY, more[..k - 1])
        {
          assert run[..k][1..] == more[..k - 1];
        }
        forall k | 0 <= k <= |more|
          ensures Carried(EMPTY, more[..k]) == Carried(EMPTY, run[..k + 1])
        {
        }
        assert forall i :: 0 < i < |run| ==> run[i] == more[i - 1];
        assert forall i :: 0 <= i < |more| ==> more[i] == run[i + 1];
      }
    }
  }

  // ---------------------------------------------------------------- harmless leftovers

  /** How much of the leftover is skipped as a line break. */
  function Skipped(left: seq<Byte>): nat {
    if left != [] && left[0] == LF then 1
    else if |left| > 1 && left[..2] == CRLF then 2
    else 0
  }

  /** Where the method of the next request comes from, for every leftover: from the bytes
      of the next peer if and only if at most one line break was left over. Otherwise its
      first byte is a leftover one. */
  lemma LeftoverJoinsNextRequest(b: Buffer, script: seq<Event>)
    requires InBounds(b) && Stream(script) != [] && TokenChar(Stream(script)[0])
    requires ReadRequest(b, script).stage.Done?
    ensures var p := ReadRequest(b, script);
            var m := p.stage.value.request;
            && m.Request? && GoodToken(p.buffer.data, m.method_)
            && m.method_.start == Skipped(b.data)
            && (|b.data| <= m.method_.start <==> Skippable(b.data))
            && (!Skippable(b.data) ==> p.buffer.data[m.method_.start] == b.data[m.method_.start])
  {
    hide ParseRequest, ReadRequest, Stream, GoodToken, TokenChar, Announced;
    ServedSound(b, script);
    var d := ReadRequest(b, script).buffer.data;
    MethodStart(d, MAX_HEADERS);
    NextByte(b.data, d, Stream(script));
    TokenCharPlain(d[|b.data|]);
    BreakBefore(b.data, d);
  }

  lemma NextByte(a: seq<Byte>, d: seq<Byte>, more: seq<Byte>)
    requires a < d <= a + more && more != []
    ensures d[|a|] == more[0]
  {
    assert d[|a|] == (a + more)[|a|];
  }

  lemma BreakBefore(left: seq<Byte>, d: seq<Byte>)
    requires left < d && d[|left|] != CR && d[|left|] != LF && Break(d, 0).Ok?
    ensures Break(d, 0).pos == Skipped(left)
    ensures |left| <= Skipped(left) <==> Skippable(left)
    ensures !Skippable(left) ==> d[Skipped(left)] == left[Skipped(left)]
  {
    assert forall i :: 0 <= i < |left| ==> d[i] == left[i];
    if |left| > 1 {
      assert left[..2] == [left[0], left[1]];
    }
  }

  lemma NoSpaceScan(junk: seq<Byte>)
    requires TokenText(junk)
    ensures Scan(junk, 0, AtTokenEnd(SP)) == |junk|
  {
    ScanUnique(junk, 0, AtTokenEnd(SP), |junk|);
  }

  lemma TokensArePartial(left: seq<Byte>)
    requires TokenText(left)
    ensures ParseMessage(RequestKind, left, MAX_HEADERS) == Partial
  {
    hide Scan, TokenChar;
    TokenCharPlain(left[0]);
    NoSpaceScan(left);
    assert MethodAndTarget(left, 0) == Partial;
  }

  /** A connection that breaks off inside its method leaves its bytes behind. */
  lemma BrokenOffLeavesBytes(left: seq<Byte>, processed: bool)
    requires TokenText(left) && |left| < MAX_BUFFR
    ensures var c := Connection([Event.Bytes(left), Closed], processed);
            && ReadRequest(EMPTY, c.script).stage == Lost
            && AfterConnection(EMPTY, c).data == left
  {
    hide ParseMessage, TokenText;
    TokensArePartial(left);
    var script := [Event.Bytes(left), Closed];
    assert script[1..] == [Closed] && [] + left == left;
    assert ReadHeader(Buffer(left, 0), [Closed]).stage == Lost;
  }

  /** One request line that is too long leaves a full buffer. */
  lemma OverlongRequestFills(junk: seq<Byte>, processed: bool)
    requires |junk| == MAX_BUFFR && TokenText(junk)
    ensures var c := Connection([Event.Bytes(junk)], processed);
            && ReadRequest(EMPTY, c.script).stage == Refused(400)
            && |AfterConnection(EMPTY, c).data| == MAX_BUFFR
  {
    hide ParseMessage, TokenText;
    TokensArePartial(junk);
    assert [] + junk == junk;
  }

  /** For leftovers made of token characters: the next request is served, with the
      leftover in front of its method. */
  lemma TokensPrepend(b: Buffer, r: Sent, script: seq<Event>)
    requires InBounds(b) && TokenText(b.data) && WellFormed(r)
    requires |b.data| + |HeaderText(r)| + |r.body| <= MAX_BUFFR && Stream(script) == HeaderText(r) + r.body
    ensures AsSent(ReadRequest(b, script), r.(method_ := b.data + r.method_))
  {
    hide ParseMessage, ReadRequest, Stream, SaysRequest, RequestText, Announces, TokenChar;
    var longer := r.(method_ := b.data + r.method_);
    LongerMethod(b.data, r);
    var s := HeaderText(longer) + r.body;
    assert b.data + Stream(script) == s;
    assert [] + HeaderText(longer) + r.body == s;
    TokensArePartial(b.data);
    RequestRoundTrip([], longer.method_, r.path, r.minor, r.fields, MAX_HEADERS, r.body);
    PrintedAnnounces(s, longer, |r.body|);
    ServedExactly(b, script);
    var p := ReadRequest(b, script);
    AllTaken(p.buffer.data, Stream(p.script), s);
    assert s[|HeaderText(longer)|..] == r.body;
  }

  lemma LongerMethod(left: seq<Byte>, r: Sent)
    requires r.minor <= 9
    ensures left + HeaderText(r) == HeaderText(r.(method_ := left + r.method_))
  {
    hide FieldLines;
    var tail := [SP] + r.path + [SP] + (VERSION_PREFIX + [48 + r.minor]) + CRLF + (FieldLines(r.fields) + CRLF);
    assert HeaderText(r) == r.method_ + tail;
    assert HeaderText(r.(method_ := left + r.method_)) == left + r.method_ + tail;
    assert left + (r.method_ + tail) == left + r.method_ + tail;
  }

  /** A request, small enough to fit behind a line break, is sent next. */
  ghost predicate Follows(r: Sent, script: seq<Event>) {
    && WellFormed(r) && |HeaderText(r)| + |r.body| + 2 <= MAX_BUFFR
    && Stream(script) == HeaderText(r) + r.body
  }

  /** The harmless leftovers, over all buffers: the next request comes out as it was
      sent, whatever it is and however it arrives, if and only if nothing or one line
      break was left over. */
  lemma HarmlessExactly(b: Buffer)
    requires InBounds(b)
    ensures (forall r, script :: Follows(r, script) ==> AsSent(ReadRequest(b, script), r))
            <==> Skippable(b.data)
  {
    hide ReadRequest, WellFormed, WellFormedHead, HeaderText, AsSent, Stream;
    if Skippable(b.data) {
      forall r, script | Follows(r, script)
        ensures AsSent(ReadRequest(b, script), r)
      {
        PrintedEndToEnd(b, r, script);
      }
    } else {
      var r1, script1 := ShortRequest(65);
      var r2, script2 := ShortRequest(66);
      if AsSent(ReadRequest(b, script1), r1) && AsSent(ReadRequest(b, script2), r2) {
        MethodByte(b, r1, script1);
        MethodByte(b, r2, script2);
      }
    }
  }

  /** A request with a method of one letter. */
  lemma ShortRequest(letter: Byte) returns (r: Sent, script: seq<Event>)
    requires TokenChar(letter)
    ensures Follows(r, script) && r.method_ == [letter]
    ensures Stream(script) != [] && TokenChar(Stream(script)[0])
  {
    r := Sent([letter], [47], 0, [], []);
    assert Announces(r.fields, 0);
    var text := HeaderText(r);
    assert text == [letter] + text[1..];
    script := [Event.Bytes(text)];
    assert script[1..] == [];
    assert text + [] == text;
  }

  lemma MethodByte(b: Buffer, r: Sent, script: seq<Event>)
    requires InBounds(b) && !Skippable(b.data) && |r.method_| == 1
    requires Stream(script) != [] && TokenChar(Stream(script)[0]) && AsSent(ReadRequest(b, script), r)
    ensures Skipped(b.data) < |b.data| && b.data[Skipped(b.data)] == r.method_[0]
  {
    hide ReadRequest, Stream, TokenChar, Says;
    LeftoverJoinsNextRequest(b, script);
    var p := ReadRequest(b, script);
    var w := p.stage.value.request.method_;
    assert Text(p.buffer.data, w)[0] == p.buffer.data[w.start];
  }

  // ---------------------------------------------------------------- a whole request left over

  /** A buffer that holds a complete header section, left when the body did not come or
      processing failed: nothing but that request is ever served from it. The next peer
      gets it answered, its own bytes taken for the body. */
  lemma LeftoverRequestAnswered(b: Buffer, script: seq<Event>)
    requires InBounds(b) && ParseMessage(RequestKind, b.data, MAX_HEADERS).Ok?
    requires ReadRequest(b, script).stage.Done?
    ensures var r := ParseMessage(RequestKind, b.data, MAX_HEADERS);
            var served := ReadRequest(b, script).stage.value;
            && served.size == r.pos && served.request == r.value
            && served.body <= b.data[r.pos..] + Stream(script)
            && |b.data| - r.pos < |served.body| && Announced(b.data) <= |served.body|
  {
    hide ParseMessage, ReadRequest, Announced, Stream;
    ServedSound(b, script);
    var d := ReadRequest(b, script).buffer.data;
    AnnouncedStays(b.data, d);
    var n := ParseMessage(RequestKind, b.data, MAX_HEADERS).pos;
    assert d[n..] <= (b.data + Stream(script))[n..] == b.data[n..] + Stream(script);
  }

  /** Exactly when a header section that was left over, alone or with some or all of its
      body, is served to the next peer: its bytes let the shortcut notice an empty line,
      and with what was left they fill the announced body. Otherwise the peer is refused,
      or its bytes are merely awaited. */
  lemma LeftoverServedExactly(b: Buffer, script: seq<Event>)
    requires InBounds(b) && ParseMessage(RequestKind, b.data, MAX_HEADERS).Ok?
    ensures var s := Received(b.data, script);
            var r := ParseMessage(RequestKind, b.data, MAX_HEADERS);
            && (ReadHeader(b, script).stage.Done? <==> Noticed(b.data, s))
            && (ReadRequest(b, script).stage.Done? <==>
                  Noticed(b.data, s) && r.pos + Announced(b.data) <= |s|)
  {
    hide ParseMessage, ReadHeader, ReadRequest, Announced, Stream, Noticed;
    var s := Received(b.data, script);
    AnnouncedStays(b.data, s);
    HeaderExact(b, script);
    ServedExactly(b, script);
  }

  /** With nothing behind the header section, any byte that arrives is enough for it to be
      noticed, and the body is taken from the bytes of the next peer alone. */
  lemma WholeLeftoverExactly(b: Buffer, script: seq<Event>)
    requires InBounds(b) && ParseMessage(RequestKind, b.data, MAX_HEADERS).Ok?
    requires ParseMessage(RequestKind, b.data, MAX_HEADERS).pos == |b.data|
    ensures var s := Received(b.data, script);
            && (Noticed(b.data, s) <==> |b.data| < MAX_BUFFR && Stream(script) != [])
            && (ReadRequest(b, script).stage.Done? <==>
                  && |b.data| < MAX_BUFFR && Stream(script) != []
                  && |b.data| + Announced(b.data) <= |s|)
            && (ReadRequest(b, script).stage.Done? ==>
                  ReadRequest(b, script).stage.value.body <= Stream(script))
  {
    hide ParseMessage, Phr, Announced, Stream, ReadRequest, FirstRevealing, ReadHeader, Recv;
    var s := Received(b.data, script);
    LeftoverServedExactly(b, script);
    RecvTakes(script, MAX_BUFFR - |b.data|);
    RecvSplits(b.data, script);
    ParseStable(RequestKind, b.data, s, MAX_HEADERS);
    ShortcutTransparent(RequestKind, s, MAX_HEADERS, |b.data|);
    NothingIsNoRequest(b.data);
    PhrExact(RequestKind, s, MAX_HEADERS, |b.data|);
    if ReadRequest(b, script).stage.Done? {
      LeftoverRequestAnswered(b, script);
      assert b.data[|b.data|..] + Stream(script) == Stream(script);
    }
  }

  /** With some body behind it, a peer whose bytes hold no line end does not get it served,
      nor anything else: they are added to the buffer and awaited. */
  lemma LeftoverCanBeMissed(b: Buffer, script: seq<Event>)
    requires InBounds(b) && ParseMessage(RequestKind, b.data, MAX_HEADERS).Ok?
    requires forall i :: Resume(|b.data|) <= i < |b.data| ==> b.data[i] != CR && b.data[i] != LF
    requires CR !in Stream(script) && LF !in Stream(script)
    ensures !ReadRequest(b, script).stage.Done?
  {
    hide ParseMessage, Announced, Stream, ReadRequest, FirstRevealing, ReadHeader;
    var s := Received(b.data, script);
    LeftoverServedExactly(b, script);
    forall i | Resume(|b.data|) <= i < |s|
      ensures s[i] != CR && s[i] != LF
    {
      assert s[i] == (b.data + Stream(script))[i];
    }
  }

  // ---------------------------------------------------------------- can it serve again?

  /** With `data` in the buffer, a receive that makes it `t` completes a request whose
      body fits. */
  predicate Serves(data: seq<Byte>, t: seq<Byte>) {
    && data < t && |t| <= MAX_BUFFR
    && Phr(RequestKind, t, MAX_HEADERS, |data|).Ok?
    && ParseMessage(RequestKind, t, MAX_HEADERS).Ok?
    && ParseMessage(RequestKind, t, MAX_HEADERS).pos + Announced(t) <= MAX_BUFFR
  }

  /** The next connection can be served if and only if some extension of the buffer is
      such a request. */
  lemma ServableExactly(b: Buffer)
    requires InBounds(b)
    ensures (exists script :: ReadRequest(b, script).stage.Done?) <==> exists t :: Serves(b.data, t)
  {
    hide ReadRequest, Serves;
    if script :| ReadRequest(b, script).stage.Done? {
      var t := ServedServes(b, script);
    }
    if t :| Serves(b.data, t) {
      var script := ServesServed(b, t);
    }
  }

  lemma ServedServes(b: Buffer, script: seq<Event>) returns (t: seq<Byte>)
    requires InBounds(b) && ReadRequest(b, script).stage.Done?
    ensures Serves(b.data, t)
  {
    hide ParseMessage, Phr, Announced, Stream, ReadHeader, Finish;
    HeaderKeepsBounds(b, script);
    var h := ReadHeader(b, script);
    if !h.stage.Done? {
      FinishFails(h);
    }
    t := h.buffer.data;
    HeaderAccepts(b, script);
    var s := Received(t, h.script);
    FinishExact(h, s);
    AnnouncedStays(t, s);
  }

  lemma ServesServed(b: Buffer, t: seq<Byte>) returns (script: seq<Event>)
    requires InBounds(b) && Serves(b.data, t)
    ensures ReadRequest(b, script).stage.Done?
  {
    hide ParseMessage, Phr, Announced, Finish;
    var n := |b.data|;
    var need := ParseMessage(RequestKind, t, MAX_HEADERS).pos + Announced(t);
    var fill := Filler(if need > |t| then need - |t| else 0);
    script := [Event.Bytes(t[n..])] + fill;
    assert script[1..] == fill;
    assert b.data + t[n..] == t;
    PhrIsParse(t, n);
    HeaderKeepsBounds(b, script);
    var h := ReadHeader(b, script);
    assert h.buffer.data == t && h.script == fill;
    var s := Received(t, fill);
    FinishExact(h, s);
    AnnouncedStays(t, s);
  }

  lemma Filler(n: nat) returns (script: seq<Event>)
    ensures |Stream(script)| == n
  {
    script := [Event.Bytes(seq(n, _ => SP))];
    assert script[1..] == [];
  }

  /** Some later connection, not only the next, can be served if and only if some
      extension of the buffer can be extended so. */
  lemma EverServedExactly(b: Buffer)
    requires InBounds(b)
    ensures (exists run, script :: ServedAfter(b, run, script)) <==>
            exists data, t :: b.data <= data && Serves(data, t)
  {
    hide Serves;
    if run, script :| ServedAfter(b, run, script) {
      var data, t := FirstServed(b, run, script);
    }
    if data, t :| b.data <= data && Serves(data, t) {
      var run, script := BringAbout(b, data, t);
    }
  }

  ghost predicate ServedAfter(b: Buffer, run: seq<Connection>, script: seq<Event>)
    requires InBounds(b)
  {
    RunKeepsBounds(b, run);
    ReadRequest(Carried(b, run), script).stage.Done?
  }

  lemma {:induction false} FirstServed(b: Buffer, run: seq<Connection>, script: seq<Event>)
    returns (data: seq<Byte>, t: seq<Byte>)
    requires InBounds(b) && ServedAfter(b, run, script)
    ensures b.data <= data && Serves(data, t)
    decreases |run|
  {
    hide ReadRequest, AfterConnection, Serves;
    if run == [] || ReadRequest(b, run[0].script).stage.Done? {
      data := b.data;
      t := ServedServes(b, if run == [] then script else run[0].script);
    } else {
      ConnectionKeepsBounds(b, run[0]);
      data, t := FirstServed(AfterConnection(b, run[0]), run[1..], script);
    }
  }

  lemma BringAbout(b: Buffer, data: seq<Byte>, t: seq<Byte>)
    returns (run: seq<Connection>, script: seq<Event>)
    requires InBounds(b) && b.data <= data && Serves(data, t)
    ensures ServedAfter(b, run, script)
  {
    hide ReadRequest, AfterConnection, Phr, ParseMessage, Announced;
    var c := Leaving(data[|b.data|..]);
    assert b.data + data[|b.data|..] == data;
    LeavesAll(b, data[|b.data|..]);
    run := [c];
    CarriedOne(b, c);
    ConnectionKeepsBounds(b, c);
    script := ServesServed(AfterConnection(b, c), t);
  }

  /** Malformed bytes disable a worker for good: from a buffer that the parser refuses,
      no connection is ever served again. */
  lemma {:induction false} NeverServedAgain(b: Buffer, run: seq<Connection>, script: seq<Event>)
    requires InBounds(b) && ParseMessage(RequestKind, b.data, MAX_HEADERS).Bad?
    ensures !ServedAfter(b, run, script)
  {
    hide ParseMessage, Phr, Announced;
    if ServedAfter(b, run, script) {
      var data, t := FirstServed(b, run, script);
      ParseStable(RequestKind, b.data, t, MAX_HEADERS);
    }
  }

  /** So do partial requests without a future, and those whose shortest completion does
      not fit any more. */
  lemma HopelessIsFinal(b: Buffer, run: seq<Connection>, script: seq<Event>)
    requires InBounds(b) && !ParseMessage(RequestKind, b.data, MAX_HEADERS).Ok?
    requires Missing(b.data, MAX_HEADERS) == None
             || |b.data| + Missing(b.data, MAX_HEADERS).value > MAX_BUFFR
    ensures !ServedAfter(b, run, script)
  {
    hide Phr, Announced, Missing, ParseRequest;
    if ServedAfter(b, run, script) {
      var data, t := FirstServed(b, run, script);
      NothingShorter(b.data, t, MAX_HEADERS);
      if Missing(b.data, MAX_HEADERS) == Some(0) {
        NothingMissing(b.data, MAX_HEADERS);
      }
    }
  }

  /** As long as the request line is not complete, exactly when a later connection can be
      served: the bytes still agree with a request, and its shortest completion fits. */
  lemma FutureExactly(b: Buffer)
    requires InBounds(b) && Unstarted(b.data)
    ensures (exists run, script :: ServedAfter(b, run, script)) <==>
            && Missing(b.data, MAX_HEADERS).Some?
            && |b.data| + Missing(b.data, MAX_HEADERS).value <= MAX_BUFFR
  {
    hide Missing, ParseRequest, Serves, ServedAfter, Unstarted;
    NotYetARequest(b.data);
    forall run, script | ServedAfter(b, run, script)
      ensures && Missing(b.data, MAX_HEADERS).Some?
              && |b.data| + Missing(b.data, MAX_HEADERS).value <= MAX_BUFFR
    {
      if Missing(b.data, MAX_HEADERS) == None || |b.data| + Missing(b.data, MAX_HEADERS).value > MAX_BUFFR {
        HopelessIsFinal(b, run, script);
      }
    }
    if Missing(b.data, MAX_HEADERS).Some? && |b.data| + Missing(b.data, MAX_HEADERS).value <= MAX_BUFFR {
      var t := ShortestServes(b.data);
      var run, script := BringAbout(b, b.data, t);
    }
  }

  lemma NotYetARequest(s: seq<Byte>)
    requires Unstarted(s)
    ensures !ParseMessage(RequestKind, s, MAX_HEADERS).Ok?
  {
    hide ParseRequest, Unstarted;
    if ParseMessage(RequestKind, s, MAX_HEADERS).Ok? {
      LineOfParse(s, MAX_HEADERS);
    }
  }

  lemma ShortestServes(data: seq<Byte>) returns (t: seq<Byte>)
    requires Unstarted(data) && Missing(data, MAX_HEADERS).Some?
    requires |data| + Missing(data, MAX_HEADERS).value <= MAX_BUFFR
    ensures Serves(data, t)
  {
    hide Missing, ParseRequest, Unstarted, Phr;
    var c := RequestCompletes(data, MAX_HEADERS);
    t := data + c;
    ShortestHasNoFields(data, c, MAX_HEADERS);
    NonZero(data, MAX_HEADERS);
    NothingShorter(data, t, MAX_HEADERS);
    ShortcutTransparent(RequestKind, t, MAX_HEADERS, |data|);
  }

  /** One malformed request is enough. */
  lemma MalformedIsFinal(bad: seq<Byte>, run: seq<Connection>, script: seq<Event>)
    requires |bad| <= MAX_BUFFR && ParseMessage(RequestKind, bad, MAX_HEADERS).Bad?
    ensures !ServedAfter(EMPTY, [Leaving(bad)] + run, script)
  {
    hide ParseMessage, AfterConnection, ReadRequest;
    LeavesAll(EMPTY, bad);
    assert [] + bad == bad;
    var b := AfterConnection(EMPTY, Leaving(bad));
    ConnectionKeepsBounds(EMPTY, Leaving(bad));
    assert ([Leaving(bad)] + run)[1..] == run;
    NeverServedAgain(b, run, script);
  }

  /** So does a full buffer: its zero-byte reads look like closed connections, and
      nothing ever empties it. */
  lemma {:induction false} FullBufferIsFinal(b: Buffer, run: seq<Connection>)
    requires InBounds(b) && |b.data| == MAX_BUFFR
    ensures Carried(b, run) == b
    ensures forall i :: 0 <= i < |run| ==> ReadRequest(b, run[i].script).stage == Lost
    decreases |run|
  {
    if run != [] {
      FullBufferIsFinal(b, run[1..]);
      forall i | 0 <= i < |run|
        ensures ReadRequest(b, run[i].script).stage == Lost
      {
        assert i > 0 ==> run[i] == run[1..][i - 1];
      }
    }
  }
}
