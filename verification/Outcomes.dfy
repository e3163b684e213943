/** How a connection ends, by the bytes and events it consists of: served, refused with a
    status, or given up without an answer. */
module Outcomes {
  import opened Bytes
  import opened HttpLimits
  import opened HttpSyntax
  import opened HttpIncremental
  import opened ContentLength
  import opened Reader
  import opened Reception

  /** What stops the bytes of a script: a close, or an error. */
  function Ending(script: seq<Event>): Got {
    if script == [] then Zero
    else
      match script[0]
      case Closed => Zero
      case Failed(timeout) => Error(timeout)
      case Bytes(data) => if data == [] then Zero else Ending(script[1..])
  }

  lemma EndingStays(script: seq<Event>, room: nat)
    requires room > 0
    ensures var (got, rest) := Recv(script, room);
            if got.Data? then Ending(rest) == Ending(script) else got == Ending(script)
  {
    var (got, rest) := Recv(script, room);
    if got.Data? && room < |script[0].data| {
      assert rest[1..] == script[1..];
    }
  }

  /** Buffer lengths after the successive receives. */
  function Cuts(data: seq<Byte>, script: seq<Event>): seq<nat>
    requires |data| <= MAX_BUFFR
    decreases MAX_BUFFR - |data|
  {
    var (got, rest) := Recv(script, MAX_BUFFR - |data|);
    if got.Data? then [|data + got.bytes|] + Cuts(data + got.bytes, rest) else []
  }

  lemma {:induction false} CutsGrow(data: seq<Byte>, script: seq<Event>)
    requires |data| <= MAX_BUFFR
    ensures var s, cuts := Received(data, script), Cuts(data, script);
            && Growing(cuts, |data|, |s|)
            && (cuts == [] <==> s == data)
            && (cuts != [] ==> cuts[|cuts| - 1] == |s|)
    decreases MAX_BUFFR - |data|
  {
    hide Stream, Recv;
    RecvSplits(data, script);
    var (got, rest) := Recv(script, MAX_BUFFR - |data|);
    if got.Data? {
      assert Received(data + got.bytes, rest) == Received(data, script);
      CutsGrow(data + got.bytes, rest);
    }
  }

  /** A receive without data while the header section is awaited. */
  function HeaderEnd<T>(got: Got): Stage<T> {
    match got
    case Error(timeout) => if timeout then Lost else Refused(500)
    case _ => Lost
  }

  /** The same while the body is awaited. */
  function BodyEnd<T>(got: Got): Stage<T> {
    match got
    case Error(_) => Refused(500)
    case _ => Lost
  }

  /** The end of the header loop, by the outcome of the calls of the parser. */
  function HeaderStage(r: Parse<Message>, before: nat, size: nat, end: Got): Stage<Headed> {
    match r
    case Ok(n, request) => Done(Headed(n, request))
    case Bad => Refused(400)
    case Partial =>
      if before == MAX_BUFFR then Lost
      else if size == MAX_BUFFR then Refused(400)
      else HeaderEnd(end)
  }

  lemma ReceiveFirst(s: seq<Byte>, cut: nat, more: seq<nat>, lastLen: nat)
    requires lastLen <= cut <= |s| && Growing(more, cut, |s|)
    ensures Growing([cut] + more, lastLen, |s|)
    ensures var r := Phr(RequestKind, s[..cut], MAX_HEADERS, lastLen);
            Receive(RequestKind, s, MAX_HEADERS, [cut] + more, lastLen) ==
            if r.Partial? then Receive(RequestKind, s, MAX_HEADERS, more, cut) else r
  {
    hide Phr;
    assert ([cut] + more)[1..] == more;
  }

  /** The header loop is a reception in the sense of the parser, cut where the receives
      ended, and its outcome follows from that. */
  lemma {:induction false} HeaderIsReception(b: Buffer, script: seq<Event>)
    requires InBounds(b)
    ensures var s, cuts := Received(b.data, script), Cuts(b.data, script);
            && Growing(cuts, |b.data|, |s|)
            && ReadHeader(b, script).stage ==
               HeaderStage(Receive(RequestKind, s, MAX_HEADERS, cuts, |b.data|), |b.data|, |s|, Ending(script))
    decreases MAX_BUFFR - |b.data|
  {
    hide ParseMessage, Phr, Stream, Recv, Receive, Growing;
    CutsGrow(b.data, script);
    var s := Received(b.data, script);
    var (got, rest) := Recv(script, MAX_BUFFR - |b.data|);
    RecvSplits(b.data, script);
    if got.Data? {
      var b1 := Buffer(b.data + got.bytes, |b.data|);
      EndingStays(script, MAX_BUFFR - |b.data|);
      assert Received(b1.data, rest) == s;
      assert s[..|b1.data|] == b1.data;
      CutsGrow(b1.data, rest);
      ReceiveFirst(s, |b1.data|, Cuts(b1.data, rest), |b.data|);
      if Phr(RequestKind, b1.data, MAX_HEADERS, b1.lastLen).Partial? {
        if |b1.data| == MAX_BUFFR {
          NoRoom(rest);
          ReceiveNone(s, MAX_BUFFR);
        } else {
          HeaderIsReception(b1, rest);
        }
      }
    } else {
      ReceiveNone(s, |b.data|);
      if |b.data| < MAX_BUFFR {
        EndingStays(script, MAX_BUFFR - |b.data|);
      } else {
        NoRoom(script);
      }
    }
  }

  lemma ReceiveNone(s: seq<Byte>, lastLen: nat)
    requires lastLen <= |s|
    ensures Growing([], lastLen, |s|) && Receive(RequestKind, s, MAX_HEADERS, [], lastLen) == Partial
  {
  }

  lemma NoRoom(script: seq<Event>)
    ensures Recv(script, 0).0 == Zero
  {
  }

  lemma {:induction false} BodyOutcome(b: Buffer, script: seq<Event>, need: int)
    requires InBounds(b) && need <= MAX_BUFFR
    ensures ReadBody(b, script, need).stage ==
            if need <= |Received(b.data, script)| then Done(()) else BodyEnd(Ending(script))
    decreases MAX_BUFFR - |b.data|
  {
    hide Stream, Recv;
    if |b.data| < need {
      var (got, rest) := Recv(script, MAX_BUFFR - |b.data|);
      RecvSplits(b.data, script);
      EndingStays(script, MAX_BUFFR - |b.data|);
      if got.Data? {
        assert Received(b.data + got.bytes, rest) == Received(b.data, script);
        BodyOutcome(b.(data := b.data + got.bytes), rest, need);
      }
    }
  }

  lemma {:induction false} HeaderKeepsEnding(b: Buffer, script: seq<Event>)
    requires InBounds(b) && ReadHeader(b, script).stage.Done?
    ensures Ending(ReadHeader(b, script).script) == Ending(script)
    decreases MAX_BUFFR - |b.data|
  {
    hide Phr, Recv;
    if |b.data| < MAX_BUFFR {
      EndingStays(script, MAX_BUFFR - |b.data|);
    } else {
      NoRoom(script);
    }
    var (got, rest) := Recv(script, MAX_BUFFR - |b.data|);
    var b1 := Buffer(b.data + got.bytes, |b.data|);
    if Phr(RequestKind, b1.data, MAX_HEADERS, b1.lastLen).Partial? {
      HeaderKeepsEnding(b1, rest);
    }
  }

  /** The body stage behind a header section that was found. */
  lemma FinishOutcome(p: Progress<Headed>, s: seq<Byte>)
    requires Consistent(p) && p.stage.Done? && s == Received(p.buffer.data, p.script)
    requires ParseMessage(RequestKind, p.buffer.data, MAX_HEADERS) == Ok(p.stage.value.size, p.stage.value.request)
    ensures ParseMessage(RequestKind, s, MAX_HEADERS).Ok?
    ensures var need := p.stage.value.size + Announced(s);
            if need > MAX_BUFFR then Finish(p).stage == Refused(400)
            else if need <= |s| then Finish(p).stage.Done?
            else Finish(p).stage == BodyEnd(Ending(p.script))
  {
    hide ParseMessage, BodyLength, ReadBody, Stream, InBuffer, Recv, Ending;
    AnnouncedStays(p.buffer.data, s);
    var need := p.stage.value.size + Announced(s);
    if need <= MAX_BUFFR {
      BodyOutcome(p.buffer, p.script, need);
    }
  }

  /** How a connection ends that starts from an empty buffer, for all bytes, pieces and
      events. If the bytes that arrive, at most 8192, start with a request: refused with 400
      if it announces more than fits, served if all of it is there, and otherwise refused
      with 500 after an error and given up after a close. If they do not: refused with 400
      if some call of the parser refuses or the buffer is full, with 500 after an error that
      is no timeout, and otherwise given up. */
  lemma OutcomeExactly(script: seq<Event>)
    ensures var s := Received([], script);
            var r := ParseMessage(RequestKind, s, 50);
            var stage := ReadRequest(EMPTY, script).stage;
            && Growing(Cuts([], script), 0, |s|)
            && if r.Ok? then
                 if r.pos + Announced(s) > 8192 then stage == Refused(400)
                 else if r.pos + Announced(s) <= |s| then stage.Done?
                 else stage == (if Ending(script).Error? then Refused(500) else Lost)
               else if SomeCallRefuses(RequestKind, s, 50, Cuts([], script), 0) || |s| == 8192 then
                 stage == Refused(400)
               else
                 stage == (if Ending(script) == Error(false) then Refused(500) else Lost)
  {
    hide ParseMessage, ReadHeader, Receive, SomeCallRefuses, Announced, Stream, Ending, Finish, Cuts;
    var s := Received([], script);
    var r := ParseMessage(RequestKind, s, MAX_HEADERS);
    CutsGrow([], script);
    HeaderIsReception(EMPTY, script);
    HeaderKeepsBounds(EMPTY, script);
    var p := ReadHeader(EMPTY, script);
    NothingParsed();
    HeaderExact(EMPTY, script);
    if r.Ok? {
      HeaderKeepsEnding(EMPTY, script);
      HeaderAccepts(EMPTY, script);
      FinishOutcome(p, s);
    } else {
      ReceiveRefuses(RequestKind, s, MAX_HEADERS, Cuts([], script), 0);
      FinishKeeps(p);
    }
  }

  lemma FinishKeeps(p: Progress<Headed>)
    requires Consistent(p) && !p.stage.Done?
    ensures p.stage == Lost ==> Finish(p).stage == Lost
    ensures p.stage.Refused? ==> Finish(p).stage == Refused(p.stage.status)
  {
  }
}
