/** The per-connection read loops of a worker (`thread_function`, src/server.c), as a
    function of what the network delivers. */
module Reader {
  import opened Bytes
  import opened HttpLimits
  import opened HttpSyntax
  import opened HttpSound
  import opened ContentLength

  /** What the peer and the network do, in order. */
  datatype Event = Bytes(data: seq<Byte>) | Closed | Failed(timeout: bool)

  /** What one `recv` returns. */
  datatype Got = Data(bytes: seq<Byte>) | Zero | Error(timeout: bool)

  /** A `recv` with room for `room` bytes, and the events left behind. A zero-byte
      request returns zero; an exhausted script is a closed connection. */
  function Recv(script: seq<Event>, room: nat): (r: (Got, seq<Event>))
    ensures r.0.Data? ==> 0 < |r.0.bytes| <= room
  {
    if room == 0 || script == [] then (Zero, script)
    else
      match script[0]
      case Closed => (Zero, script[1..])
      case Failed(timeout) => (Error(timeout), script[1..])
      case Bytes(data) =>
        if data == [] then (Zero, script[1..])
        else if |data| <= room then (Data(data), script[1..])
        else (Data(data[..room]), [Bytes(data[room..])] + script[1..])
  }

  /** The buffer contents and the length given to the parser last. */
  datatype Buffer = Buffer(data: seq<Byte>, lastLen: nat)

  const EMPTY: Buffer := Buffer([], 0)

  predicate InBounds(b: Buffer) {
    b.lastLen <= |b.data| <= MAX_BUFFR
  }

  /** How a stage ended: the connection is lost, refused with a status, or goes on. */
  datatype Stage<+T> = Lost | Refused(status: nat) | Done(value: T)

  datatype Progress<+T> = Progress(buffer: Buffer, script: seq<Event>, stage: Stage<T>)

  /** Size of the header section and the parsed request. */
  datatype Headed = Headed(size: nat, request: Message)

  /** Reads and parses until the header section is complete. */
  function ReadHeader(b: Buffer, script: seq<Event>): Progress<Headed>
    requires InBounds(b)
    decreases MAX_BUFFR - |b.data|
  {
    var (got, rest) := Recv(script, MAX_BUFFR - |b.data|);
    match got
    case Zero => Progress(b, rest, Lost)
    case Error(timeout) => Progress(b, rest, if timeout then Lost else Refused(500))
    case Data(bytes) =>
      var b1 := Buffer(b.data + bytes, |b.data|);
      match Phr(RequestKind, b1.data, MAX_HEADERS, b1.lastLen)
      case Bad => Progress(b1, rest, Refused(400))
      case Ok(n, request) => Progress(b1, rest, Done(Headed(n, request)))
      case Partial =>
        if |b1.data| == MAX_BUFFR then Progress(b1, rest, Refused(400))
        else ReadHeader(b1, rest)
  }

  /** Reads until `need` bytes are in the buffer. */
  function ReadBody(b: Buffer, script: seq<Event>, need: int): Progress<()>
    requires InBounds(b) && need <= MAX_BUFFR
    decreases MAX_BUFFR - |b.data|
  {
    if |b.data| >= need then Progress(b, script, Done(()))
    else
      var (got, rest) := Recv(script, MAX_BUFFR - |b.data|);
      match got
      case Zero => Progress(b, rest, Lost)
      case Error(_) => Progress(b, rest, Refused(500))
      case Data(bytes) => ReadBody(b.(data := b.data + bytes), rest, need)
  }

  /** A request handed to processing. */
  datatype Served = Served(size: nat, request: Message, body: seq<Byte>)

  /** What the header stage leaves for the body stage. */
  predicate Consistent(p: Progress<Headed>) {
    && InBounds(p.buffer)
    && (p.stage.Done? ==>
          && p.stage.value.size <= |p.buffer.data|
          && InBuffer(p.buffer.data, p.stage.value.request.headers))
  }

  function Finish(p: Progress<Headed>): Progress<Served>
    requires Consistent(p)
  {
    match p.stage
    case Lost => Progress(p.buffer, p.script, Lost)
    case Refused(status) => Progress(p.buffer, p.script, Refused(status))
    case Done(h) =>
      var expected := BodyLength(p.buffer.data, h.request.headers);
      if expected > MAX_BUFFR - h.size then Progress(p.buffer, p.script, Refused(400))
      else
        BodyKeepsBounds(p.buffer, p.script, h.size + expected);
        var q := ReadBody(p.buffer, p.script, h.size + expected);
        match q.stage
        case Lost => Progress(q.buffer, q.script, Lost)
        case Refused(status) => Progress(q.buffer, q.script, Refused(status))
        case Done(_) => Progress(q.buffer, q.script, Done(Served(h.size, h.request, q.buffer.data[h.size..])))
  }

  /** Header stage, then body stage. */
  function ReadRequest(b: Buffer, script: seq<Event>): Progress<Served>
    requires InBounds(b)
  {
    HeaderKeepsBounds(b, script);
    Finish(ReadHeader(b, script))
  }

  /** One accepted connection: its traffic, and whether processing succeeds. */
  datatype Connection = Connection(script: seq<Event>, processed: bool)

  /** The buffer a worker carries into its next connection: emptied only when a
      request was served to the end. */
  function AfterConnection(b: Buffer, c: Connection): Buffer
    requires InBounds(b)
  {
    var p := ReadRequest(b, c.script);
    if p.stage.Done? && c.processed then EMPTY else p.buffer
  }

  // ---------------------------------------------------------------- bounds over whole runs

  /** Reading only appends, inside the buffer; a parsed request lies in it. */
  lemma {:induction false} HeaderKeepsBounds(b: Buffer, script: seq<Event>)
    requires InBounds(b)
    ensures var p := ReadHeader(b, script);
            && Consistent(p) && b.data <= p.buffer.data
            && (p.stage.Done? ==>
                  ParseMessage(RequestKind, p.buffer.data, MAX_HEADERS) ==
                  Ok(p.stage.value.size, p.stage.value.request))
    decreases MAX_BUFFR - |b.data|
  {
    hide ParseMessage, IsComplete;
    var (got, rest) := Recv(script, MAX_BUFFR - |b.data|);
    if got.Data? {
      var b1 := Buffer(b.data + got.bytes, |b.data|);
      var r := Phr(RequestKind, b1.data, MAX_HEADERS, b1.lastLen);
      if r.Ok? {
        HeadersInBuffer(b1.data);
      } else if r.Partial? && |b1.data| != MAX_BUFFR {
        HeaderKeepsBounds(b1, rest);
      }
    }
  }

  lemma HeadersInBuffer(s: seq<Byte>)
    requires ParseMessage(RequestKind, s, MAX_HEADERS).Ok?
    ensures InBuffer(s, ParseMessage(RequestKind, s, MAX_HEADERS).value.headers)
  {
    hide ParseMessage, GoodToken, GoodValue;
    ParseSound(RequestKind, s, MAX_HEADERS);
    var r := ParseMessage(RequestKind, s, MAX_HEADERS);
    var hs := r.value.headers;
    forall i | 0 <= i < |hs|
      ensures hs[i].value.End() <= |s| && (hs[i].name.Some? ==> hs[i].name.value.End() <= |s|)
    {
      assert GoodHeader(s, hs[i], true && i == 0);
    }
  }

  lemma {:induction false} BodyKeepsBounds(b: Buffer, script: seq<Event>, need: int)
    requires InBounds(b) && need <= MAX_BUFFR
    ensures var p := ReadBody(b, script, need);
            && InBounds(p.buffer) && b.data <= p.buffer.data && p.buffer.lastLen == b.lastLen
            && (p.stage.Done? ==> |p.buffer.data| >= need)
    decreases MAX_BUFFR - |b.data|
  {
    if |b.data| < need {
      var (got, rest) := Recv(script, MAX_BUFFR - |b.data|);
      if got.Data? {
        BodyKeepsBounds(b.(data := b.data + got.bytes), rest, need);
      }
    }
  }
}
