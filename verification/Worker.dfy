/** A worker thread's receive buffer and read loops (`thread_function`, src/server.c). */
module Worker {
  import opened Bytes
  import opened HttpLimits
  import opened HttpSyntax
  import opened HttpParser
  import opened ContentLength
  import opened Reader

  /** A connected socket: the traffic still to come. */
  class Socket {
    var script: seq<Event>

    constructor (script: seq<Event>)
      ensures this.script == script
    {
      this.script := script;
    }

    /** `recv` into buf[at .. at + room): returns the number of bytes written there, 0
        when the peer closed, -1 on an error. Nothing else in the buffer changes. */
    method Receive(buf: array<Byte>, at: nat, room: nat) returns (n: int, timeout: bool)
      requires at + room <= buf.Length
      modifies this, buf
      ensures script == Recv(old(script), room).1
      ensures buf[..at] == old(buf[..at])
      ensures match Recv(old(script), room).0
              case Zero => n == 0
              case Error(t) => n == -1 && timeout == t
              case Data(bytes) => n == |bytes| && at + |bytes| <= buf.Length && buf[at..at + n] == bytes
      ensures forall i :: at + (if n > 0 then n else 0) <= i < buf.Length ==> buf[i] == old(buf[i])
    {
      var (got, rest) := Recv(script, room);
      script, timeout := rest, false;
      match got
      case Zero => n := 0;
      case Error(t) => n, timeout := -1, t;
      case Data(bytes) =>
        n := |bytes|;
        forall i | 0 <= i < |bytes| {
          buf[at + i] := bytes[i];
        }
        assert buf[at..at + n] == bytes;
    }
  }

  class Worker {
    const buff: array<Byte>
    var buffLen: nat
    var lastLen: nat

    ghost predicate Valid()
      reads this
    {
      buff.Length == MAX_BUFFR && lastLen <= buffLen <= MAX_BUFFR
    }

    ghost function Contents(): Buffer
      requires Valid()
      reads this, buff
    {
      Buffer(buff[..buffLen], lastLen)
    }

    constructor ()
      ensures Valid() && fresh(buff) && Contents() == Buffer([], 0)
    {
      buff := new Byte[MAX_BUFFR];
      buffLen, lastLen := 0, 0;
    }

    /** One receive into the free tail of the buffer. */
    method Fill(sock: Socket) returns (n: int, timeout: bool)
      requires Valid()
      modifies this`buffLen, buff, sock
      ensures Valid() && lastLen == old(lastLen)
      ensures var (got, rest) := Recv(old(sock.script), MAX_BUFFR - old(buffLen));
              && sock.script == rest
              && match got
                 case Zero => n == 0 && Contents() == old(Contents())
                 case Error(t) => n == -1 && timeout == t && Contents() == old(Contents())
                 case Data(bytes) => n > 0 && Contents() == Buffer(old(Contents()).data + bytes, lastLen)
    {
      n, timeout := sock.Receive(buff, buffLen, MAX_BUFFR - buffLen);
      if n > 0 {
        assert buff[..buffLen + n] == buff[..buffLen] + buff[buffLen..buffLen + n];
        buffLen := buffLen + n;
      }
    }

    /** The header loop. */
    method ReadHeaderSection(sock: Socket) returns (stage: Stage<Headed>)
      requires Valid()
      modifies this, buff, sock
      ensures Valid()
      ensures var p := ReadHeader(old(Contents()), old(sock.script));
              Contents() == p.buffer && sock.script == p.script && stage == p.stage
    {
      hide Recv, Phr;
      while true
        invariant Valid()
        invariant ReadHeader(old(Contents()), old(sock.script)) == ReadHeader(Contents(), sock.script)
        decreases MAX_BUFFR - buffLen
      {
        ghost var before, events := Contents(), sock.script;
        var len := buffLen;
        var n, timeout := Fill(sock);
        if n == 0 {
          return Lost;
        }
        if n == -1 {
          return if timeout then Lost else Refused(500);
        }
        lastLen := len;
        assert ReadHeader(before, events) ==
               match Phr(RequestKind, buff[..buffLen], MAX_HEADERS, lastLen)
               case Bad => Progress(Contents(), sock.script, Refused(400))
               case Ok(size, request) => Progress(Contents(), sock.script, Done(Headed(size, request)))
               case Partial =>
                 if buffLen == MAX_BUFFR then Progress(Contents(), sock.script, Refused(400))
                 else ReadHeader(Contents(), sock.script);
        var r := PhrParse(RequestKind, buff[..buffLen], MAX_HEADERS, lastLen);
        if r.Bad? || (buffLen == MAX_BUFFR && r.Partial?) {
          return Refused(400);
        }
        if r.Ok? {
          return Done(Headed(r.pos, r.value));
        }
      }
    }

    /** The body loop: it runs only while bytes are missing, and then there is room. */
    method ReadBodySection(sock: Socket, need: int) returns (stage: Stage<()>)
      requires Valid() && need <= MAX_BUFFR
      modifies this`buffLen, buff, sock
      ensures Valid() && lastLen == old(lastLen)
      ensures var p := ReadBody(old(Contents()), old(sock.script), need);
              Contents() == p.buffer && sock.script == p.script && stage == p.stage
    {
      hide Recv;
      while buffLen < need
        invariant Valid() && lastLen == old(lastLen)
        invariant ReadBody(old(Contents()), old(sock.script), need) == ReadBody(Contents(), sock.script, need)
        decreases need - buffLen
      {
        assert MAX_BUFFR - buffLen > 0;
        var n, _ := Fill(sock);
        if n == 0 {
          return Lost;
        }
        if n == -1 {
          return Refused(500);
        }
      }
      return Done(());
    }

    /** One connection, from accepted socket to the end of processing; `processed` is
        the handler's success. The buffer is reset only in the last case. */
    method Serve(sock: Socket, processed: bool) returns (stage: Stage<Served>)
      requires Valid()
      modifies this, buff, sock
      ensures Valid()
      ensures stage == ReadRequest(old(Contents()), old(sock.script)).stage
      ensures Contents() == AfterConnection(old(Contents()), Connection(old(sock.script), processed))
    {
      hide ReadHeader, ReadBody, BodyLength, InBuffer, ParseMessage;
      ghost var b, script := Contents(), sock.script;
      HeaderKeepsBounds(b, script);
      var headed := ReadHeaderSection(sock);
      assert Finish(ReadHeader(b, script)) == ReadRequest(b, script);
      match headed
      case Lost => return Lost;
      case Refused(status) => return Refused(status);
      case Done(h) =>
        ghost var p := ReadHeader(b, script);
        var expected := GetContentLength(buff[..buffLen], h.request.headers);
        if expected > MAX_BUFFR - h.size {
          return Refused(400);
        }
        BodyKeepsBounds(p.buffer, p.script, h.size + expected);
        var filled := ReadBodySection(sock, h.size + expected);
        match filled
        case Lost => return Lost;
        case Refused(status) => return Refused(status);
        case Done(_) =>
          stage := Done(Served(h.size, h.request, buff[h.size..buffLen]));
          assert buff[h.size..buffLen] == buff[..buffLen][h.size..];
          if processed {
            buffLen, lastLen := 0, 0;
            assert buff[..0] == [];
          }
    }
  }
}
