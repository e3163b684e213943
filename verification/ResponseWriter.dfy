/** Responses as built and printed by srclib/http.c. */
module ResponseWriter {
  import opened Bytes
  import opened HttpLimits
  import opened HttpSyntax
  import opened HttpText
  import opened HttpIncremental

  /** Reason phrases. */
  function StatusText(code: int): seq<Byte> {
    Ascii(Phrase(code))
  }

  function Phrase(code: int): (text: string)
    ensures forall i :: 0 <= i < |text| ==> ' ' <= text[i] <= 'z'
    ensures text != "" && text[0] != ' '
  {
    match code
    case 200 => "OK"
    case 400 => "Bad Request"
    case 403 => "Forbidden"
    case 404 => "Not Found"
    case 405 => "Method Not Allowed"
    case 204 => "No Content"
    case 500 => "Internal Error"
    case 505 => "Version Not Supported"
    case _ => "Error"
  }

  /** The table of reason phrases. */
  lemma StatusTextIs()
    ensures StatusText(200) == Ascii("OK") && StatusText(204) == Ascii("No Content")
    ensures StatusText(400) == Ascii("Bad Request") && StatusText(403) == Ascii("Forbidden")
    ensures StatusText(404) == Ascii("Not Found") && StatusText(405) == Ascii("Method Not Allowed")
    ensures StatusText(500) == Ascii("Internal Error") && StatusText(505) == Ascii("Version Not Supported")
    ensures forall code :: code !in {200, 204, 400, 403, 404, 405, 500, 505} ==> StatusText(code) == Ascii("Error")
  {
  }

  /** Every reason phrase is plain text that does not start with a space. */
  lemma StatusTextPlain(code: int)
    ensures PlainText(StatusText(code)) && StatusText(code) != [] && StatusText(code)[0] != SP
  {
    hide Phrase;
    var text := Phrase(code);
    forall i | 0 <= i < |StatusText(code)|
      ensures !Control(StatusText(code)[i])
    {
      assert ' ' <= text[i] <= 'z';
    }
  }

  /** A response: status code and headers, in order. */
  datatype Reply = Reply(status: int, fields: seq<Field>)

  /** The complete text of a response. */
  function Printed(r: Reply): seq<Byte> {
    ResponseText(r.status, StatusText(r.status), r.fields)
  }

  /** Byte for byte, as the format strings say. */
  lemma PrintedText(r: Reply)
    ensures Printed(r) ==
            Ascii("HTTP/1.0 ") + Number(r.status) + Ascii(" ") + Ascii(Phrase(r.status)) + Ascii("\r\n")
            + (FieldLines(r.fields) + Ascii("\r\n"))
  {
    hide Number, Phrase, FieldLines;
    CodesAreAscii();
    assert Ascii("HTTP/1.0 ") == STATUS_PREFIX;
    hide Ascii;
  }

  /** A bounded print into [at, size) of a buffer: as much of `text` as leaves room for
      the terminating zero byte; the full length is returned in any case. */
  method Snprintf(buf: array<Byte>, at: nat, size: nat, text: seq<Byte>) returns (n: nat)
    requires at <= size <= buf.Length
    modifies buf
    ensures n == |text|
    ensures buf[..at] == old(buf[..at]) && buf[size..] == old(buf[size..])
    ensures at + |text| < size ==> buf[at..at + |text|] == text && buf[at + |text|] == 0
    ensures at < size <= at + |text| ==> buf[at..size - 1] == text[..size - 1 - at] && buf[size - 1] == 0
  {
    n := |text|;
    if at < size {
      var k := if at + |text| < size then |text| else size - 1 - at;
      forall i | 0 <= i < k {
        buf[at + i] := text[i];
      }
      buf[at + k] := 0;
      assert buf[at..at + k] == text[..k];
      assert text[..|text|] == text;
    }
  }

  /** The buffer holds the first bytes of `text`, zero-terminated, as far as they fit. */
  ghost predicate Holds(buf: array<Byte>, size: nat, text: seq<Byte>)
    reads buf
  {
    && size <= buf.Length
    && (|text| < size ==> buf[..|text|] == text && buf[|text|] == 0)
    && (0 < size <= |text| ==> buf[..size - 1] == text[..size - 1] && buf[size - 1] == 0)
  }

  /** Prints the next piece of a text of which `done` is already in the buffer. */
  method Append(buf: array<Byte>, size: nat, ghost done: seq<Byte>, len: nat, piece: seq<Byte>) returns (newLen: nat)
    requires len == |done| && (len < size || len == size == 0) && size <= buf.Length && buf[..len] == done
    modifies buf
    ensures newLen == |done + piece|
    ensures Holds(buf, size, done + piece)
    ensures buf[size..] == old(buf[size..])
  {
    var n := Snprintf(buf, len, size, piece);
    newLen := len + n;
    ghost var text := done + piece;
    if newLen < size {
      assert buf[..newLen] == buf[..len] + buf[len..newLen];
    } else if 0 < size {
      assert buf[..size - 1] == buf[..len] + buf[len..size - 1];
      assert text[..size - 1] == done + piece[..size - 1 - len];
    }
  }

  /** A text that does not fit hides everything printed behind it. */
  lemma HoldsMore(buf: array<Byte>, size: nat, text: seq<Byte>, more: seq<Byte>)
    requires Holds(buf, size, text) && size <= |text|
    ensures Holds(buf, size, text + more)
  {
    if 0 < size {
      assert (text + more)[..size - 1] == text[..size - 1];
    }
  }

  /** The response record that handlers fill in. */
  class HttpResponse {
    var status: int
    var headers: seq<Field>

    ghost predicate Valid()
      reads this
    {
      |headers| <= MAX_HEADERS
    }

    function Content(): Reply
      reads this
    {
      Reply(status, headers)
    }

    constructor (status: int)
      ensures Valid() && Content() == Reply(status, [])
    {
      this.status, headers := status, [];
    }

    /** `add_header`: appends, or refuses when the table is full. */
    method AddHeader(name: seq<Byte>, value: seq<Byte>) returns (ret: int)
      requires Valid()
      modifies this`headers
      ensures Valid() && status == old(status)
      ensures ret == if |old(headers)| == 50 then -1 else 0
      ensures headers == if ret == 0 then old(headers) + [Field(name, value)] else old(headers)
    {
      if |headers| == MAX_HEADERS {
        return -1;
      }
      headers := headers + [Field(name, value)];
      return 0;
    }

    /** `serialize_response`: prints piece by piece and gives up as soon as the text no
        longer fits. It returns the length exactly if text and zero byte fit; the buffer
        holds the text, or as much of it as fits. */
    method Serialize(buf: array<Byte>, size: nat) returns (ret: int)
      requires Valid() && size <= buf.Length
      modifies buf
      ensures ret == if |Printed(Content())| < size then |Printed(Content())| else -1
      ensures Holds(buf, size, Printed(Content()))
      ensures buf[size..] == old(buf[size..])
    {
      hide FieldLines, StatusText, Number;
      ghost var line := StatusLineText(status, StatusText(status));
      ghost var text := Printed(Content());
      var len := Append(buf, size, [], 0, StatusLineText(status, StatusText(status)));
      assert [] + line == line;
      if len >= size {
        HoldsMore(buf, size, line, FieldLines(headers) + CRLF);
        return -1;
      }
      ghost var done := line;
      assert headers[..0] == [] && headers[0..] == headers;
      assert done + FieldLines(headers[0..]) + CRLF == text;
      for i := 0 to |headers|
        invariant len == |done| < size && buf[..len] == done
        invariant done + FieldLines(headers[i..]) + CRLF == text
        invariant buf[size..] == old(buf[size..])
      {
        len := Append(buf, size, done, len, FieldLine(headers[i]));
        FieldLinesFirst(done, headers, i);
        ghost var next := done + FieldLine(headers[i]);
        if len >= size {
          HoldsMore(buf, size, next, FieldLines(headers[i + 1..]) + CRLF);
          assert next + (FieldLines(headers[i + 1..]) + CRLF) == text;
          return -1;
        }
        done := next;
      }
      NoFieldLines(headers);
      len := Append(buf, size, done, len, CRLF);
      assert done + [] + CRLF == done + CRLF == text;
      return if len >= size then -1 else len;
    }
  }

  lemma NoFieldLines(fs: seq<Field>)
    ensures FieldLines(fs[|fs|..]) == []
  {
  }

  lemma FieldLinesFirst(done: seq<Byte>, fs: seq<Field>, i: nat)
    requires i < |fs|
    ensures done + FieldLines(fs[i..]) + CRLF == done + FieldLine(fs[i]) + FieldLines(fs[i + 1..]) + CRLF
  {
    assert fs[i..][1..] == fs[i + 1..];
    var a, b := FieldLine(fs[i]), FieldLines(fs[i + 1..]);
    assert done + (a + b) == done + a + b;
  }

  /** What was serialized can be read back: version 0, status, reason and headers come
      out of the parser, which consumes exactly the printed length, in whatever
      fragments the text arrives. */
  lemma SerializedReadsBack(r: Reply, max: nat, cuts: seq<nat>)
    requires 100 <= r.status < 1000 && |r.fields| <= max
    requires forall i :: 0 <= i < |r.fields| ==> GoodField(r.fields[i])
    requires Growing(cuts, 0, |Printed(r)|) && cuts != [] && cuts[|cuts| - 1] == |Printed(r)|
    ensures var text := Printed(r);
            var p := Receive(ResponseKind, text, max, cuts, 0);
            && p.Ok? && p.pos == |text|
            && p.value.Response? && p.value.minor == 0 && p.value.status == r.status
            && p.value.reason.End() <= |text| && Text(text, p.value.reason) == StatusText(r.status)
            && Says(text, p.value.headers, r.fields)
  {
    hide ParseMessage, Says, StatusText, ResponseText;
    StatusTextPlain(r.status);
    ResponseRoundTrip(r.status, StatusText(r.status), r.fields, max, []);
    assert Printed(r) + [] == Printed(r);
    IncrementalExact(ResponseKind, Printed(r), max, cuts);
  }

  /** Three digits are also needed: any other status prints a text that is refused. */
  lemma ReadsBackExactly(r: Reply, max: nat)
    requires |r.fields| <= max && forall i :: 0 <= i < |r.fields| ==> GoodField(r.fields[i])
    ensures ParseMessage(ResponseKind, Printed(r), max).Ok? <==> 100 <= r.status < 1000
  {
    hide ParseMessage, Says, StatusText, ResponseText;
    StatusTextPlain(r.status);
    assert Printed(r) + [] == Printed(r);
    if 100 <= r.status < 1000 {
      ResponseRoundTrip(r.status, StatusText(r.status), r.fields, max, []);
    } else {
      ResponseRefused(r.status, StatusText(r.status), r.fields, max, []);
    }
  }
}
