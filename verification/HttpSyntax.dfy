/** Reference grammar of the request and response parser in srclib/picohttpparser.c
    (sections 3.1, 3.2 and 3.2.6 of RFC 7230), as functions of the bytes present.

    Every function reads `s` from position `p` and answers with the position reached
    and a value, with `Bad` (the code's -1), or with `Partial` (the code's -2). */
module HttpSyntax {
  import opened Bytes
  import opened Wrappers

  /** A pointer into the buffer with a length. */
  datatype Slice = Slice(start: nat, len: nat) {
    function End(): nat { start + len }
  }

  function Text(s: seq<Byte>, w: Slice): seq<Byte>
    requires w.End() <= |s|
  {
    s[w.start..w.End()]
  }

  /** The name is absent on a continuation line. */
  datatype Header = Header(name: Option<Slice>, value: Slice)

  datatype Message =
    | Request(method_: Slice, path: Slice, minor: nat, headers: seq<Header>)
    | Response(minor: nat, status: nat, reason: Slice, headers: seq<Header>)

  datatype Kind = RequestKind | ResponseKind

  datatype Parse<+T> = Ok(pos: nat, value: T) | Bad | Partial

  // ---------------------------------------------------------------- scanning

  predicate Printable(b: Byte) {
    32 <= b < 127
  }

  predicate Control(b: Byte) {
    b < 32 || b == 127
  }

  predicate TokenChar(b: Byte) {
    || 48 <= b <= 57 || 65 <= b <= 90 || 94 <= b <= 122
    || b == 33 || 35 <= b <= 39 || b == 42 || b == 43 || b == 45 || b == 46
    || b == 124 || b == 126
  }

  predicate Blank(b: Byte) {
    b == SP || b == HT
  }

  predicate Digit(b: Byte) {
    48 <= b <= 57
  }

  function DigitValue(b: Byte): (v: nat)
    requires Digit(b)
    ensures v <= 9
  {
    b - 48
  }

  /** What ends a scan. */
  datatype Stop =
    | AtLineControl
    | AtTokenEnd(next: Byte)
    | AtPathEnd
    | AtNonSpace
    | AtNonBlank

  predicate Stops(k: Stop, b: Byte) {
    match k
    case AtLineControl => Control(b) && b != HT
    case AtTokenEnd(next) => b == next || !TokenChar(b)
    case AtPathEnd => b == SP || Control(b)
    case AtNonSpace => b != SP
    case AtNonBlank => !Blank(b)
  }

  /** First stopping byte at or after `p`, or the end. */
  function Scan(s: seq<Byte>, p: nat, k: Stop): (q: nat)
    requires p <= |s|
    ensures p <= q <= |s|
    ensures q < |s| ==> Stops(k, s[q])
    decreases |s| - p
  {
    if p == |s| || Stops(k, s[p]) then p else Scan(s, p + 1, k)
  }

  /** [p, q) holds no stopping byte and `q` is one, or the end. */
  ghost predicate Stretch(s: seq<Byte>, p: nat, k: Stop, q: nat) {
    && p <= q <= |s|
    && (forall i :: p <= i < q ==> !Stops(k, s[i]))
    && (q < |s| ==> Stops(k, s[q]))
  }

  lemma {:induction false} ScanStretch(s: seq<Byte>, p: nat, k: Stop)
    requires p <= |s|
    ensures Stretch(s, p, k, Scan(s, p, k))
    decreases |s| - p
  {
    if p < |s| && !Stops(k, s[p]) {
      ScanStretch(s, p + 1, k);
    }
  }

  /** The scan is determined by what it passed over and where it stopped. */
  lemma {:induction false} ScanUnique(s: seq<Byte>, p: nat, k: Stop, q: nat)
    requires Stretch(s, p, k, q)
    ensures Scan(s, p, k) == q
    decreases q - p
  {
    if p < q {
      ScanUnique(s, p + 1, k, q);
    }
  }

  /** A scan that some byte at `end` is known to stop. */
  function ScanWithin(s: seq<Byte>, p: nat, k: Stop, end: nat): (q: nat)
    requires p <= end < |s| && Stops(k, s[end])
    ensures p <= q <= end
    decreases end - p
  {
    if Stops(k, s[p]) then p else ScanWithin(s, p + 1, k, end)
  }

  // ---------------------------------------------------------------- pieces of a message

  /** A line break at `p`: CRLF or LF. Some other byte there yields `false`. */
  function Break(s: seq<Byte>, p: nat): (r: Parse<bool>)
    requires p <= |s|
    ensures r.Ok? ==> p <= r.pos <= |s| && (r.value <==> p < r.pos)
  {
    if p == |s| then Partial
    else if s[p] == CR then
      if p + 1 == |s| then Partial
      else if s[p + 1] == LF then Ok(p + 2, true)
      else Bad
    else if s[p] == LF then Ok(p + 1, true)
    else Ok(p, false)
  }

  /** Text up to the end of its line. */
  function Line(s: seq<Byte>, p: nat): (r: Parse<Slice>)
    requires p <= |s|
    ensures r.Ok? ==> p <= r.value.End() < r.pos <= |s| && r.value.start == p
    ensures r.Ok? ==> s[r.value.End()] == CR || s[r.value.End()] == LF
  {
    var q := Scan(s, p, AtLineControl);
    match Break(s, q)
    case Ok(next, true) => Ok(next, Slice(p, q - p))
    case Ok(_, false) => Bad
    case Bad => Bad
    case Partial => Partial
  }

  /** A run of token characters up to `next`. */
  function Token(s: seq<Byte>, p: nat, next: Byte): (r: Parse<Slice>)
    requires p <= |s|
    ensures r.Ok? ==> p <= r.pos < |s| && s[r.pos] == next && r.value == Slice(p, r.pos - p)
  {
    var q := Scan(s, p, AtTokenEnd(next));
    if q == |s| then Partial
    else if s[q] == next then Ok(q, Slice(p, q - p))
    else Bad
  }

  /** The request target, up to a space. */
  function Target(s: seq<Byte>, p: nat): (r: Parse<Slice>)
    requires p <= |s|
    ensures r.Ok? ==> p <= r.pos < |s| && s[r.pos] == SP && r.value == Slice(p, r.pos - p)
  {
    var q := Scan(s, p, AtPathEnd);
    if q == |s| then Partial
    else if s[q] == SP then Ok(q, Slice(p, q - p))
    else Bad
  }

  /** At least one space has been seen at `p - 1`; skips the others. */
  function SkipSpaces(s: seq<Byte>, p: nat): (r: Parse<()>)
    requires p <= |s|
    ensures r.Ok? ==> p <= r.pos < |s| && s[r.pos] != SP
  {
    var q := Scan(s, p, AtNonSpace);
    if q == |s| then Partial else Ok(q, ())
  }

  const VERSION_PREFIX: seq<Byte> := [72, 84, 84, 80, 47, 49, 46]

  /** "HTTP/1." and a digit; looks at nothing before nine bytes are there. */
  function Version(s: seq<Byte>, p: nat): (r: Parse<nat>)
    requires p <= |s|
    ensures r.Ok? ==> r.pos == p + 8 < |s| && r.value <= 9
  {
    if |s| - p < 9 then Partial
    else if s[p..p + 7] != VERSION_PREFIX || !Digit(s[p + 7]) then Bad
    else Ok(p + 8, DigitValue(s[p + 7]))
  }

  /** Drops trailing blanks. */
  function Trimmed(s: seq<Byte>, start: nat, end: nat): (w: Slice)
    requires start <= end <= |s|
    ensures w.start == start && w.End() <= end
    ensures w.len > 0 ==> !Blank(s[w.End() - 1])
    ensures forall i :: w.End() <= i < end ==> Blank(s[i])
    decreases end
  {
    if start < end && Blank(s[end - 1]) then Trimmed(s, start, end - 1)
    else Slice(start, end - start)
  }

  /** The name of a header and the blanks behind its colon; the position reached is
      that of the value. A line that starts with a blank continues the one before. */
  function HeaderName(s: seq<Byte>, p: nat, first: bool): (r: Parse<Option<Slice>>)
    requires p < |s|
    ensures r.Ok? ==> p <= r.pos < |s|
  {
    if !first && Blank(s[p]) then Ok(p, None)
    else
      match Token(s, p, COLON)
      case Bad => Bad
      case Partial => Partial
      case Ok(q, name) =>
        if name.len == 0 then Bad
        else
          var v := Scan(s, q + 1, AtNonBlank);
          if v == |s| then Partial else Ok(v, Some(name))
  }

  function HeaderLine(s: seq<Byte>, p: nat, first: bool): (r: Parse<Header>)
    requires p < |s|
    ensures r.Ok? ==> p < r.pos <= |s|
  {
    match HeaderName(s, p, first)
    case Bad => Bad
    case Partial => Partial
    case Ok(v, name) =>
      match Line(s, v)
      case Bad => Bad
      case Partial => Partial
      case Ok(next, text) => Ok(next, Header(name, Trimmed(s, v, text.End())))
  }

  /** Header lines up to and including the empty line; `n` were read before. */
  function Headers(s: seq<Byte>, p: nat, n: nat, max: nat): (r: Parse<seq<Header>>)
    requires p <= |s|
    ensures r.Ok? ==> p < r.pos <= |s|
    decreases |s| - p
  {
    match Break(s, p)
    case Bad => Bad
    case Partial => Partial
    case Ok(next, true) => Ok(next, [])
    case Ok(_, false) =>
      if n == max then Bad
      else
        match HeaderLine(s, p, n == 0)
        case Bad => Bad
        case Partial => Partial
        case Ok(next, h) => Prepended(h, Headers(s, next, n + 1, max))
  }

  function Prepended(h: Header, more: Parse<seq<Header>>): Parse<seq<Header>> {
    if more.Ok? then Ok(more.pos, [h] + more.value) else more
  }

  /** The line break that must stand at `p`. */
  function Expected(s: seq<Byte>, p: nat): (r: Parse<()>)
    requires p <= |s|
    ensures r.Ok? ==> p < r.pos <= |s|
  {
    match Break(s, p)
    case Ok(next, true) => Ok(next, ())
    case Ok(_, false) => Bad
    case Bad => Bad
    case Partial => Partial
  }

  /** Method, target and version, without the line break. */
  datatype StartLine = StartLine(method_: Slice, path: Slice, minor: nat)

  function MethodAndTarget(s: seq<Byte>, p: nat): (r: Parse<(Slice, Slice)>)
    requires p <= |s|
    ensures r.Ok? ==> p < r.pos < |s|
  {
    match Token(s, p, SP)
    case Bad => Bad
    case Partial => Partial
    case Ok(p1, m) =>
      match SkipSpaces(s, p1 + 1)
      case Bad => Bad
      case Partial => Partial
      case Ok(p2, _) =>
        match Target(s, p2)
        case Bad => Bad
        case Partial => Partial
        case Ok(p3, path) =>
          match SkipSpaces(s, p3 + 1)
          case Bad => Bad
          case Partial => Partial
          case Ok(p4, _) => if m.len == 0 || path.len == 0 then Bad else Ok(p4, (m, path))
  }

  function RequestLine(s: seq<Byte>, p: nat): (r: Parse<StartLine>)
    requires p <= |s|
    ensures r.Ok? ==> p < r.pos <= |s|
  {
    match MethodAndTarget(s, p)
    case Bad => Bad
    case Partial => Partial
    case Ok(p1, pair) =>
      match Version(s, p1)
      case Bad => Bad
      case Partial => Partial
      case Ok(p2, minor) =>
        match Expected(s, p2)
        case Bad => Bad
        case Partial => Partial
        case Ok(p3, _) => Ok(p3, StartLine(pair.0, pair.1, minor))
  }

  function ParseRequest(s: seq<Byte>, max: nat): (r: Parse<Message>)
    ensures r.Ok? ==> 0 < r.pos <= |s| && r.value.Request?
  {
    match Break(s, 0)
    case Bad => Bad
    case Partial => Partial
    case Ok(p, _) =>
      match RequestLine(s, p)
      case Bad => Bad
      case Partial => Partial
      case Ok(p1, line) =>
        match Headers(s, p1, 0, max)
        case Bad => Bad
        case Partial => Partial
        case Ok(end, hs) => Ok(end, Request(line.method_, line.path, line.minor, hs))
  }

  datatype StatusLine = StatusLine(minor: nat, status: nat, reason: Slice)

  /** Version and the spaces behind it. */
  function StatusHead(s: seq<Byte>): (r: Parse<nat>)
    ensures r.Ok? ==> 0 < r.pos < |s|
  {
    match Version(s, 0)
    case Bad => Bad
    case Partial => Partial
    case Ok(p, minor) =>
      if s[p] != SP then Bad
      else
        match SkipSpaces(s, p + 1)
        case Bad => Bad
        case Partial => Partial
        case Ok(p1, _) => Ok(p1, minor)
  }

  /** Three digits; looks at nothing before four bytes are there. */
  function Status(s: seq<Byte>, p: nat): (r: Parse<nat>)
    requires p <= |s|
    ensures r.Ok? ==> r.pos == p + 3 < |s|
  {
    if |s| - p < 4 then Partial
    else if !Digit(s[p]) || !Digit(s[p + 1]) || !Digit(s[p + 2]) then Bad
    else Ok(p + 3, 100 * DigitValue(s[p]) + 10 * DigitValue(s[p + 1]) + DigitValue(s[p + 2]))
  }

  /** The rest of the status line: nothing, or a space and the reason. */
  function Reason(s: seq<Byte>, p: nat): (r: Parse<Slice>)
    requires p <= |s|
    ensures r.Ok? ==> p < r.pos <= |s|
  {
    match Line(s, p)
    case Bad => Bad
    case Partial => Partial
    case Ok(next, text) =>
      if text.len == 0 then Ok(next, text)
      else if s[p] == SP then
        var q := ScanWithin(s, p, AtNonSpace, text.End());
        Ok(next, Slice(q, text.End() - q))
      else Bad
  }

  function ParseStatusLine(s: seq<Byte>): (r: Parse<StatusLine>)
    ensures r.Ok? ==> 0 < r.pos <= |s|
  {
    match StatusHead(s)
    case Bad => Bad
    case Partial => Partial
    case Ok(p, minor) =>
      match Status(s, p)
      case Bad => Bad
      case Partial => Partial
      case Ok(p1, status) =>
        match Reason(s, p1)
        case Bad => Bad
        case Partial => Partial
        case Ok(p2, reason) => Ok(p2, StatusLine(minor, status, reason))
  }

  function ParseResponse(s: seq<Byte>, max: nat): (r: Parse<Message>)
    ensures r.Ok? ==> 0 < r.pos <= |s| && r.value.Response?
  {
    match ParseStatusLine(s)
    case Bad => Bad
    case Partial => Partial
    case Ok(p, line) =>
      match Headers(s, p, 0, max)
      case Bad => Bad
      case Partial => Partial
      case Ok(end, hs) => Ok(end, Response(line.minor, line.status, line.reason, hs))
  }

  function ParseMessage(kind: Kind, s: seq<Byte>, max: nat): (r: Parse<Message>)
    ensures r.Ok? ==> 0 < r.pos <= |s|
  {
    match kind
    case RequestKind => ParseRequest(s, max)
    case ResponseKind => ParseResponse(s, max)
  }

  // ---------------------------------------------------------------- the shortcut

  /** Looks for an empty line from `p` on; `run` line breaks stand right before `p`. */
  function FindEmptyLine(s: seq<Byte>, p: nat, run: nat): (r: Parse<()>)
    requires p <= |s| && run < 2
    ensures r.Ok? ==> p < r.pos <= |s|
    decreases |s| - p
  {
    match Break(s, p)
    case Bad => Bad
    case Partial => Partial
    case Ok(next, true) => if run == 1 then Ok(next, ()) else FindEmptyLine(s, next, 1)
    case Ok(_, false) => FindEmptyLine(s, p + 1, 0)
  }

  /** The check done before parsing a buffer whose first `lastLen` bytes were already
      seen and found partial. */
  function IsComplete(s: seq<Byte>, lastLen: nat): Parse<()>
    requires lastLen <= |s|
  {
    FindEmptyLine(s, if lastLen < 3 then 0 else lastLen - 3, 0)
  }

  /** The exported entry points. */
  function Phr(kind: Kind, s: seq<Byte>, max: nat, lastLen: nat): Parse<Message>
    requires lastLen <= |s|
  {
    if lastLen == 0 then ParseMessage(kind, s, max)
    else
      match IsComplete(s, lastLen)
      case Bad => Bad
      case Partial => Partial
      case Ok(_, _) => ParseMessage(kind, s, max)
  }
}
