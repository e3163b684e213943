/** The parser of srclib/picohttpparser.c, scalar build: loops over a read-only buffer,
    proved to compute the reference grammar. */
module HttpParser {
  import opened Bytes
  import opened Wrappers
  import opened HttpSyntax

  /** Printable bytes never stop a line scan; of the others, tabs and high-bit bytes
      do not either. */
  predicate LineControl(b: Byte) {
    (b < 32 && b != HT) || b == 127
  }

  /** `get_token_to_eol`: eight bytes at a time while eight are left, resuming behind
      a tab or a high-bit byte, then one at a time. */
  method GetTokenToEol(s: seq<Byte>, start: nat) returns (r: Parse<Slice>)
    requires start <= |s|
    ensures r == Line(s, start)
  {
    hide Scan;
    var p := start;
    var found := false;
    while !found && |s| - p >= 8
      invariant start <= p <= |s|
      invariant forall i :: start <= i < p ==> !Stops(AtLineControl, s[i])
      invariant found ==> p < |s| && Stops(AtLineControl, s[p])
      decreases !found, |s| - p
    {
      var k := 0;
      ghost var base := p;
      while k < 8 && Printable(s[p])
        invariant k <= 8 && p == base + k && base + 8 <= |s|
        invariant forall i :: start <= i < p ==> !Stops(AtLineControl, s[i])
      {
        p, k := p + 1, k + 1;
      }
      if k < 8 {
        if LineControl(s[p]) {
          found := true;
        } else {
          p := p + 1;
        }
      }
    }
    while !found
      invariant start <= p <= |s|
      invariant forall i :: start <= i < p ==> !Stops(AtLineControl, s[i])
      invariant found ==> p < |s| && Stops(AtLineControl, s[p])
      decreases !found, |s| - p
    {
      if p == |s| {
        ScanUnique(s, start, AtLineControl, p);
        return Partial;
      }
      if !Printable(s[p]) && LineControl(s[p]) {
        found := true;
      } else {
        p := p + 1;
      }
    }
    ScanUnique(s, start, AtLineControl, p);
    if s[p] == CR {
      if p + 1 == |s| {
        return Partial;
      }
      if s[p + 1] != LF {
        return Bad;
      }
      return Ok(p + 2, Slice(start, p - start));
    } else if s[p] == LF {
      return Ok(p + 1, Slice(start, p - start));
    } else {
      return Bad;
    }
  }

  /** `parse_token`: token characters up to `next`. */
  method GetToken(s: seq<Byte>, start: nat, next: Byte) returns (r: Parse<Slice>)
    requires start <= |s|
    ensures r == Token(s, start, next)
  {
    hide Scan;
    var p := start;
    if p == |s| {
      ScanUnique(s, start, AtTokenEnd(next), p);
      return Partial;
    }
    while s[p] != next
      invariant start <= p < |s|
      invariant forall i :: start <= i < p ==> !Stops(AtTokenEnd(next), s[i])
      decreases |s| - p
    {
      if !TokenChar(s[p]) {
        ScanUnique(s, start, AtTokenEnd(next), p);
        return Bad;
      }
      p := p + 1;
      if p == |s| {
        ScanUnique(s, start, AtTokenEnd(next), p);
        return Partial;
      }
    }
    ScanUnique(s, start, AtTokenEnd(next), p);
    return Ok(p, Slice(start, p - start));
  }

  /** `ADVANCE_TOKEN`: the request target up to a space. */
  method GetTarget(s: seq<Byte>, start: nat) returns (r: Parse<Slice>)
    requires start <= |s|
    ensures r == Target(s, start)
  {
    hide Scan;
    var p := start;
    if p == |s| {
      ScanUnique(s, start, AtPathEnd, p);
      return Partial;
    }
    while s[p] != SP
      invariant start <= p < |s|
      invariant forall i :: start <= i < p ==> !Stops(AtPathEnd, s[i])
      decreases |s| - p
    {
      if !Printable(s[p]) && (s[p] < 32 || s[p] == 127) {
        ScanUnique(s, start, AtPathEnd, p);
        return Bad;
      }
      p := p + 1;
      if p == |s| {
        ScanUnique(s, start, AtPathEnd, p);
        return Partial;
      }
    }
    ScanUnique(s, start, AtPathEnd, p);
    return Ok(p, Slice(start, p - start));
  }

  /** The `do ++buf while space` loops: `start` is behind the first space. */
  method PassSpaces(s: seq<Byte>, start: nat) returns (r: Parse<()>)
    requires start <= |s|
    ensures r == SkipSpaces(s, start)
  {
    hide Scan;
    var p := start;
    while p < |s| && s[p] == SP
      invariant start <= p <= |s|
      invariant forall i :: start <= i < p ==> !Stops(AtNonSpace, s[i])
    {
      p := p + 1;
    }
    ScanUnique(s, start, AtNonSpace, p);
    return if p == |s| then Partial else Ok(p, ());
  }

  /** A line break at `p`, tested byte by byte. */
  method GetBreak(s: seq<Byte>, p: nat) returns (r: Parse<bool>)
    requires p <= |s|
    ensures r == Break(s, p)
  {
    if p == |s| {
      return Partial;
    }
    if s[p] == CR {
      if p + 1 == |s| {
        return Partial;
      }
      if s[p + 1] != LF {
        return Bad;
      }
      return Ok(p + 2, true);
    } else if s[p] == LF {
      return Ok(p + 1, true);
    }
    return Ok(p, false);
  }

  /** `parse_http_version`. */
  method GetVersion(s: seq<Byte>, p: nat) returns (r: Parse<nat>)
    requires p <= |s|
    ensures r == Version(s, p)
  {
    if |s| - p < 9 {
      return Partial;
    }
    assert s[p..p + 7] == [s[p], s[p + 1], s[p + 2], s[p + 3], s[p + 4], s[p + 5], s[p + 6]];
    if s[p] != 72 { return Bad; }
    if s[p + 1] != 84 { return Bad; }
    if s[p + 2] != 84 { return Bad; }
    if s[p + 3] != 80 { return Bad; }
    if s[p + 4] != 47 { return Bad; }
    if s[p + 5] != 49 { return Bad; }
    if s[p + 6] != 46 { return Bad; }
    if s[p + 7] < 48 || 57 < s[p + 7] {
      return Bad;
    }
    return Ok(p + 8, s[p + 7] - 48);
  }

  /** Name part of a header line with the blanks behind the colon. */
  method GetHeaderName(s: seq<Byte>, p: nat, first: bool) returns (r: Parse<Option<Slice>>)
    requires p < |s|
    ensures r == HeaderName(s, p, first)
  {
    hide Scan;
    if !first && (s[p] == SP || s[p] == HT) {
      return Ok(p, None);
    }
    var token := GetToken(s, p, COLON);
    match token
    case Bad => return Bad;
    case Partial => return Partial;
    case Ok(q, name) =>
      if name.len == 0 {
        return Bad;
      }
      var v := q + 1;
      while v < |s| && (s[v] == SP || s[v] == HT)
        invariant q + 1 <= v <= |s|
        invariant forall i :: q + 1 <= i < v ==> !Stops(AtNonBlank, s[i])
      {
        v := v + 1;
      }
      ScanUnique(s, q + 1, AtNonBlank, v);
      return if v == |s| then Partial else Ok(v, Some(name));
  }

  /** Drops the blanks at the end of a value. */
  method TrimEnd(s: seq<Byte>, start: nat, end: nat) returns (w: Slice)
    requires start <= end <= |s|
    ensures w == Trimmed(s, start, end)
  {
    var e := end;
    while e != start && (s[e - 1] == SP || s[e - 1] == HT)
      invariant start <= e <= end
      invariant Trimmed(s, start, e) == Trimmed(s, start, end)
    {
      e := e - 1;
    }
    return Slice(start, e - start);
  }

  method GetHeaderLine(s: seq<Byte>, p: nat, first: bool) returns (r: Parse<Header>)
    requires p < |s|
    ensures r == HeaderLine(s, p, first)
  {
    hide HeaderName, Line, Trimmed;
    var named := GetHeaderName(s, p, first);
    match named
    case Bad => return Bad;
    case Partial => return Partial;
    case Ok(v, name) =>
      var text := GetTokenToEol(s, v);
      match text
      case Bad => return Bad;
      case Partial => return Partial;
      case Ok(next, w) =>
        var value := TrimEnd(s, v, w.End());
        return Ok(next, Header(name, value));
  }

  /** Headers already collected, then the outcome for the others. */
  function Collected(hs: seq<Header>, more: Parse<seq<Header>>): Parse<seq<Header>> {
    if more.Ok? then Ok(more.pos, hs + more.value) else more
  }

  lemma CollectedNone(more: Parse<seq<Header>>)
    ensures Collected([], more) == more
  {
    if more.Ok? {
      assert [] + more.value == more.value;
    }
  }

  lemma CollectedOneMore(hs: seq<Header>, h: Header, more: Parse<seq<Header>>)
    ensures Collected(hs, Prepended(h, more)) == Collected(hs + [h], more)
  {
    if more.Ok? {
      assert hs + ([h] + more.value) == (hs + [h]) + more.value;
    }
  }

  /** `parse_headers`. */
  method GetHeaders(s: seq<Byte>, start: nat, max: nat) returns (r: Parse<seq<Header>>)
    requires start <= |s|
    ensures r == Headers(s, start, 0, max)
  {
    hide HeaderLine;
    var p, hs := start, [];
    CollectedNone(Headers(s, start, 0, max));
    while true
      invariant start <= p <= |s|
      invariant Headers(s, start, 0, max) == Collected(hs, Headers(s, p, |hs|, max))
      decreases |s| - p
    {
      var b := GetBreak(s, p);
      match b {
        case Bad => return Bad;
        case Partial => return Partial;
        case Ok(next, isBreak) =>
          if isBreak {
            assert hs + [] == hs;
            return Ok(next, hs);
          }
          if |hs| == max {
            return Bad;
          }
          var line := GetHeaderLine(s, p, |hs| == 0);
          match line {
            case Bad => return Bad;
            case Partial => return Partial;
            case Ok(after, h) =>
              CollectedOneMore(hs, h, Headers(s, after, |hs| + 1, max));
              p, hs := after, hs + [h];
          }
      }
    }
  }

  method GetMethodAndTarget(s: seq<Byte>, p: nat) returns (r: Parse<(Slice, Slice)>)
    requires p <= |s|
    ensures r == MethodAndTarget(s, p)
  {
    hide Token, Target, SkipSpaces;
    var token := GetToken(s, p, SP);
    if !token.Ok? {
      return if token.Bad? then Bad else Partial;
    }
    var gap := PassSpaces(s, token.pos + 1);
    if !gap.Ok? {
      return if gap.Bad? then Bad else Partial;
    }
    var path := GetTarget(s, gap.pos);
    if !path.Ok? {
      return if path.Bad? then Bad else Partial;
    }
    gap := PassSpaces(s, path.pos + 1);
    if !gap.Ok? {
      return if gap.Bad? then Bad else Partial;
    }
    if token.value.len == 0 || path.value.len == 0 {
      return Bad;
    }
    return Ok(gap.pos, (token.value, path.value));
  }

  /** `parse_request`. */
  method GetRequest(s: seq<Byte>, max: nat) returns (r: Parse<Message>)
    ensures r == ParseRequest(s, max)
  {
    hide MethodAndTarget, Version, Break, Headers;
    var b := GetBreak(s, 0);
    if !b.Ok? {
      return if b.Bad? then Bad else Partial;
    }
    var pair := GetMethodAndTarget(s, b.pos);
    if !pair.Ok? {
      return if pair.Bad? then Bad else Partial;
    }
    var version := GetVersion(s, pair.pos);
    if !version.Ok? {
      return if version.Bad? then Bad else Partial;
    }
    b := GetBreak(s, version.pos);
    if !b.Ok? {
      return if b.Bad? then Bad else Partial;
    }
    if !b.value {
      return Bad;
    }
    var hs := GetHeaders(s, b.pos, max);
    if !hs.Ok? {
      return if hs.Bad? then Bad else Partial;
    }
    return Ok(hs.pos, Request(pair.value.0, pair.value.1, version.value, hs.value));
  }

  /** Reason part of a status line: a leading space is required and stripped. */
  method GetReason(s: seq<Byte>, p: nat) returns (r: Parse<Slice>)
    requires p <= |s|
    ensures r == Reason(s, p)
  {
    hide Line;
    var text := GetTokenToEol(s, p);
    if !text.Ok? {
      return if text.Bad? then Bad else Partial;
    }
    if text.value.len == 0 {
      return text;
    }
    if s[p] != SP {
      return Bad;
    }
    var q := p;
    ghost var end := text.value.End();
    while s[q] == SP
      invariant p <= q <= end
      invariant ScanWithin(s, p, AtNonSpace, end) == ScanWithin(s, q, AtNonSpace, end)
      decreases end - q
    {
      q := q + 1;
    }
    return Ok(text.pos, Slice(q, text.value.End() - q));
  }

  /** `parse_response`. */
  method GetResponse(s: seq<Byte>, max: nat) returns (r: Parse<Message>)
    ensures r == ParseResponse(s, max)
  {
    hide Version, SkipSpaces, Reason, Headers;
    var version := GetVersion(s, 0);
    if !version.Ok? {
      return if version.Bad? then Bad else Partial;
    }
    if s[version.pos] != SP {
      return Bad;
    }
    var gap := PassSpaces(s, version.pos + 1);
    if !gap.Ok? {
      return if gap.Bad? then Bad else Partial;
    }
    var p := gap.pos;
    if |s| - p < 4 {
      return Partial;
    }
    if s[p] < 48 || 57 < s[p] { return Bad; }
    var status := 100 * DigitValue(s[p]);
    if s[p + 1] < 48 || 57 < s[p + 1] { return Bad; }
    status := status + 10 * DigitValue(s[p + 1]);
    if s[p + 2] < 48 || 57 < s[p + 2] { return Bad; }
    status := status + DigitValue(s[p + 2]);
    var reason := GetReason(s, p + 3);
    if !reason.Ok? {
      return if reason.Bad? then Bad else Partial;
    }
    var hs := GetHeaders(s, reason.pos, max);
    if !hs.Ok? {
      return if hs.Bad? then Bad else Partial;
    }
    return Ok(hs.pos, Response(version.value, status, reason.value, hs.value));
  }

  /** `is_complete`: counts consecutive line breaks from three bytes before the old
      end on. */
  method CheckComplete(s: seq<Byte>, lastLen: nat) returns (r: Parse<()>)
    requires lastLen <= |s|
    ensures r == IsComplete(s, lastLen)
  {
    var p := if lastLen < 3 then 0 else lastLen - 3;
    var run := 0;
    while true
      invariant p <= |s| && 0 <= run < 2
      invariant IsComplete(s, lastLen) == FindEmptyLine(s, p, run)
      decreases |s| - p
    {
      if p == |s| {
        return Partial;
      }
      if s[p] == CR {
        if p + 1 == |s| {
          return Partial;
        }
        if s[p + 1] != LF {
          return Bad;
        }
        p, run := p + 2, run + 1;
      } else if s[p] == LF {
        p, run := p + 1, run + 1;
      } else {
        p, run := p + 1, 0;
      }
      if run == 2 {
        return Ok(p, ());
      }
    }
  }

  /** `phr_parse_request` and `phr_parse_response`. */
  method PhrParse(kind: Kind, s: seq<Byte>, max: nat, lastLen: nat) returns (r: Parse<Message>)
    requires lastLen <= |s|
    ensures r == Phr(kind, s, max, lastLen)
  {
    hide ParseRequest, ParseResponse, FindEmptyLine;
    if lastLen != 0 {
      var complete := CheckComplete(s, lastLen);
      if !complete.Ok? {
        return if complete.Bad? then Bad else Partial;
      }
    }
    match kind
    case RequestKind => r := GetRequest(s, max);
    case ResponseKind => r := GetResponse(s, max);
  }
}
